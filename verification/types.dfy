/** The data model the parser produces and the viewer consumes. */
module BcfTypes {
  import opened Wrappers

  /** A relationship of zero or more `T` that the decoder stores bare when it
      found exactly one and as an array otherwise (`T | T[]`). */
  datatype OneOrMany<T> = One(item: T) | Many(items: seq<T>)

  /** `xs.length === 1 ? xs[0] : xs`. */
  function Collapse<T>(xs: seq<T>): (r: OneOrMany<T>)
    ensures r.One? <==> |xs| == 1
  {
    if |xs| == 1 then One(xs[0]) else Many(xs)
  }

  /** `Array.isArray(x) ? x : [x]`. */
  function ToList<T>(o: OneOrMany<T>): (r: seq<T>)
    ensures o.One? ==> |r| == 1
  {
    match o
    case One(x) => [x]
    case Many(xs) => xs
  }

  /** Normalising a collapsed list gives the list back. */
  lemma ToListCollapse<T>(xs: seq<T>)
    ensures ToList(Collapse(xs)) == xs
  {
    if |xs| == 1 {
      assert xs == [xs[0]];
    }
  }

  /** Collapsing a normalised value gives it back unless it is an array of
      one, a shape the decoder never produces. */
  lemma CollapseToList<T>(o: OneOrMany<T>)
    ensures Collapse(ToList(o)) == o <==> !(o.Many? && |o.items| == 1)
  {
  }

  datatype Version = Version(versionId: string)

  datatype Project = Project(projectId: string, name: Option<string>)

  /** The six value lists of `extensions.xml`. */
  datatype Extensions = Extensions(
    topicType: seq<string>,
    topicStatus: seq<string>,
    priority: seq<string>,
    topicLabel: seq<string>,
    stage: seq<string>,
    userIdType: seq<string>)

  datatype FileRef = FileRef(ifcProject: string, filename: string, date: string)

  datatype Header = Header(files: OneOrMany<FileRef>)

  datatype ViewPoint = ViewPoint(guid: string, viewpoint: Option<string>, snapshot: Option<string>)

  datatype Comment = Comment(
    guid: string,
    date: string,
    author: string,
    body: string,
    modifiedDate: Option<string>,
    modifiedAuthor: Option<string>)

  datatype Topic = Topic(
    guid: string,
    topicType: Option<string>,
    topicStatus: Option<string>,
    title: string,
    priority: Option<string>,
    labels: Option<seq<string>>,
    creationDate: string,
    creationAuthor: string,
    modifiedDate: Option<string>,
    modifiedAuthor: Option<string>,
    assignedTo: Option<string>,
    comments: Option<OneOrMany<Comment>>,
    viewpoints: Option<OneOrMany<ViewPoint>>)

  datatype Markup = Markup(header: Header, topic: Topic)

  /** The MIME types an image's content can be given. */
  datatype Mime = ImagePng | ImageJpeg | ImageGif | ImageBmp {
    function Name(): string {
      match this
      case ImagePng => "image/png"
      case ImageJpeg => "image/jpeg"
      case ImageGif => "image/gif"
      case ImageBmp => "image/bmp"
    }
  }

  /** An image of a topic: the archive path it was read from and the MIME
      type given to its content. */
  datatype ImageRef = ImageRef(path: string, mime: Mime)

  datatype TopicData = TopicData(markup: Markup, images: seq<ImageRef>, topicId: string)

  datatype BcfData = BcfData(
    version: Version,
    project: Option<Project>,
    extensions: Option<Extensions>,
    topics: seq<TopicData>)
}
