/** `parseBCFFile`: the archive assembler over the ordered entry list of the
    zip container. */
module BcfArchive {
  import opened Wrappers
  import opened Strings
  import opened Sequences
  import opened Xml
  import opened BcfTypes
  import opened MarkupDecoder
  import opened BcfMetadata

  /** An entry of the archive under its path. `content` is what reading the
      entry yields, `None` when the read fails. For the XML entries it is the
      document tree of the entry's text; of an image only whether the read
      succeeds matters. */
  datatype Entry = Entry(path: string, content: Option<Document>)

  /** The exceptions that abort a parse. */
  datatype ParseError =
    | ReadFailed(path: string)
    | MarkupFailed(topicId: string, error: MarkupError)

  const VersionPath: string := "bcf.version"
  const ProjectPath: string := "project.bcfp"
  const ExtensionsPath: string := "extensions.xml"
  const MarkupName: string := "markup.bcf"

  /** The version assumed when the archive has no `bcf.version`. */
  const DefaultVersion: Version := Version("3.0")

  predicate IsDirectoryPath(p: string) {
    EndsWith(p, "/")
  }

  /** `zip.file(name)`: the entry stored under `name`; directory entries are
      not files. */
  function FileAt(entries: seq<Entry>, name: string): (r: Option<Entry>)
    ensures r.Some? ==> r.value in entries && r.value.path == name && !IsDirectoryPath(name)
    ensures r.None? <==> IsDirectoryPath(name) || forall e | e in entries :: e.path != name
  {
    if IsDirectoryPath(name) || |entries| == 0 then None
    else if entries[0].path == name then Some(entries[0])
    else FileAt(entries[1..], name)
  }

  /** Reads and decodes an optional archive-level file: absent when there is
      no such file, an error when reading it fails. */
  function ReadOptional<T>(entries: seq<Entry>, name: string, decode: Document -> T): (r: Result<Option<T>, ParseError>)
    ensures FileAt(entries, name).None? ==> r == Success(None)
    ensures FileAt(entries, name).Some? && FileAt(entries, name).value.content.None? ==>
              r == Failure(ReadFailed(name))
    ensures FileAt(entries, name).Some? && FileAt(entries, name).value.content.Some? ==>
              r == Success(Some(decode(FileAt(entries, name).value.content.value)))
  {
    match FileAt(entries, name)
    case None => Success(None)
    case Some(e) =>
      match e.content
      case None => Failure(ReadFailed(name))
      case Some(d) => Success(Some(decode(d)))
  }

  // ---------------------------------------------------------------------
  // Topic folder discovery

  /** The folder an entry path places in the archive's top level: the first
      of exactly two `/`-separated parts, when it is not empty. */
  function FolderOf(path: string): Option<string> {
    var parts := Split(path, '/');
    if |parts| == 2 && |parts[0]| > 0 then Some(parts[0]) else None
  }

  /** `path` is `f/rest` with a non-empty `f` and no further `/`. */
  predicate InTopLevelFolder(path: string, f: string) {
    && |f| > 0 && '/' !in f
    && |f| < |path| && path[..|f|] == f && path[|f|] == '/'
    && '/' !in path[|f| + 1..]
  }

  /** A path yields folder `f` exactly when it is `f/rest` with non-empty `f`
      and a slash-free `rest`, directory entries `f/` included. */
  lemma FolderOfIff(path: string, f: string)
    ensures FolderOf(path) == Some(f) <==> InTopLevelFolder(path, f)
  {
    if InTopLevelFolder(path, f) {
      var rest := path[|f| + 1..];
      assert path == f + ['/'] + rest;
      SplitAroundSep(f, rest, '/');
      SplitWithoutSep(f, '/');
      SplitWithoutSep(rest, '/');
    }
    if FolderOf(path) == Some(f) {
      var parts := Split(path, '/');
      JoinSplit(path, '/');
      assert parts[1..][1..] == [];
      assert path == parts[0] + ['/'] + parts[1];
      assert path[..|f|] == f;
      assert path[|f| + 1..] == parts[1];
    }
  }

  /** The folder of every entry that has one, in entry order. */
  function Candidates(entries: seq<Entry>): (r: seq<string>)
    ensures forall f | f in r :: |f| > 0 && '/' !in f
  {
    if |entries| == 0 then []
    else
      var here := FolderOf(entries[0].path);
      (if here.Some? then [here.value] else []) + Candidates(entries[1..])
  }

  /** The topic folders, deduplicated in first-seen order. */
  function TopicFolders(entries: seq<Entry>): seq<string> {
    FirstOccurrences(Candidates(entries))
  }

  lemma {:induction false} CandidatesIff(entries: seq<Entry>, f: string)
    ensures f in Candidates(entries) <==> exists e | e in entries :: InTopLevelFolder(e.path, f)
  {
    if |entries| > 0 {
      CandidatesIff(entries[1..], f);
      FolderOfIff(entries[0].path, f);
      assert forall e | e in entries :: e == entries[0] || e in entries[1..];
    }
  }

  /** A name is discovered exactly when some entry lies directly in a folder
      of that name; names are slash-free, distinct, and in the order of their
      first occurrence among the entries. */
  lemma TopicFoldersSpec(entries: seq<Entry>)
    ensures forall f :: f in TopicFolders(entries) <==> exists e | e in entries :: InTopLevelFolder(e.path, f)
    ensures forall f | f in TopicFolders(entries) :: |f| > 0 && '/' !in f
    ensures NoDuplicates(TopicFolders(entries))
    ensures forall i, j :: 0 <= i < j < |TopicFolders(entries)| ==>
              IndexOf(Candidates(entries), TopicFolders(entries)[i])
              < IndexOf(Candidates(entries), TopicFolders(entries)[j])
  {
    FirstOccurrencesSpec(Candidates(entries));
    forall f
      ensures f in TopicFolders(entries) <==> exists e | e in entries :: InTopLevelFolder(e.path, f)
    {
      CandidatesIff(entries, f);
    }
  }

  // ---------------------------------------------------------------------
  // Images

  const ImageExtensions: seq<string> := ["png", "jpg", "jpeg", "gif", "bmp", "tiff", "tif"]

  /** The lower-cased path ends in `.` and one of the image extensions. */
  predicate HasImageExtension(path: string) {
    exists ext | ext in ImageExtensions :: EndsWith(Lower(path), "." + ext)
  }

  /** The filter `parseBCFFile` applies to find a topic's images. */
  predicate IsTopicImagePath(path: string, topicId: string) {
    StartsWith(path, topicId + "/") && !IsDirectoryPath(path) && HasImageExtension(path)
  }

  /** The MIME type chosen from the last `.`-separated part of the
      lower-cased path, `image/png` when nothing else fits. */
  function MimeType(path: string): Mime {
    MimeOfExtension(Last(Split(Lower(path), '.')))
  }

  lemma ExtensionOf(l: string, ext: string)
    requires '.' !in ext && EndsWith(l, "." + ext)
    ensures Last(Split(l, '.')) == ext
  {
    var x := l[..|l| - |ext| - 1];
    assert l == x + ['.'] + ext;
    LastPieceAfterSep(x, ext, '.');
  }

  /** The MIME type `parseBCFFile` gives the last `.`-separated part of a
      lower-cased path: PNG unless it names JPEG, GIF or BMP. */
  function MimeOfExtension(ext: string): Mime {
    if ext == "jpg" || ext == "jpeg" then ImageJpeg
    else if ext == "png" then ImagePng
    else if ext == "gif" then ImageGif
    else if ext == "bmp" then ImageBmp
    else ImagePng
  }

  /** Of the dot-free names, a path ends in `.` followed by at most one. */
  lemma OnlyExtension(l: string, e0: string, e1: string)
    requires '.' !in e0 && EndsWith(l, "." + e0)
    requires '.' !in e1 && EndsWith(l, "." + e1)
    ensures e0 == e1
  {
    ExtensionOf(l, e0);
    ExtensionOf(l, e1);
  }

  /** For an image path the MIME type follows its image extension, in any
      letter case: `jpg` and `jpeg` give JPEG, `gif` GIF, `bmp` BMP, and
      `png`, `tif` and `tiff` PNG. By OnlyExtension the extension is unique. */
  lemma MimeTypeOfImage(path: string, ext: string)
    requires ext in ImageExtensions && EndsWith(Lower(path), "." + ext)
    ensures MimeType(path) == (if ext == "jpg" || ext == "jpeg" then ImageJpeg
                               else if ext == "gif" then ImageGif
                               else if ext == "bmp" then ImageBmp
                               else ImagePng)
  {
    assert '.' !in ext;
    ExtensionOf(Lower(path), ext);
  }

  /** Lower-casing the path changes neither the image test nor the type. */
  lemma MimeTypeIgnoresCase(path: string)
    ensures MimeType(Lower(path)) == MimeType(path)
    ensures HasImageExtension(Lower(path)) == HasImageExtension(path)
  {
    LowerIdempotent(path);
  }

  /** The images of topic `topicId`: every entry passing the image filter
      whose read succeeds, in entry order, with its MIME type. */
  function TopicImages(entries: seq<Entry>, topicId: string): seq<ImageRef> {
    if |entries| == 0 then []
    else
      var e := entries[0];
      (if IsTopicImagePath(e.path, topicId) && e.content.Some? then [ImageRef(e.path, MimeType(e.path))] else [])
      + TopicImages(entries[1..], topicId)
  }

  /** Each entry is judged on its own: the images of two runs of entries are
      the images of each run, so a failed read drops that image only. */
  lemma {:induction false} TopicImagesAppend(a: seq<Entry>, b: seq<Entry>, topicId: string)
    ensures TopicImages(a + b, topicId) == TopicImages(a, topicId) + TopicImages(b, topicId)
  {
    if |a| == 0 {
      assert a + b == b;
    } else {
      assert (a + b)[0] == a[0];
      assert (a + b)[1..] == a[1..] + b;
      TopicImagesAppend(a[1..], b, topicId);
    }
  }

  /** An image is listed exactly when a readable entry under the topic
      folder, at any depth, passes the filter; its type is its MIME type. */
  lemma {:induction false} TopicImagesIff(entries: seq<Entry>, topicId: string, img: ImageRef)
    ensures img in TopicImages(entries, topicId) <==>
              exists e | e in entries :: e.path == img.path && e.content.Some?
                                         && IsTopicImagePath(e.path, topicId) && img.mime == MimeType(e.path)
  {
    if |entries| > 0 {
      TopicImagesIff(entries[1..], topicId, img);
      assert forall e | e in entries :: e == entries[0] || e in entries[1..];
    }
  }

  /** No two entries share a path, as for the keys of a zip's file map. */
  predicate DistinctPaths(entries: seq<Entry>) {
    forall i, j :: 0 <= i < j < |entries| ==> entries[i].path != entries[j].path
  }

  /** With distinct paths, `zip.file(name)` finds the one entry of that name. */
  lemma FileAtUnique(entries: seq<Entry>, i: nat)
    requires DistinctPaths(entries) && i < |entries| && !IsDirectoryPath(entries[i].path)
    ensures FileAt(entries, entries[i].path) == Some(entries[i])
  {
  }

  /** With distinct paths, no image of a topic is listed twice. */
  lemma {:induction false} TopicImagesDistinct(entries: seq<Entry>, topicId: string)
    requires DistinctPaths(entries)
    ensures NoDuplicates(TopicImages(entries, topicId))
  {
    if |entries| > 0 {
      var rest := TopicImages(entries[1..], topicId);
      TopicImagesDistinct(entries[1..], topicId);
      forall img | img in rest
        ensures img.path != entries[0].path
      {
        TopicImagesIff(entries[1..], topicId, img);
        var e :| e in entries[1..] && e.path == img.path;
        var k :| 0 <= k < |entries[1..]| && entries[1..][k] == e;
        assert entries[k + 1] == e;
      }
      var head := if IsTopicImagePath(entries[0].path, topicId) && entries[0].content.Some?
                  then [ImageRef(entries[0].path, MimeType(entries[0].path))] else [];
      assert TopicImages(entries, topicId) == head + rest;
      forall i, j | 0 <= i < j < |head + rest|
        ensures (head + rest)[i] != (head + rest)[j]
      {
        if i < |head| {
          assert (head + rest)[j] in rest;
        }
      }
    }
  }

  // ---------------------------------------------------------------------
  // Topics and assembly

  /** The markup file of folder `f`. */
  function MarkupFile(entries: seq<Entry>, f: string): Option<Entry> {
    FileAt(entries, f + "/" + MarkupName)
  }

  /** Folder `f` has a markup file that cannot be read or decoded. */
  predicate TopicFails(entries: seq<Entry>, f: string) {
    var m := MarkupFile(entries, f);
    m.Some? && (m.value.content.None? || ParseMarkup(m.value.content.value).Failure?)
  }

  /** One folder of the discovery loop: no topic without `markup.bcf`,
      otherwise the decoded markup and the folder's images. */
  function ParseTopic(entries: seq<Entry>, folder: string): (r: Result<Option<TopicData>, ParseError>)
  {
    var topicId := ReplaceFirstWithEmpty(folder, '/');
    match FileAt(entries, topicId + "/" + MarkupName)
    case None => Success(None)
    case Some(e) =>
      match e.content
      case None => Failure(ReadFailed(e.path))
      case Some(doc) =>
        match ParseMarkup(doc)
        case Failure(err) => Failure(MarkupFailed(topicId, err))
        case Success(m) => Success(Some(TopicData(m, TopicImages(entries, topicId), topicId)))
  }

  /** The discovery loop over `folders`, stopping at the first error. */
  function ParseTopics(entries: seq<Entry>, folders: seq<string>): Result<seq<TopicData>, ParseError> {
    if |folders| == 0 then Success([])
    else
      var head :- ParseTopic(entries, folders[0]);
      var rest :- ParseTopics(entries, folders[1..]);
      Success((if head.Some? then [head.value] else []) + rest)
  }

  function TopicIds(ts: seq<TopicData>): (ids: seq<string>)
    ensures |ids| == |ts| && forall i :: 0 <= i < |ts| ==> ids[i] == ts[i].topicId
  {
    if |ts| == 0 then [] else [ts[0].topicId] + TopicIds(ts[1..])
  }

  lemma TopicIdsAppend(a: seq<TopicData>, b: seq<TopicData>)
    ensures TopicIds(a + b) == TopicIds(a) + TopicIds(b)
  {
  }

  /** The loop is all-or-nothing: it fails exactly when some folder has a
      markup file that cannot be read or decoded. */
  lemma {:induction false} ParseTopicsFailsIff(entries: seq<Entry>, folders: seq<string>)
    requires forall f | f in folders :: '/' !in f
    ensures ParseTopics(entries, folders).Failure? <==> exists f | f in folders :: TopicFails(entries, f)
  {
    if |folders| > 0 {
      assert ReplaceFirstWithEmpty(folders[0], '/') == folders[0];
      ParseTopicsFailsIff(entries, folders[1..]);
      assert forall g | g in folders :: g == folders[0] || g in folders[1..];
    }
  }

  /** On success there is one topic per folder with a markup file, named
      after the folder (`replace('/', '')` leaves a slash-free name alone),
      in folder order. */
  lemma {:induction false} ParseTopicsIds(entries: seq<Entry>, folders: seq<string>)
    requires forall f | f in folders :: '/' !in f
    requires ParseTopics(entries, folders).Success?
    ensures TopicIds(ParseTopics(entries, folders).value) == FoldersWithMarkup(entries, folders)
  {
    if |folders| > 0 {
      var f := folders[0];
      assert ReplaceFirstWithEmpty(f, '/') == f;
      ParseTopicsIds(entries, folders[1..]);
      var head := ParseTopic(entries, f).value;
      var rest := ParseTopics(entries, folders[1..]).value;
      TopicIdsAppend(if head.Some? then [head.value] else [], rest);
    }
  }

  /** Every topic of a successful loop carries the decoded markup and the
      images of the folder it is named after. */
  lemma {:induction false} ParseTopicsMarkup(entries: seq<Entry>, folders: seq<string>)
    requires forall f | f in folders :: '/' !in f
    requires ParseTopics(entries, folders).Success?
    ensures forall t | t in ParseTopics(entries, folders).value ::
              && MarkupFile(entries, t.topicId).Some?
              && MarkupFile(entries, t.topicId).value.content.Some?
              && ParseMarkup(MarkupFile(entries, t.topicId).value.content.value) == Success(t.markup)
              && t.images == TopicImages(entries, t.topicId)
  {
    if |folders| > 0 {
      assert ReplaceFirstWithEmpty(folders[0], '/') == folders[0];
      ParseTopicsMarkup(entries, folders[1..]);
    }
  }

  /** The folders of `folders` that have a markup file, in order. */
  function FoldersWithMarkup(entries: seq<Entry>, folders: seq<string>): (r: seq<string>)
    ensures forall f :: f in r <==> f in folders && MarkupFile(entries, f).Some?
  {
    if |folders| == 0 then []
    else
      (if MarkupFile(entries, folders[0]).Some? then [folders[0]] else [])
      + FoldersWithMarkup(entries, folders[1..])
  }

  /** Keeping some elements of a duplicate-free list keeps it duplicate-free. */
  lemma {:induction false} FoldersWithMarkupNoDuplicates(entries: seq<Entry>, folders: seq<string>)
    requires NoDuplicates(folders)
    ensures NoDuplicates(FoldersWithMarkup(entries, folders))
  {
    if |folders| > 0 {
      assert NoDuplicates(folders[1..]);
      FoldersWithMarkupNoDuplicates(entries, folders[1..]);
      assert folders[0] !in folders[1..];
    }
  }

  /** `parseBCFFile` on the archive's entries. */
  function ParseBcf(entries: seq<Entry>): (r: Result<BcfData, ParseError>)
    ensures r.Success? ==>
              && (FileAt(entries, VersionPath).Some? ==>
                    && FileAt(entries, VersionPath).value.content.Some?
                    && r.value.version == ParseVersion(FileAt(entries, VersionPath).value.content.value))
              && (FileAt(entries, VersionPath).None? ==> r.value.version == DefaultVersion)
              && (r.value.project.None? <==> FileAt(entries, ProjectPath).None?)
              && (r.value.extensions.None? <==> FileAt(entries, ExtensionsPath).None?)
    ensures r.Success? && FileAt(entries, ProjectPath).Some? ==>
              && FileAt(entries, ProjectPath).value.content.Some?
              && r.value.project == Some(ParseProject(FileAt(entries, ProjectPath).value.content.value))
    ensures r.Success? && FileAt(entries, ExtensionsPath).Some? ==>
              && FileAt(entries, ExtensionsPath).value.content.Some?
              && r.value.extensions == Some(ParseExtensions(FileAt(entries, ExtensionsPath).value.content.value))
  {
    var version :- ReadOptional(entries, VersionPath, ParseVersion);
    var project :- ReadOptional(entries, ProjectPath, ParseProject);
    var extensions :- ReadOptional(entries, ExtensionsPath, ParseExtensions);
    var topics :- ParseTopics(entries, TopicFolders(entries));
    Success(BcfData(version.GetOr(DefaultVersion), project, extensions, topics))
  }

  /** Reading the archive-level file `name` fails: it exists but its
      content cannot be read. */
  predicate ReadFails(entries: seq<Entry>, name: string) {
    FileAt(entries, name).Some? && FileAt(entries, name).value.content.None?
  }

  /** A folder with a markup file is always discovered: the markup file
      itself lies directly in it. */
  lemma MarkupFolderDiscovered(entries: seq<Entry>, f: string)
    requires |f| > 0 && '/' !in f && MarkupFile(entries, f).Some?
    ensures f in TopicFolders(entries)
  {
    var e := MarkupFile(entries, f).value;
    var path := f + "/" + MarkupName;
    assert e.path == path;
    assert '/' !in MarkupName;
    assert path[..|f|] == f && path[|f|] == '/' && path[|f| + 1..] == MarkupName;
    assert InTopLevelFolder(e.path, f);
    TopicFoldersSpec(entries);
  }

  /** The parse fails exactly when a read of an archive-level file or the
      topic loop fails, and its topics are those of the loop. */
  lemma ParseBcfSteps(entries: seq<Entry>)
    ensures ParseBcf(entries).Failure? <==>
              || ReadFails(entries, VersionPath)
              || ReadFails(entries, ProjectPath)
              || ReadFails(entries, ExtensionsPath)
              || ParseTopics(entries, TopicFolders(entries)).Failure?
  {
    ReadOptionalFails(entries, VersionPath, ParseVersion);
    ReadOptionalFails(entries, ProjectPath, ParseProject);
    ReadOptionalFails(entries, ExtensionsPath, ParseExtensions);
  }

  lemma ReadOptionalFails<T>(entries: seq<Entry>, name: string, decode: Document -> T)
    ensures ReadOptional(entries, name, decode).Failure? <==> ReadFails(entries, name)
  {
  }

  lemma ParseBcfTopicLoop(entries: seq<Entry>)
    requires ParseBcf(entries).Success?
    ensures ParseTopics(entries, TopicFolders(entries)) == Success(ParseBcf(entries).value.topics)
  {
    assert ReadOptional(entries, VersionPath, ParseVersion).Success?;
    assert ReadOptional(entries, ProjectPath, ParseProject).Success?;
    assert ReadOptional(entries, ExtensionsPath, ParseExtensions).Success?;
  }

  /** The topics of a parsed archive: one per non-empty, slash-free folder
      name with a markup file, each once, in order of discovery, carrying
      that folder's decoded markup and images. */
  lemma ParseBcfTopics(entries: seq<Entry>)
    requires ParseBcf(entries).Success?
    ensures var ts := ParseBcf(entries).value.topics;
            && TopicIds(ts) == FoldersWithMarkup(entries, TopicFolders(entries))
            && NoDuplicates(TopicIds(ts))
            && (forall f :: f in TopicIds(ts) <==> |f| > 0 && '/' !in f && MarkupFile(entries, f).Some?)
            && forall t | t in ts ::
                 && MarkupFile(entries, t.topicId).Some?
                 && MarkupFile(entries, t.topicId).value.content.Some?
                 && ParseMarkup(MarkupFile(entries, t.topicId).value.content.value) == Success(t.markup)
                 && t.images == TopicImages(entries, t.topicId)
  {
    ParseBcfTopicLoop(entries);
    TopicLoop(entries, TopicFolders(entries), ParseBcf(entries).value.topics);
  }

  /** `ParseBcfTopics` for the topic loop over the discovered folders. */
  lemma TopicLoop(entries: seq<Entry>, folders: seq<string>, ts: seq<TopicData>)
    requires folders == TopicFolders(entries)
    requires ParseTopics(entries, folders) == Success(ts)
    ensures && TopicIds(ts) == FoldersWithMarkup(entries, folders)
            && NoDuplicates(TopicIds(ts))
            && (forall f :: f in TopicIds(ts) <==> |f| > 0 && '/' !in f && MarkupFile(entries, f).Some?)
            && forall t | t in ts ::
                 && MarkupFile(entries, t.topicId).Some?
                 && MarkupFile(entries, t.topicId).value.content.Some?
                 && ParseMarkup(MarkupFile(entries, t.topicId).value.content.value) == Success(t.markup)
                 && t.images == TopicImages(entries, t.topicId)
  {
    TopicFoldersSpec(entries);
    ParseTopicsIds(entries, folders);
    ParseTopicsMarkup(entries, folders);
    FoldersWithMarkupNoDuplicates(entries, folders);
    forall f | |f| > 0 && '/' !in f && MarkupFile(entries, f).Some?
      ensures f in folders
    {
      MarkupFolderDiscovered(entries, f);
    }
  }

  /** A parse fails exactly when one of the archive-level files cannot be
      read or some folder has a markup file that cannot be read or decoded. */
  lemma ParseBcfFailsIff(entries: seq<Entry>)
    ensures ParseBcf(entries).Failure? <==>
              || ReadFails(entries, VersionPath)
              || ReadFails(entries, ProjectPath)
              || ReadFails(entries, ExtensionsPath)
              || exists f | |f| > 0 && '/' !in f :: TopicFails(entries, f)
  {
    ParseBcfSteps(entries);
    TopicLoopFails(entries);
  }

  lemma TopicLoopFails(entries: seq<Entry>)
    ensures ParseTopics(entries, TopicFolders(entries)).Failure? <==>
              exists f | |f| > 0 && '/' !in f :: TopicFails(entries, f)
  {
    var folders := TopicFolders(entries);
    TopicFoldersSpec(entries);
    ParseTopicsFailsIff(entries, folders);
    if exists f | |f| > 0 && '/' !in f :: TopicFails(entries, f) {
      var f :| |f| > 0 && '/' !in f && TopicFails(entries, f);
      MarkupFolderDiscovered(entries, f);
    }
  }
}
