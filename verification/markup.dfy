/** The per-topic markup decoder: from the document tree of `markup.bcf` to
    a Header and Topic pair, or the error that aborts the decode. */
module MarkupDecoder {
  import opened Wrappers
  import opened Xml
  import opened BcfTypes

  /** The reasons decoding fails, in the order the decoder checks them. */
  datatype MarkupError =
    | ParserError(message: string)
    | NoMarkup
    | NoHeader
    | NoTopic

  /** The text of the first element of a document-order list, if any. */
  function FirstText(els: seq<Node>): Option<string> {
    if |els| == 0 then None else Some(TextOf(els[0]))
  }

  /** The `found || ''` idiom: a missing value reads as the empty string. */
  predicate DefaultsToEmpty(v: string, found: Option<string>) {
    v == found.GetOr("")
  }

  /** The `found || undefined` idiom: a missing or empty value is absent. */
  predicate AbsentWhenEmpty(v: Option<string>, found: Option<string>) {
    && (v.Some? <==> found.Some? && found.value != "")
    && (v.Some? ==> v.value == found.value)
  }

  /** `e.querySelector(tag)?.textContent || ''`. */
  function TextOrEmpty(e: Node, tag: string): (r: string)
    requires e.Element?
    ensures DefaultsToEmpty(r, FirstText(QuerySelectorAll(e, tag)))
  {
    FirstInIsHead(e.children, tag);
    match QuerySelector(e, tag)
    case Some(x) => TextOf(x)
    case None => ""
  }

  /** `e.querySelector(tag)?.textContent || undefined`. */
  function TextOrAbsent(e: Node, tag: string): (r: Option<string>)
    requires e.Element?
    ensures AbsentWhenEmpty(r, FirstText(QuerySelectorAll(e, tag)))
  {
    FirstInIsHead(e.children, tag);
    match QuerySelector(e, tag)
    case Some(x) => if TextOf(x) == "" then None else Some(TextOf(x))
    case None => None
  }

  /** `e.getAttribute(name) || ''`. */
  function AttrOrEmpty(e: Node, name: string): (r: string)
    requires e.Element?
    ensures (forall a | a in e.attrs :: a.name != name) ==> r == ""
    ensures (exists a | a in e.attrs :: a.name == name) ==> FirstAttribute(e.attrs, name, r)
    ensures DefaultsToEmpty(r, GetAttribute(e, name))
  {
    GetAttribute(e, name).GetOr("")
  }

  /** `e.getAttribute(name) || undefined`. */
  function AttrOrAbsent(e: Node, name: string): (r: Option<string>)
    requires e.Element?
    ensures r.Some? ==> r.value != "" && FirstAttribute(e.attrs, name, r.value)
    ensures r.None? ==> (forall a | a in e.attrs :: a.name != name) || FirstAttribute(e.attrs, name, "")
    ensures AbsentWhenEmpty(r, GetAttribute(e, name))
  {
    match GetAttribute(e, name)
    case Some(v) => if v == "" then None else Some(v)
    case None => None
  }

  function DecodeFile(f: Node): FileRef
    requires f.Element?
  {
    FileRef(AttrOrEmpty(f, "IfcProject"), TextOrEmpty(f, "Filename"), TextOrEmpty(f, "Date"))
  }

  /** One record per `File` below the header element, collapsed when there
      is exactly one. */
  function DecodeHeader(h: Node): (r: Header)
    requires h.Element?
    ensures |ToList(r.files)| == |QuerySelectorAll(h, "File")|
    ensures r.files.One? <==> |QuerySelectorAll(h, "File")| == 1
    ensures forall k :: 0 <= k < |ToList(r.files)| ==>
              var f := QuerySelectorAll(h, "File")[k];
              && DefaultsToEmpty(ToList(r.files)[k].ifcProject, GetAttribute(f, "IfcProject"))
              && DefaultsToEmpty(ToList(r.files)[k].filename, FirstText(QuerySelectorAll(f, "Filename")))
              && DefaultsToEmpty(ToList(r.files)[k].date, FirstText(QuerySelectorAll(f, "Date")))
  {
    var els := QuerySelectorAll(h, "File");
    var files := seq(|els|, i requires 0 <= i < |els| => DecodeFile(els[i]));
    ToListCollapse(files);
    Header(Collapse(files))
  }

  /** A comment record from a `Comment` element. The body is the text of the
      first `Comment` below it, so a body element is itself decoded as a
      record when it is reached as a descendant. */
  function DecodeComment(c: Node): (r: Comment)
    requires c.Element?
    ensures DefaultsToEmpty(r.guid, GetAttribute(c, "Guid"))
    ensures DefaultsToEmpty(r.date, FirstText(QuerySelectorAll(c, "Date")))
    ensures DefaultsToEmpty(r.author, FirstText(QuerySelectorAll(c, "Author")))
    ensures DefaultsToEmpty(r.body, FirstText(QuerySelectorAll(c, "Comment")))
    ensures QuerySelectorAll(c, "Comment") == [] ==> r.body == ""
    ensures AbsentWhenEmpty(r.modifiedDate, FirstText(QuerySelectorAll(c, "ModifiedDate")))
    ensures AbsentWhenEmpty(r.modifiedAuthor, FirstText(QuerySelectorAll(c, "ModifiedAuthor")))
  {
    Comment(
      AttrOrEmpty(c, "Guid"),
      TextOrEmpty(c, "Date"),
      TextOrEmpty(c, "Author"),
      TextOrEmpty(c, "Comment"),
      TextOrAbsent(c, "ModifiedDate"),
      TextOrAbsent(c, "ModifiedAuthor"))
  }

  function DecodeViewPoint(v: Node): (r: ViewPoint)
    requires v.Element?
    ensures DefaultsToEmpty(r.guid, GetAttribute(v, "Guid"))
    ensures AbsentWhenEmpty(r.viewpoint, FirstText(QuerySelectorAll(v, "Viewpoint")))
    ensures AbsentWhenEmpty(r.snapshot, FirstText(QuerySelectorAll(v, "Snapshot")))
  {
    ViewPoint(AttrOrEmpty(v, "Guid"), TextOrAbsent(v, "Viewpoint"), TextOrAbsent(v, "Snapshot"))
  }

  /** The first element tagged `tag` below `t`, as the document-order list sees it. */
  function FirstBelow(t: Node, tag: string): (r: Option<Node>)
    requires t.Element?
    ensures r == Head(QuerySelectorAll(t, tag))
    ensures r.Some? ==> r.value.Element? && r.value.tag == tag
  {
    FirstInIsHead(t.children, tag);
    QuerySelector(t, tag)
  }

  /** The `Labels` field: absent without a `Labels` element, otherwise the
      text of every `Label` below the first one, possibly none. */
  function DecodeLabels(t: Node): (r: Option<seq<string>>)
    requires t.Element?
    ensures r.None? <==> QuerySelectorAll(t, "Labels") == []
    ensures r.Some? ==>
              var ls := QuerySelectorAll(QuerySelectorAll(t, "Labels")[0], "Label");
              |r.value| == |ls| && forall k :: 0 <= k < |ls| ==> r.value[k] == TextOf(ls[k])
  {
    match FirstBelow(t, "Labels")
    case None => None
    case Some(l) =>
      var ls := QuerySelectorAll(l, "Label");
      Some(seq(|ls|, i requires 0 <= i < |ls| => TextOf(ls[i])))
  }

  /** The `Comments` field: set only when a `Comments` element exists and
      has a `Comment` below it; one record per such descendant, nested body
      elements included, collapsed when there is exactly one. */
  function DecodeComments(t: Node): (r: Option<OneOrMany<Comment>>)
    requires t.Element?
    ensures r.Some? <==>
              QuerySelectorAll(t, "Comments") != []
              && QuerySelectorAll(QuerySelectorAll(t, "Comments")[0], "Comment") != []
    ensures r.Some? ==>
              var cs := QuerySelectorAll(QuerySelectorAll(t, "Comments")[0], "Comment");
              && (r.value.One? <==> |cs| == 1)
              && |ToList(r.value)| == |cs|
              && forall k :: 0 <= k < |cs| ==> ToList(r.value)[k] == DecodeComment(cs[k])
  {
    match FirstBelow(t, "Comments")
    case None => None
    case Some(c) =>
      var els := QuerySelectorAll(c, "Comment");
      if |els| == 0 then None
      else
        var comments := seq(|els|, i requires 0 <= i < |els| => DecodeComment(els[i]));
        ToListCollapse(comments);
        Some(Collapse(comments))
  }

  /** The `Viewpoints` field, under the same rule with `ViewPoint` elements. */
  function DecodeViewpoints(t: Node): (r: Option<OneOrMany<ViewPoint>>)
    requires t.Element?
    ensures r.Some? <==>
              QuerySelectorAll(t, "Viewpoints") != []
              && QuerySelectorAll(QuerySelectorAll(t, "Viewpoints")[0], "ViewPoint") != []
    ensures r.Some? ==>
              var vs := QuerySelectorAll(QuerySelectorAll(t, "Viewpoints")[0], "ViewPoint");
              && (r.value.One? <==> |vs| == 1)
              && |ToList(r.value)| == |vs|
              && forall k :: 0 <= k < |vs| ==> ToList(r.value)[k] == DecodeViewPoint(vs[k])
  {
    match FirstBelow(t, "Viewpoints")
    case None => None
    case Some(v) =>
      var els := QuerySelectorAll(v, "ViewPoint");
      if |els| == 0 then None
      else
        var vps := seq(|els|, i requires 0 <= i < |els| => DecodeViewPoint(els[i]));
        ToListCollapse(vps);
        Some(Collapse(vps))
  }

  /** The topic record. Every child-element field comes from the first
      matching descendant in document order, wherever it sits below `t`. */
  function DecodeTopic(t: Node): (r: Topic)
    requires t.Element?
    ensures DefaultsToEmpty(r.guid, GetAttribute(t, "Guid"))
    ensures AbsentWhenEmpty(r.topicType, GetAttribute(t, "TopicType"))
    ensures AbsentWhenEmpty(r.topicStatus, GetAttribute(t, "TopicStatus"))
    ensures DefaultsToEmpty(r.title, FirstText(QuerySelectorAll(t, "Title")))
    ensures AbsentWhenEmpty(r.priority, FirstText(QuerySelectorAll(t, "Priority")))
    ensures DefaultsToEmpty(r.creationDate, FirstText(QuerySelectorAll(t, "CreationDate")))
    ensures DefaultsToEmpty(r.creationAuthor, FirstText(QuerySelectorAll(t, "CreationAuthor")))
    ensures AbsentWhenEmpty(r.modifiedDate, FirstText(QuerySelectorAll(t, "ModifiedDate")))
    ensures AbsentWhenEmpty(r.modifiedAuthor, FirstText(QuerySelectorAll(t, "ModifiedAuthor")))
    ensures AbsentWhenEmpty(r.assignedTo, FirstText(QuerySelectorAll(t, "AssignedTo")))
    ensures r.labels == DecodeLabels(t)
    ensures r.comments == DecodeComments(t)
    ensures r.viewpoints == DecodeViewpoints(t)
  {
    Topic(
      AttrOrEmpty(t, "Guid"),
      AttrOrAbsent(t, "TopicType"),
      AttrOrAbsent(t, "TopicStatus"),
      TextOrEmpty(t, "Title"),
      TextOrAbsent(t, "Priority"),
      DecodeLabels(t),
      TextOrEmpty(t, "CreationDate"),
      TextOrEmpty(t, "CreationAuthor"),
      TextOrAbsent(t, "ModifiedDate"),
      TextOrAbsent(t, "ModifiedAuthor"),
      TextOrAbsent(t, "AssignedTo"),
      DecodeComments(t),
      DecodeViewpoints(t))
  }

  /** `parseXMLString`: fails on a `parsererror` element, then on a missing
      `Markup`, `Header` or `Topic`, each searched in the whole document;
      otherwise decodes the first `Header` and the first `Topic`. */
  function ParseMarkup(d: Document): (r: Result<Markup, MarkupError>)
    ensures r.Failure? <==>
              || DocQuerySelectorAll(d, "parsererror") != []
              || DocQuerySelectorAll(d, "Markup") == []
              || DocQuerySelectorAll(d, "Header") == []
              || DocQuerySelectorAll(d, "Topic") == []
    ensures r.Failure? && r.error.ParserError? <==> DocQuerySelectorAll(d, "parsererror") != []
    ensures r == Failure(NoMarkup) <==>
              DocQuerySelectorAll(d, "parsererror") == [] && DocQuerySelectorAll(d, "Markup") == []
    ensures r == Failure(NoHeader) <==>
              && DocQuerySelectorAll(d, "parsererror") == []
              && DocQuerySelectorAll(d, "Markup") != []
              && DocQuerySelectorAll(d, "Header") == []
    ensures r == Failure(NoTopic) <==>
              && DocQuerySelectorAll(d, "parsererror") == []
              && DocQuerySelectorAll(d, "Markup") != []
              && DocQuerySelectorAll(d, "Header") != []
              && DocQuerySelectorAll(d, "Topic") == []
    ensures r.Success? ==>
              && r.value.header == DecodeHeader(DocQuerySelectorAll(d, "Header")[0])
              && r.value.topic == DecodeTopic(DocQuerySelectorAll(d, "Topic")[0])
  {
    FirstInIsHead(d.nodes, "parsererror");
    FirstInIsHead(d.nodes, "Markup");
    FirstInIsHead(d.nodes, "Header");
    FirstInIsHead(d.nodes, "Topic");
    match DocQuerySelector(d, "parsererror")
    case Some(err) => Failure(ParserError(TextOf(err)))
    case None =>
      if DocQuerySelector(d, "Markup").None? then Failure(NoMarkup)
      else
        match DocQuerySelector(d, "Header")
        case None => Failure(NoHeader)
        case Some(h) =>
          match DocQuerySelector(d, "Topic")
          case None => Failure(NoTopic)
          case Some(t) => Success(Markup(DecodeHeader(h), DecodeTopic(t)))
  }
}
