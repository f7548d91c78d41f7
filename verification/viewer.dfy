/** The decisions `BCFViewer` makes when it turns parsed BCF data into a page:
    which lines, rows, comments and image tiles appear and with what text.
    Date formatting, relative-time titles and image URLs are passed in as
    functions; the DOM itself is not modelled. */
module BcfViewer {
  import opened Wrappers
  import opened Strings
  import opened Sequences
  import opened Xml
  import opened BcfTypes
  import opened MarkupDecoder
  import opened BcfArchive

  /** The page header: the version line and, when a project was read, the
      project line. */
  datatype HeaderView = HeaderView(version: string, project: Option<string>)

  /** The rows the topic details table can hold, in their order. */
  datatype Detail = Status | Priority | CreationDate | CreationAuthor
                  | ModifiedDate | ModifiedAuthor | AssignedTo
  {
    function Caption(): string {
      match this
      case Status => "Status"
      case Priority => "Priority"
      case CreationDate => "Creation Date"
      case CreationAuthor => "Creation Author"
      case ModifiedDate => "Modified Date"
      case ModifiedAuthor => "Modified Author"
      case AssignedTo => "Assigned To"
    }

    function Rank(): nat {
      match this
      case Status => 0
      case Priority => 1
      case CreationDate => 2
      case CreationAuthor => 3
      case ModifiedDate => 4
      case ModifiedAuthor => 5
      case AssignedTo => 6
    }

    predicate IsDate() {
      this == CreationDate || this == ModifiedDate
    }
  }

  /** One row of the topic details table. `title` is the relative-time
      tooltip of a date row. */
  datatype DetailRow = DetailRow(detail: Detail, value: string, title: Option<string>)

  datatype Modification = Modification(author: string, date: string, title: string)

  datatype CommentView = CommentView(
    author: string,
    date: string,
    title: Option<string>,
    body: string,
    modification: Option<Modification>)

  /** An image tile: its "Image k:" label, the URL and the alt text. */
  datatype Tile = Tile(caption: string, src: string, alt: string)

  datatype ImagesView = NoImages | Tiles(tiles: seq<Tile>)

  datatype TopicView = TopicView(
    index: nat,
    title: string,
    details: seq<DetailRow>,
    comments: Option<seq<CommentView>>,
    images: ImagesView)

  datatype Page = ErrorPage(message: string) | Rendered(header: HeaderView, topics: seq<TopicView>)

  /** The `value || fallback` idiom on a string. */
  function OrElse(v: string, fallback: string): (r: string)
    ensures v != "" ==> r == v
    ensures v == "" ==> r == fallback
  {
    if v == "" then fallback else v
  }

  /** The `value || fallback` idiom on an optional string. */
  function OptOrElse(v: Option<string>, fallback: string): (r: string)
    ensures v.Some? && v.value != "" ==> r == v.value
    ensures !(v.Some? && v.value != "") ==> r == fallback
  {
    match v
    case Some(s) => OrElse(s, fallback)
    case None => fallback
  }

  /** True for a present, non-empty optional string. */
  predicate Truthy(v: Option<string>) {
    v.Some? && v.value != ""
  }

  function Header(d: BcfData): (h: HeaderView)
    ensures h.version == d.version.versionId
    ensures h.project.Some? <==> d.project.Some?
    ensures d.project.Some? ==> h.project.value == OptOrElse(d.project.value.name, "Unnamed")
  {
    HeaderView(
      d.version.versionId,
      match d.project
      case Some(p) => Some(OptOrElse(p.name, "Unnamed"))
      case None => None)
  }

  /** The four rows always present, each falling back to "Unknown". */
  function FixedRows(t: Topic, format: string -> string, relative: string -> string): (rows: seq<DetailRow>)
    ensures |rows| == 4
  {
    [ DetailRow(Status, OptOrElse(t.topicStatus, "Unknown"), None),
      DetailRow(Priority, OptOrElse(t.priority, "Unknown"), None),
      DetailRow(CreationDate, if t.creationDate != "" then format(t.creationDate) else "Unknown",
                if t.creationDate != "" then Some(relative(t.creationDate)) else None),
      DetailRow(CreationAuthor, OrElse(t.creationAuthor, "Unknown"), None) ]
  }

  /** The rows added only when their value is present and non-empty. */
  function OptionalRows(t: Topic, format: string -> string, relative: string -> string): seq<DetailRow> {
    (if Truthy(t.modifiedDate)
     then [DetailRow(ModifiedDate, format(t.modifiedDate.value), Some(relative(t.modifiedDate.value)))]
     else [])
    + (if Truthy(t.modifiedAuthor) then [DetailRow(ModifiedAuthor, t.modifiedAuthor.value, None)] else [])
    + (if Truthy(t.assignedTo) then [DetailRow(AssignedTo, t.assignedTo.value, None)] else [])
  }

  function DetailRows(t: Topic, format: string -> string, relative: string -> string): seq<DetailRow> {
    FixedRows(t, format, relative) + OptionalRows(t, format, relative)
  }

  /** Whether the row `k` appears for topic `t`. */
  predicate Shown(t: Topic, k: Detail) {
    match k
    case ModifiedDate => Truthy(t.modifiedDate)
    case ModifiedAuthor => Truthy(t.modifiedAuthor)
    case AssignedTo => Truthy(t.assignedTo)
    case _ => true
  }

  /** The value a row shows: the field, formatted for dates, or "Unknown". */
  function ValueOf(t: Topic, k: Detail, format: string -> string): string {
    match k
    case Status => OptOrElse(t.topicStatus, "Unknown")
    case Priority => OptOrElse(t.priority, "Unknown")
    case CreationDate => if t.creationDate != "" then format(t.creationDate) else "Unknown"
    case CreationAuthor => OrElse(t.creationAuthor, "Unknown")
    case ModifiedDate => format(t.modifiedDate.GetOr(""))
    case ModifiedAuthor => t.modifiedAuthor.GetOr("")
    case AssignedTo => t.assignedTo.GetOr("")
  }

  /** The details table holds exactly the rows that are shown. */
  lemma DetailRowsShown(t: Topic, format: string -> string, relative: string -> string, k: Detail)
    ensures var rows := DetailRows(t, format, relative);
            Shown(t, k) <==> exists i | 0 <= i < |rows| :: rows[i].detail == k
  {
    var rows := DetailRows(t, format, relative);
    var md := if Truthy(t.modifiedDate) then 1 else 0;
    var ma := if Truthy(t.modifiedAuthor) then 1 else 0;
    if Shown(t, k) {
      if k.Rank() < 4 {
        assert rows[k.Rank()].detail == k;
      } else if k == ModifiedDate {
        assert rows[4].detail == k;
      } else if k == ModifiedAuthor {
        assert rows[4 + md].detail == k;
      } else {
        assert rows[4 + md + ma].detail == k;
      }
    }
  }

  /** Rows in strictly increasing canonical position, hence each at most once. */
  predicate InOrder(rows: seq<DetailRow>) {
    forall i, j | 0 <= i < j < |rows| :: rows[i].detail.Rank() < rows[j].detail.Rank()
  }

  /** The date a date row is about; other rows have none. */
  function DateOf(t: Topic, k: Detail): string {
    match k
    case CreationDate => t.creationDate
    case ModifiedDate => t.modifiedDate.GetOr("")
    case _ => ""
  }

  /** The tooltip a row carries: the relative time of its date, for a date
      row whose date is present. */
  function TitleOf(t: Topic, k: Detail, relative: string -> string): Option<string> {
    if k.IsDate() && DateOf(t, k) != "" then Some(relative(DateOf(t, k))) else None
  }

  /** Every row shows its value, and a row carries a title exactly when it
      is a date row with a date, that title being the relative time. */
  predicate Faithful(t: Topic, rows: seq<DetailRow>, format: string -> string, relative: string -> string) {
    forall i | 0 <= i < |rows| ::
      rows[i].value == ValueOf(t, rows[i].detail, format)
      && rows[i].title == TitleOf(t, rows[i].detail, relative)
  }

  /** The rows come in the canonical order, so once each, each with its
      value; a date row with a date, and only such a row, carries the
      relative time of that date as its title. */
  lemma DetailRowsOrder(t: Topic, format: string -> string, relative: string -> string)
    ensures InOrder(DetailRows(t, format, relative))
    ensures Faithful(t, DetailRows(t, format, relative), format, relative)
  {
    var fixed := FixedRows(t, format, relative);
    var opt := OptionalRows(t, format, relative);
    FixedRowsOrder(t, format, relative);
    OptionalRowsOrder(t, format, relative);
    OptionalRowsValues(t, format, relative);
    OrderedConcat(fixed, opt);
    assert Faithful(t, fixed + opt, format, relative) by {
      forall i | 0 <= i < |fixed + opt|
        ensures (fixed + opt)[i].value == ValueOf(t, (fixed + opt)[i].detail, format)
        ensures (fixed + opt)[i].title == TitleOf(t, (fixed + opt)[i].detail, relative)
      {
        if i >= 4 {
          assert (fixed + opt)[i] == opt[i - 4];
        }
      }
    }
  }

  lemma FixedRowsOrder(t: Topic, format: string -> string, relative: string -> string)
    ensures forall i | 0 <= i < 4 :: FixedRows(t, format, relative)[i].detail.Rank() == i
    ensures Faithful(t, FixedRows(t, format, relative), format, relative)
  {
  }

  /** Rows before position 4 followed by rows from position 4 on stay in order. */
  lemma OrderedConcat(a: seq<DetailRow>, b: seq<DetailRow>)
    requires |a| == 4 && forall i | 0 <= i < 4 :: a[i].detail.Rank() == i
    requires InOrder(b) && forall i | 0 <= i < |b| :: b[i].detail.Rank() >= 4
    ensures InOrder(a + b)
  {
  }

  lemma OptionalRowsOrder(t: Topic, format: string -> string, relative: string -> string)
    ensures InOrder(OptionalRows(t, format, relative))
    ensures forall i | 0 <= i < |OptionalRows(t, format, relative)| ::
              OptionalRows(t, format, relative)[i].detail.Rank() >= 4
  {
  }

  lemma OptionalRowsValues(t: Topic, format: string -> string, relative: string -> string)
    ensures Faithful(t, OptionalRows(t, format, relative), format, relative)
  {
  }

  /** `comment && comment.Comment && comment.Comment.trim() !== ''`. */
  predicate Displayable(c: Comment) {
    c.body != "" && Trim(c.body) != ""
  }

  /** The comments kept for display, in their order. */
  function DisplayedComments(cs: seq<Comment>): (r: seq<Comment>)
    ensures |r| <= |cs|
    ensures forall c | c in r :: c in cs
  {
    if cs == [] then []
    else (if Displayable(cs[0]) then [cs[0]] else []) + DisplayedComments(cs[1..])
  }

  /** The filter keeps order and multiplicity: filtering a concatenation
      concatenates the filtered parts. */
  lemma {:induction false} DisplayedCommentsAppend(a: seq<Comment>, b: seq<Comment>)
    ensures DisplayedComments(a + b) == DisplayedComments(a) + DisplayedComments(b)
  {
    if a == [] {
      assert a + b == b;
    } else {
      var keep := if Displayable(a[0]) then [a[0]] else [];
      assert (a + b)[0] == a[0];
      assert (a + b)[1..] == a[1..] + b;
      assert DisplayedComments(a + b) == keep + DisplayedComments(a[1..] + b);
      assert DisplayedComments(a) == keep + DisplayedComments(a[1..]);
      DisplayedCommentsAppend(a[1..], b);
    }
  }

  /** A comment is displayed exactly when its body holds something other
      than whitespace. */
  lemma {:induction false} DisplayedCommentsIff(cs: seq<Comment>, c: Comment)
    ensures c in DisplayedComments(cs) <==> c in cs && !AllWhitespace(c.body)
  {
    TrimEmptyIff(c.body);
    if cs != [] {
      DisplayedCommentsIff(cs[1..], c);
      assert cs == [cs[0]] + cs[1..];
      TrimEmptyIff(cs[0].body);
    }
  }

  function ViewComment(c: Comment, format: string -> string, relative: string -> string): (v: CommentView)
    ensures v.body == c.body
    ensures v.author == OrElse(c.author, "Unknown Author")
    ensures v.date == (if c.date != "" then format(c.date) else "Unknown Date")
    ensures v.title.Some? <==> c.date != ""
    ensures v.title.Some? ==> v.title.value == relative(c.date)
    ensures v.modification.Some? <==> Truthy(c.modifiedDate) && Truthy(c.modifiedAuthor)
    ensures v.modification.Some? ==>
              && v.modification.value.author == c.modifiedAuthor.value
              && v.modification.value.date == format(c.modifiedDate.value)
              && v.modification.value.title == relative(c.modifiedDate.value)
  {
    CommentView(
      OrElse(c.author, "Unknown Author"),
      if c.date != "" then format(c.date) else "Unknown Date",
      if c.date != "" then Some(relative(c.date)) else None,
      c.body,
      if Truthy(c.modifiedDate) && Truthy(c.modifiedAuthor)
      then Some(Modification(c.modifiedAuthor.value, format(c.modifiedDate.value), relative(c.modifiedDate.value)))
      else None)
  }

  /** The comments section: present whenever the topic has a `Comments`
      value, listing the displayable comments in order. */
  function CommentsSection(t: Topic, format: string -> string, relative: string -> string): (r: Option<seq<CommentView>>)
    ensures r.Some? <==> t.comments.Some?
    ensures r.Some? ==>
              var shown := DisplayedComments(ToList(t.comments.value));
              && |r.value| == |shown|
              && forall i | 0 <= i < |shown| :: r.value[i] == ViewComment(shown[i], format, relative)
  {
    match t.comments
    case None => None
    case Some(cs) =>
      var shown := DisplayedComments(ToList(cs));
      Some(seq(|shown|, i requires 0 <= i < |shown| => ViewComment(shown[i], format, relative)))
  }

  /** The label of the `i`-th image tile, counted from 1. */
  function TileLabel(i: nat): string {
    "Image " + NatToString(i + 1) + ":"
  }

  function ImagesSection(images: seq<ImageRef>, url: ImageRef -> string): (r: ImagesView)
    ensures r.NoImages? <==> images == []
    ensures r.Tiles? ==> |r.tiles| == |images|
    ensures r.Tiles? ==> forall i | 0 <= i < |images| ::
              r.tiles[i].src == url(images[i]) && r.tiles[i].caption == TileLabel(i)
  {
    if images == [] then NoImages
    else Tiles(seq(|images|, i requires 0 <= i < |images| =>
                   Tile(TileLabel(i), url(images[i]), "BCF Image " + NatToString(i + 1))))
  }

  /** No two image tiles share a label. */
  lemma TileLabelsDistinct(i: nat, j: nat)
    requires TileLabel(i) == TileLabel(j)
    ensures i == j
  {
    var a := NatToString(i + 1);
    var b := NatToString(j + 1);
    assert ("Image " + a + ":")[6..|"Image " + a + ":"| - 1] == a;
    assert ("Image " + b + ":")[6..|"Image " + b + ":"| - 1] == b;
    NatToStringInjective(i + 1, j + 1);
  }

  function RenderTopic(td: TopicData, index: nat, format: string -> string,
                       relative: string -> string, url: ImageRef -> string): (v: TopicView)
    ensures v.index == index
    ensures v.title == OrElse(td.markup.topic.title, "Untitled")
    ensures v.details == DetailRows(td.markup.topic, format, relative)
    ensures v.comments == CommentsSection(td.markup.topic, format, relative)
    ensures v.images == ImagesSection(td.images, url)
  {
    var t := td.markup.topic;
    TopicView(index, OrElse(t.title, "Untitled"), DetailRows(t, format, relative),
              CommentsSection(t, format, relative), ImagesSection(td.images, url))
  }

  function Render(d: BcfData, format: string -> string, relative: string -> string,
                  url: ImageRef -> string): (p: Page)
    ensures p.Rendered? && p.header == Header(d)
    ensures |p.topics| == |d.topics|
    ensures forall i | 0 <= i < |d.topics| :: p.topics[i] == RenderTopic(d.topics[i], i, format, relative, url)
  {
    Rendered(Header(d), seq(|d.topics|, i requires 0 <= i < |d.topics| =>
                            RenderTopic(d.topics[i], i, format, relative, url)))
  }

  const LoadFailed := "Failed to load BCF file"

  /** `loadBCFFile`: `None` stands for an archive that could not be read. */
  function Load(archive: Option<seq<Entry>>, format: string -> string, relative: string -> string,
                url: ImageRef -> string): (p: Page)
    ensures p.ErrorPage? <==> archive.None? || ParseBcf(archive.value).Failure?
    ensures p.ErrorPage? ==> p.message == LoadFailed
    ensures p.Rendered? ==> archive.Some? && ParseBcf(archive.value).Success?
    ensures p.Rendered? ==> p == Render(ParseBcf(archive.value).value, format, relative, url)
  {
    match archive
    case None => ErrorPage(LoadFailed)
    case Some(entries) =>
      match ParseBcf(entries)
      case Failure(_) => ErrorPage(LoadFailed)
      case Success(d) => Render(d, format, relative, url)
  }

  /** The decoder and the display on a `Comments` element whose `Comment`
      descendants are a comment and, below it, the element holding its
      text: two records come out, the second with an empty body, and the
      display keeps only the first. */
  lemma PhantomDropped(topic: Node, outer: Node, inner: Node)
    requires topic.Element? && outer.Element? && inner.Element?
    requires QuerySelectorAll(topic, "Comments") != []
    requires QuerySelectorAll(QuerySelectorAll(topic, "Comments")[0], "Comment") == [outer, inner]
    requires QuerySelectorAll(outer, "Comment") == [inner]
    requires QuerySelectorAll(inner, "Comment") == []
    requires !AllWhitespace(TextOf(inner))
    ensures DecodeComments(topic) == Some(Many([DecodeComment(outer), DecodeComment(inner)]))
    ensures DecodeComment(outer).body == TextOf(inner)
    ensures DecodeComment(inner).body == ""
    ensures DisplayedComments([DecodeComment(outer), DecodeComment(inner)]) == [DecodeComment(outer)]
  {
    DecodeTwoComments(topic, outer, inner);
    BodyFromNested(outer, inner);
    DropEmptyBody(DecodeComment(outer), DecodeComment(inner));
  }

  /** Two `Comment` elements below `Comments` decode to an array of two. */
  lemma DecodeTwoComments(topic: Node, a: Node, b: Node)
    requires topic.Element? && a.Element? && b.Element?
    requires QuerySelectorAll(topic, "Comments") != []
    requires QuerySelectorAll(QuerySelectorAll(topic, "Comments")[0], "Comment") == [a, b]
    ensures DecodeComments(topic) == Some(Many([DecodeComment(a), DecodeComment(b)]))
  {
    var cs := QuerySelectorAll(QuerySelectorAll(topic, "Comments")[0], "Comment");
    assert cs[0] == a && cs[1] == b;
    TwoOfList(DecodeComments(topic).value, DecodeComment(a), DecodeComment(b));
  }

  lemma TwoOfList<T>(o: OneOrMany<T>, x: T, y: T)
    requires !o.One? && |ToList(o)| == 2 && ToList(o)[0] == x && ToList(o)[1] == y
    ensures o == Many([x, y])
  {
  }

  /** A comment whose only `Comment` descendant is `inner` takes its body
      from `inner`. */
  lemma BodyFromNested(outer: Node, inner: Node)
    requires outer.Element? && inner.Element?
    requires QuerySelectorAll(outer, "Comment") == [inner]
    ensures DecodeComment(outer).body == TextOf(inner)
  {
  }

  /** Of two comments, the second with an empty body, only the first is kept
      when its body is not all whitespace. */
  lemma DropEmptyBody(a: Comment, b: Comment)
    requires !AllWhitespace(a.body) && b.body == ""
    ensures DisplayedComments([a, b]) == [a]
  {
    TrimEmptyIff(a.body);
    var r := [a, b];
    assert r[1..] == [b];
    assert r[1..][1..] == [];
  }

  /** The `tag` elements in `[n]` are those of `n`. */
  lemma SingleElements(n: Node, tag: string)
    ensures ElementsIn([n], tag) == ElementsOf(n, tag)
  {
    assert [n][1..] == [];
  }

  /** An element holding only text matches `tag` itself or not at all. */
  lemma LeafElements(t: string, attrs: seq<Attribute>, text: string, tag: string)
    ensures ElementsOf(Element(t, attrs, [Text(text)]), tag)
            == if t == tag then [Element(t, attrs, [Text(text)])] else []
  {
    SingleElements(Text(text), tag);
  }

  lemma LeafText(t: string, attrs: seq<Attribute>, text: string)
    ensures TextOf(Element(t, attrs, [Text(text)])) == text
  {
    var ns := [Text(text)];
    assert ns[1..] == [];
    assert TextIn(ns) == TextOf(ns[0]) + TextIn(ns[1..]);
    assert TextIn(ns) == text + "";
  }

  /** The `tag` elements below a comment with date, author and body
      children, none of the first two tagged `tag`. */
  lemma CommentShape(c: string, guid: string, dateEl: Node, authorEl: Node, inner: Node, tag: string)
    requires ElementsOf(dateEl, tag) == [] && ElementsOf(authorEl, tag) == []
    ensures ElementsIn([dateEl, authorEl, inner], tag) == ElementsOf(inner, tag)
  {
    ElementsInAppend([dateEl, authorEl], [inner], tag);
    ElementsInAppend([dateEl], [authorEl], tag);
    SingleElements(dateEl, tag);
    SingleElements(authorEl, tag);
    SingleElements(inner, tag);
    assert [dateEl, authorEl, inner] == [dateEl, authorEl] + [inner];
    assert [dateEl, authorEl] == [dateEl] + [authorEl];
  }

  /** A BCF 3.0 comment holds its text in a nested `Comment` element:
      `<Comments><Comment Guid=..><Date/><Author/><Comment>text</Comment></Comment></Comments>`.
      The decoder returns a second record for the nested element, and the
      display shows the comment once. */
  lemma NestedCommentShownOnce(guid: string, date: string, author: string, text: string)
    requires !AllWhitespace(text)
    ensures var inner := Element("Comment", [], [Text(text)]);
            var outer := Element("Comment", [Attribute("Guid", guid)],
                                 [Element("Date", [], [Text(date)]), Element("Author", [], [Text(author)]), inner]);
            var topic := Element("Topic", [], [Element("Comments", [], [outer])]);
            && DecodeComments(topic) == Some(Many([DecodeComment(outer), DecodeComment(inner)]))
            && DecodeComment(outer).body == text
            && DecodeComment(inner).body == ""
            && DisplayedComments([DecodeComment(outer), DecodeComment(inner)]) == [DecodeComment(outer)]
  {
    var inner := Element("Comment", [], [Text(text)]);
    var dateEl := Element("Date", [], [Text(date)]);
    var authorEl := Element("Author", [], [Text(author)]);
    var outer := Element("Comment", [Attribute("Guid", guid)], [dateEl, authorEl, inner]);
    var comments := Element("Comments", [], [outer]);
    var topic := Element("Topic", [], [comments]);
    assert "Date" != "Comment" && "Author" != "Comment" by {
      assert "Date"[0] != "Comment"[0] && "Author"[0] != "Comment"[0];
    }
    assert "Date" != "Comments" && "Author" != "Comments" && "Comment" != "Comments" by {
      assert "Date"[0] != "Comments"[0] && "Author"[0] != "Comments"[0];
      assert |"Comment"| != |"Comments"|;
    }
    LeafElements("Comment", [], text, "Comment");
    LeafElements("Date", [], date, "Comment");
    LeafElements("Author", [], author, "Comment");
    LeafElements("Comment", [], text, "Comments");
    LeafElements("Date", [], date, "Comments");
    LeafElements("Author", [], author, "Comments");
    LeafText("Comment", [], text);
    CommentShape("Comment", guid, dateEl, authorEl, inner, "Comment");
    CommentShape("Comment", guid, dateEl, authorEl, inner, "Comments");
    SingleElements(outer, "Comment");
    SingleElements(outer, "Comments");
    SingleElements(comments, "Comments");
    SingleElements(Text(text), "Comment");
    PhantomDropped(topic, outer, inner);
  }
}
