/** The archive-level decoders of `bcf.version`, `project.bcfp` and
    `extensions.xml`, and the two string validators that sit beside them. */
module BcfMetadata {
  import opened Wrappers
  import opened Strings
  import opened Xml
  import opened BcfTypes
  import MarkupDecoder

  /** `VersionId` of the first `Version` element, `''` when either is missing
      or the attribute is empty. */
  function ParseVersion(d: Document): (r: Version)
    ensures var vs := DocQuerySelectorAll(d, "Version");
            r.versionId == (if vs == [] then "" else GetAttribute(vs[0], "VersionId").GetOr(""))
  {
    FirstInIsHead(d.nodes, "Version");
    match DocQuerySelector(d, "Version")
    case None => Version("")
    case Some(v) => Version(MarkupDecoder.AttrOrEmpty(v, "VersionId"))
  }

  /** The project record from the first `Project` below a `ProjectInfo`. */
  function ParseProject(d: Document): (r: Project)
    ensures var ps := ElementsWithin(d.nodes, "ProjectInfo", "Project", false);
            && (ps == [] ==> r == Project("", None))
            && (ps != [] ==>
                  && MarkupDecoder.DefaultsToEmpty(r.projectId, GetAttribute(ps[0], "ProjectId"))
                  && MarkupDecoder.AbsentWhenEmpty(
                       r.name, MarkupDecoder.FirstText(QuerySelectorAll(ps[0], "Name"))))
    ensures var ps := ElementsWithin(d.nodes, "ProjectInfo", "Project", false);
            && (ps == [] <==>
                  forall o | o in DocQuerySelectorAll(d, "ProjectInfo") :: QuerySelectorAll(o, "Project") == [])
            && (ps != [] ==>
                  exists o | o in DocQuerySelectorAll(d, "ProjectInfo") :: ps[0] in QuerySelectorAll(o, "Project"))
  {
    ProjectSelection(d);
    match DocQuerySelectorWithin(d, "ProjectInfo", "Project")
    case None => Project("", None)
    case Some(p) =>
      Project(MarkupDecoder.AttrOrEmpty(p, "ProjectId"), MarkupDecoder.TextOrAbsent(p, "Name"))
  }

  /** The element the project is read from lies below a `ProjectInfo`, and
      there is one whenever some `ProjectInfo` has a `Project` below it. */
  lemma ProjectSelection(d: Document)
    ensures var ps := ElementsWithin(d.nodes, "ProjectInfo", "Project", false);
            && (ps == [] <==>
                  forall o | o in DocQuerySelectorAll(d, "ProjectInfo") :: QuerySelectorAll(o, "Project") == [])
            && (ps != [] ==>
                  exists o | o in DocQuerySelectorAll(d, "ProjectInfo") :: ps[0] in QuerySelectorAll(o, "Project"))
  {
    var ps := ElementsWithin(d.nodes, "ProjectInfo", "Project", false);
    if ps == [] {
      forall o | o in DocQuerySelectorAll(d, "ProjectInfo")
        ensures QuerySelectorAll(o, "Project") == []
      {
        if QuerySelectorAll(o, "Project") != [] {
          ElementsWithinIff(d.nodes, "ProjectInfo", "Project", QuerySelectorAll(o, "Project")[0]);
        }
      }
    } else {
      ElementsWithinIff(d.nodes, "ProjectInfo", "Project", ps[0]);
      var o :| o in ElementsIn(d.nodes, "ProjectInfo") && ps[0] in ElementsIn(o.children, "Project");
      assert o in DocQuerySelectorAll(d, "ProjectInfo") && QuerySelectorAll(o, "Project") != [];
    }
  }

  /** The text of every element tagged `tag` in the document, in document
      order, duplicates kept. */
  function AllTexts(d: Document, tag: string): (r: seq<string>)
    ensures TextsOf(r, d, tag)
  {
    var els := DocQuerySelectorAll(d, tag);
    seq(|els|, i requires 0 <= i < |els| => TextOf(els[i]))
  }

  /** `texts` holds the text of every element tagged `tag` in `d`, one per
      element, in document order. */
  predicate TextsOf(texts: seq<string>, d: Document, tag: string) {
    && |texts| == |DocQuerySelectorAll(d, tag)|
    && forall k :: 0 <= k < |texts| ==> texts[k] == TextOf(DocQuerySelectorAll(d, tag)[k])
  }

  /** Each extension list holds the text of every element of its tag. */
  function ParseExtensions(d: Document): (r: Extensions)
    ensures TextsOf(r.topicType, d, "TopicType")
    ensures TextsOf(r.topicStatus, d, "TopicStatus")
    ensures TextsOf(r.priority, d, "Priority")
    ensures TextsOf(r.topicLabel, d, "TopicLabel")
    ensures TextsOf(r.stage, d, "Stage")
    ensures TextsOf(r.userIdType, d, "UserIdType")
  {
    Extensions(
      AllTexts(d, "TopicType"),
      AllTexts(d, "TopicStatus"),
      AllTexts(d, "Priority"),
      AllTexts(d, "TopicLabel"),
      AllTexts(d, "Stage"),
      AllTexts(d, "UserIdType"))
  }

  /** Each extension list follows document order: the lists of a document
      whose top-level nodes are `a` then `b` are those of `a` followed by
      those of `b`, duplicates kept. */
  lemma ExtensionsInDocumentOrder(a: seq<Node>, b: seq<Node>)
    ensures var e := ParseExtensions(Document(a + b));
            var ea := ParseExtensions(Document(a));
            var eb := ParseExtensions(Document(b));
            && e.topicType == ea.topicType + eb.topicType
            && e.topicStatus == ea.topicStatus + eb.topicStatus
            && e.priority == ea.priority + eb.priority
            && e.topicLabel == ea.topicLabel + eb.topicLabel
            && e.stage == ea.stage + eb.stage
            && e.userIdType == ea.userIdType + eb.userIdType
  {
    AllTextsAppend(a, b, "TopicType");
    AllTextsAppend(a, b, "TopicStatus");
    AllTextsAppend(a, b, "Priority");
    AllTextsAppend(a, b, "TopicLabel");
    AllTextsAppend(a, b, "Stage");
    AllTextsAppend(a, b, "UserIdType");
  }

  lemma AllTextsAppend(a: seq<Node>, b: seq<Node>, tag: string)
    ensures AllTexts(Document(a + b), tag) == AllTexts(Document(a), tag) + AllTexts(Document(b), tag)
  {
    ElementsInAppend(a, b, tag);
  }

  // ---------------------------------------------------------------------
  // checkBCFVersion: /<VersionId>(\d+\.\d+)<\/VersionId>/ and parseFloat >= 3.0

  const OpenTag: string := "<VersionId>"
  const CloseTag: string := "</VersionId>"

  /** The length of the run of decimal digits that `t` starts with. */
  function DigitPrefix(t: string): (n: nat)
    ensures n <= |t|
    ensures AllDigits(t[..n])
    ensures n < |t| ==> !IsDigit(t[n])
  {
    if |t| > 0 && IsDigit(t[0]) then 1 + DigitPrefix(t[1..]) else 0
  }

  lemma {:induction false} DigitPrefixOf(x: string, c: char, z: string)
    requires AllDigits(x) && !IsDigit(c)
    ensures DigitPrefix(x + [c] + z) == |x|
  {
    if |x| > 0 {
      assert (x + [c] + z)[1..] == x[1..] + [c] + z;
      DigitPrefixOf(x[1..], c, z);
    }
  }

  /** `t` starts with `open`, a non-empty digit run `whole`, a dot, a
      non-empty digit run `frac` and `close`. */
  predicate IsMatchPrefix(t: string, open: string, close: string, whole: string, frac: string) {
    && |whole| > 0 && AllDigits(whole)
    && |frac| > 0 && AllDigits(frac)
    && StartsWith(t, open + whole + "." + frac + close)
  }

  /** The regular expression matches at position `i` of `s`, capturing
      `whole` and `frac` around the dot. */
  predicate IsMatchAt(s: string, i: int, whole: string, frac: string) {
    0 <= i <= |s| && IsMatchPrefix(s[i..], OpenTag, CloseTag, whole, frac)
  }

  /** No match starts before position `k`. */
  ghost predicate NoMatchBefore(s: string, k: int) {
    forall j, whole, frac :: 0 <= j < k ==> !IsMatchAt(s, j, whole, frac)
  }

  /** Whether the expression `open(\d+\.\d+)close` matches at the start of
      `t`, and the two digit runs. Both runs are taken greedily. */
  function MatchPrefix(t: string, open: string, close: string): Option<(string, string)> {
    if !StartsWith(t, open) then None else MatchNumber(t[|open|..], close)
  }

  /** `(\d+\.\d+)close` at the start of `u`. */
  function MatchNumber(u: string, close: string): Option<(string, string)> {
    var n1 := DigitPrefix(u);
    if n1 == 0 || n1 >= |u| || u[n1] != '.' then None
    else
      match MatchFraction(u[n1 + 1..], close)
      case None => None
      case Some(f) => Some((u[..n1], f))
  }

  /** `\d+close` at the start of `v`: the digits. */
  function MatchFraction(v: string, close: string): Option<string> {
    var n2 := DigitPrefix(v);
    if n2 == 0 || !StartsWith(v[n2..], close) then None else Some(v[..n2])
  }

  function MatchAt(s: string, i: nat): Option<(string, string)>
    requires i <= |s|
  {
    MatchPrefix(s[i..], OpenTag, CloseTag)
  }

  /** Prefixes chain: `p` then `q` right after it make the prefix `p + q`. */
  lemma PrefixChain(t: string, p: string, q: string)
    requires StartsWith(t, p) && StartsWith(t[|p|..], q)
    ensures StartsWith(t, p + q)
  {
    assert p + q == t[..|p| + |q|];
  }

  /** A prefix made of two parts splits into its parts. */
  lemma PrefixUnchain(t: string, p: string, q: string)
    requires StartsWith(t, p + q)
    ensures StartsWith(t, p) && StartsWith(t[|p|..], q)
  {
    assert (p + q)[..|p|] == p;
    assert (p + q)[|p|..] == q;
  }

  lemma DigitPrefixBefore(u: string, x: string, c: char)
    requires StartsWith(u, x + [c]) && AllDigits(x) && !IsDigit(c)
    ensures DigitPrefix(u) == |x|
  {
    DigitPrefixOf(x, c, u[|x| + 1..]);
    assert u == x + [c] + u[|x| + 1..];
  }

  lemma MatchFractionSound(v: string, close: string)
    requires MatchFraction(v, close).Some?
    ensures var f := MatchFraction(v, close).value;
            |f| > 0 && AllDigits(f) && StartsWith(v, f + close)
  {
    var n2 := DigitPrefix(v);
    assert v[..n2][..n2] == v[..n2];
    PrefixChain(v, v[..n2], close);
  }

  lemma MatchNumberSound(u: string, close: string)
    requires MatchNumber(u, close).Some?
    ensures var (w, f) := MatchNumber(u, close).value;
            |w| > 0 && AllDigits(w) && |f| > 0 && AllDigits(f) && StartsWith(u, w + "." + f + close)
  {
    var n1 := DigitPrefix(u);
    var w := u[..n1];
    MatchFractionSound(u[n1 + 1..], close);
    var f := MatchFraction(u[n1 + 1..], close).value;
    assert StartsWith(u, w);
    assert u[n1..][..1] == ".";
    PrefixChain(u, w, ".");
    PrefixChain(u, w + ".", f + close);
    assert w + "." + (f + close) == w + "." + f + close;
  }

  /** What the greedy search captures is a match. */
  lemma MatchPrefixSound(t: string, open: string, close: string)
    requires MatchPrefix(t, open, close).Some?
    ensures IsMatchPrefix(t, open, close, MatchPrefix(t, open, close).value.0, MatchPrefix(t, open, close).value.1)
  {
    MatchNumberSound(t[|open|..], close);
    var (w, f) := MatchPrefix(t, open, close).value;
    PrefixChain(t, open, w + "." + f + close);
    assert open + (w + "." + f + close) == open + w + "." + f + close;
  }

  lemma MatchFractionComplete(v: string, close: string, frac: string)
    requires |close| > 0 && !IsDigit(close[0])
    requires |frac| > 0 && AllDigits(frac) && StartsWith(v, frac + close)
    ensures MatchFraction(v, close) == Some(frac)
  {
    PrefixUnchain(v, frac, close);
    assert StartsWith(v[|frac|..], [close[0]]);
    PrefixChain(v, frac, [close[0]]);
    DigitPrefixBefore(v, frac, close[0]);
    assert v[..|frac|] == frac;
  }

  lemma MatchNumberComplete(u: string, close: string, whole: string, frac: string)
    requires |close| > 0 && !IsDigit(close[0])
    requires |whole| > 0 && AllDigits(whole) && |frac| > 0 && AllDigits(frac)
    requires StartsWith(u, whole + "." + (frac + close))
    ensures MatchNumber(u, close) == Some((whole, frac))
  {
    PrefixUnchain(u, whole + ".", frac + close);
    PrefixUnchain(u, whole, ".");
    PrefixChain(u, whole, ".");
    DigitPrefixBefore(u, whole, '.');
    assert u[|whole|..][..1] == ".";
    assert u[|whole|] == '.';
    assert u[..|whole|] == whole;
    MatchFractionComplete(u[|whole| + 1..], close, frac);
  }

  /** Since neither `.` nor the first character of `close` is a digit, a
      match is the one the greedy search finds. */
  lemma MatchPrefixComplete(t: string, open: string, close: string, whole: string, frac: string)
    requires |close| > 0 && !IsDigit(close[0])
    requires IsMatchPrefix(t, open, close, whole, frac)
    ensures MatchPrefix(t, open, close) == Some((whole, frac))
  {
    assert open + whole + "." + frac + close == open + (whole + "." + (frac + close));
    PrefixUnchain(t, open, whole + "." + (frac + close));
    MatchNumberComplete(t[|open|..], close, whole, frac);
  }

  lemma MatchAtSound(s: string, i: nat)
    requires i <= |s| && MatchAt(s, i).Some?
    ensures IsMatchAt(s, i, MatchAt(s, i).value.0, MatchAt(s, i).value.1)
  {
    MatchPrefixSound(s[i..], OpenTag, CloseTag);
  }

  lemma MatchAtComplete(s: string, i: int, whole: string, frac: string)
    requires IsMatchAt(s, i, whole, frac)
    ensures MatchAt(s, i) == Some((whole, frac))
  {
    MatchPrefixComplete(s[i..], OpenTag, CloseTag, whole, frac);
  }

  /** The leftmost match at or after `i`, with its position. */
  function FindMatch(s: string, i: nat): (r: Option<(nat, string, string)>)
    requires i <= |s|
    ensures r.Some? ==> i <= r.value.0 <= |s| && MatchAt(s, r.value.0) == Some((r.value.1, r.value.2))
    ensures r.Some? ==> forall j :: i <= j < r.value.0 ==> MatchAt(s, j).None?
    ensures r.None? ==> forall j :: i <= j <= |s| ==> MatchAt(s, j).None?
    decreases |s| - i
  {
    var m := MatchAt(s, i);
    if m.Some? then Some((i, m.value.0, m.value.1))
    else if i == |s| then None
    else FindMatch(s, i + 1)
  }

  /** The decimal `whole.frac` is at least 3.0, compared exactly. */
  predicate DecimalAtLeastThree(whole: string, frac: string)
    requires AllDigits(whole) && AllDigits(frac)
  {
    DigitsValue(whole) * Pow10(|frac|) + DigitsValue(frac) >= 3 * Pow10(|frac|)
  }

  /** A decimal is at least 3.0 exactly when its integer part is. */
  lemma DecimalAtLeastThreeIff(whole: string, frac: string)
    requires AllDigits(whole) && AllDigits(frac)
    ensures DecimalAtLeastThree(whole, frac) <==> DigitsValue(whole) >= 3
  {
    ScaledAtLeastThree(DigitsValue(whole), Pow10(|frac|), DigitsValue(frac));
  }

  /** `w + f / p` with `0 <= f < p` reaches 3 exactly when `w` does. */
  lemma ScaledAtLeastThree(w: nat, p: nat, f: nat)
    requires 0 <= f < p
    ensures w * p + f >= 3 * p <==> w >= 3
  {
    if w >= 3 {
      assert w * p == 3 * p + (w - 3) * p;
    } else {
      assert w * p <= 2 * p by {
        assert w * p + (2 - w) * p == 2 * p;
      }
    }
  }

  /** `checkBCFVersion`: false without a match; otherwise whether the value
      captured by the leftmost match is at least 3.0. */
  function CheckBcfVersion(s: string): (r: bool)
    ensures r <==> exists k, w, f :: IsMatchAt(s, k, w, f) && NoMatchBefore(s, k) && DigitsValue(w) >= 3
  {
    match FindMatch(s, 0)
    case None =>
      NoMatchAnywhere(s);
      false
    case Some((k, w, f)) =>
      LeftmostMatchUnique(s, k, w, f);
      DecimalAtLeastThreeIff(w, f);
      DecimalAtLeastThree(w, f)
  }

  lemma NoMatchAnywhere(s: string)
    requires FindMatch(s, 0).None?
    ensures forall k, w, f :: !IsMatchAt(s, k, w, f)
  {
    forall k, w, f | IsMatchAt(s, k, w, f)
      ensures false
    {
      MatchAtComplete(s, k, w, f);
    }
  }

  /** The leftmost match the search finds is the only leftmost match. */
  lemma LeftmostMatchUnique(s: string, k: nat, w: string, f: string)
    requires FindMatch(s, 0) == Some((k, w, f))
    ensures IsMatchAt(s, k, w, f) && NoMatchBefore(s, k)
    ensures forall k', w', f' :: IsMatchAt(s, k', w', f') && NoMatchBefore(s, k') ==>
              k' == k && w' == w && f' == f
  {
    MatchAtSound(s, k);
    forall j, w', f' | 0 <= j < k && IsMatchAt(s, j, w', f')
      ensures false
    {
      MatchAtComplete(s, j, w', f');
    }
    forall k', w', f' | IsMatchAt(s, k', w', f') && NoMatchBefore(s, k')
      ensures k' == k && w' == w && f' == f
    {
      MatchAtComplete(s, k', w', f');
    }
  }

  /** A BCF 3.0 version document passes the check. */
  lemma CheckAcceptsThree()
    ensures CheckBcfVersion("<VersionId>3.0</VersionId>")
  {
    var s := "<VersionId>3.0</VersionId>";
    assert AllDigits("3") && AllDigits("0");
    assert s[0..] == s == OpenTag + "3" + "." + "0" + CloseTag;
    assert IsMatchAt(s, 0, "3", "0");
    assert NoMatchBefore(s, 0);
    assert DigitsValue("3") == 3;
  }

  /** A BCF 2.1 version document fails it. */
  lemma CheckRejectsTwoOne()
    ensures !CheckBcfVersion("<VersionId>2.1</VersionId>")
  {
    var s := "<VersionId>2.1</VersionId>";
    assert AllDigits("2") && AllDigits("1");
    assert s[0..] == s == OpenTag + "2" + "." + "1" + CloseTag;
    assert IsMatchAt(s, 0, "2", "1");
    assert NoMatchBefore(s, 0);
    assert DigitsValue("2") == 2;
  }

  // ---------------------------------------------------------------------
  // isValidGuid: /^[0-9a-f]{8}-[0-9a-f]{4}-[1-5][0-9a-f]{3}-[89ab][0-9a-f]{3}-[0-9a-f]{12}$/i

  predicate IsHexDigit(c: char) {
    IsDigit(c) || 'a' <= c <= 'f' || 'A' <= c <= 'F'
  }

  predicate AllHex(s: string) {
    forall i :: 0 <= i < |s| ==> IsHexDigit(s[i])
  }

  /** `isValidGuid`, position by position: dashes at 8, 13, 18 and 23, hex
      digits elsewhere, a version digit 1-5 at 14 and a variant digit
      8, 9, a or b (either case) at 19. */
  function IsValidGuid(s: string): bool {
    && |s| == 36
    && s[8] == '-' && s[13] == '-' && s[18] == '-' && s[23] == '-'
    && AllHex(s[..8]) && AllHex(s[9..13]) && AllHex(s[14..18]) && AllHex(s[19..23]) && AllHex(s[24..])
    && '1' <= s[14] <= '5'
    && s[19] in "89abAB"
  }

  /** The same shape stated on the dash-separated groups. */
  predicate GuidGroups(g: seq<string>) {
    && |g| == 5
    && |g[0]| == 8 && |g[1]| == 4 && |g[2]| == 4 && |g[3]| == 4 && |g[4]| == 12
    && AllHex(g[0]) && AllHex(g[1]) && AllHex(g[2]) && AllHex(g[3]) && AllHex(g[4])
    && '1' <= g[2][0] <= '5'
    && g[3][0] in "89abAB"
  }

  function JoinFive(g: seq<string>): string
    requires |g| == 5
  {
    g[0] + "-" + g[1] + "-" + g[2] + "-" + g[3] + "-" + g[4]
  }

  lemma JoinFiveIsJoin(g: seq<string>)
    requires |g| == 5
    ensures Join(g, '-') == JoinFive(g)
  {
    assert g[4..][1..] == [];
    assert Join(g[4..], '-') == g[4];
    assert Join(g[3..], '-') == g[3] + "-" + g[4];
    assert Join(g[2..], '-') == g[2] + "-" + (g[3] + "-" + g[4]);
    assert Join(g[1..], '-') == g[1] + "-" + (g[2] + "-" + (g[3] + "-" + g[4]));
  }

  /** A string is a GUID exactly when splitting it at `-` gives five hex
      groups of 8, 4, 4, 4 and 12 digits with the version and variant digits
      in range. */
  lemma IsValidGuidByGroups(s: string)
    ensures IsValidGuid(s) <==> GuidGroups(Split(s, '-'))
  {
    if IsValidGuid(s) {
      var g := [s[..8], s[9..13], s[14..18], s[19..23], s[24..]];
      assert JoinFive(g) == s;
      JoinFiveIsJoin(g);
      forall p | p in g
        ensures '-' !in p
      {
        assert AllHex(p);
      }
      SplitJoin(g, '-');
      assert g[2][0] == s[14] && g[3][0] == s[19];
    }
    if GuidGroups(Split(s, '-')) {
      var g := Split(s, '-');
      JoinSplit(s, '-');
      JoinFiveIsJoin(g);
      assert s == JoinFive(g);
      assert s[..8] == g[0];
      assert s[9..13] == g[1];
      assert s[14..18] == g[2];
      assert s[19..23] == g[3];
      assert s[24..] == g[4];
    }
  }
}
