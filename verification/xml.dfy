/** An already-parsed XML document and the DOM queries the decoders use on
    it. Tags are compared exactly, as type selectors are in an XML document. */
module Xml {
  import opened Wrappers

  datatype Attribute = Attribute(name: string, value: string)

  /** An element with its tag, its attributes in document order and its
      children, or a run of character data. */
  datatype Node =
    | Element(tag: string, attrs: seq<Attribute>, children: seq<Node>)
    | Text(data: string)

  /** The document node: the nodes directly under it, the root element among them. */
  datatype Document = Document(nodes: seq<Node>)

  /** Every element tagged `tag` among `ns` and their descendants, in
      document (pre-)order. */
  function ElementsIn(ns: seq<Node>, tag: string): (r: seq<Node>)
    ensures forall e | e in r :: e.Element? && e.tag == tag
    decreases ns
  {
    if |ns| == 0 then [] else ElementsOf(ns[0], tag) + ElementsIn(ns[1..], tag)
  }

  /** `n` itself when it is tagged `tag`, followed by its matching descendants. */
  function ElementsOf(n: Node, tag: string): (r: seq<Node>)
    ensures forall e | e in r :: e.Element? && e.tag == tag
    decreases n
  {
    match n
    case Text(_) => []
    case Element(t, _, cs) => (if t == tag then [n] else []) + ElementsIn(cs, tag)
  }

  /** A depth-first search that stops at the first element tagged `tag`. */
  function FirstIn(ns: seq<Node>, tag: string): (r: Option<Node>)
    ensures r.Some? ==> r.value.Element? && r.value.tag == tag
    decreases ns
  {
    if |ns| == 0 then None
    else
      match FirstOf(ns[0], tag)
      case Some(e) => Some(e)
      case None => FirstIn(ns[1..], tag)
  }

  function FirstOf(n: Node, tag: string): (r: Option<Node>)
    ensures r.Some? ==> r.value.Element? && r.value.tag == tag
    decreases n
  {
    match n
    case Text(_) => None
    case Element(t, _, cs) => if t == tag then Some(n) else FirstIn(cs, tag)
  }

  function Head(xs: seq<Node>): Option<Node> {
    if |xs| == 0 then None else Some(xs[0])
  }

  /** The search finds the first element of the document-order list. */
  lemma {:induction false} FirstInIsHead(ns: seq<Node>, tag: string)
    ensures FirstIn(ns, tag) == Head(ElementsIn(ns, tag))
    decreases ns
  {
    if |ns| > 0 {
      FirstOfIsHead(ns[0], tag);
      FirstInIsHead(ns[1..], tag);
    }
  }

  lemma {:induction false} FirstOfIsHead(n: Node, tag: string)
    ensures FirstOf(n, tag) == Head(ElementsOf(n, tag))
    decreases n
  {
    match n
    case Text(_) =>
    case Element(t, _, cs) =>
      FirstInIsHead(cs, tag);
  }

  /** Matching distributes over a split of the node list. */
  lemma {:induction false} ElementsInAppend(a: seq<Node>, b: seq<Node>, tag: string)
    ensures ElementsIn(a + b, tag) == ElementsIn(a, tag) + ElementsIn(b, tag)
  {
    if |a| > 0 {
      assert (a + b)[0] == a[0];
      assert (a + b)[1..] == a[1..] + b;
      ElementsInAppend(a[1..], b, tag);
    } else {
      assert a + b == b;
    }
  }

  /** The concatenated character data among `ns` and their descendants. */
  function TextIn(ns: seq<Node>): string
    decreases ns
  {
    if |ns| == 0 then "" else TextOf(ns[0]) + TextIn(ns[1..])
  }

  /** `Node.textContent`. */
  function TextOf(n: Node): string
    decreases n
  {
    match n
    case Text(d) => d
    case Element(_, _, cs) => TextIn(cs)
  }

  /** `v` is the value of the first attribute called `name` in `attrs`. */
  predicate FirstAttribute(attrs: seq<Attribute>, name: string, v: string) {
    exists i | 0 <= i < |attrs| ::
      attrs[i] == Attribute(name, v) && forall j | 0 <= j < i :: attrs[j].name != name
  }

  /** At most one value is the first one of a name, so `FirstAttribute`
      pins the value down. */
  lemma FirstAttributeUnique(attrs: seq<Attribute>, name: string, v: string, w: string)
    requires FirstAttribute(attrs, name, v) && FirstAttribute(attrs, name, w)
    ensures v == w
  {
  }

  /** `Element.getAttribute`: the value of the first attribute called `name`. */
  function GetAttribute(e: Node, name: string): (r: Option<string>)
    requires e.Element?
    ensures r.Some? <==> exists a | a in e.attrs :: a.name == name
    ensures r.Some? ==> Attribute(name, r.value) in e.attrs && FirstAttribute(e.attrs, name, r.value)
  {
    FindAttribute(e.attrs, name)
  }

  function FindAttribute(attrs: seq<Attribute>, name: string): (r: Option<string>)
    ensures r.Some? <==> exists a | a in attrs :: a.name == name
    ensures r.Some? ==> Attribute(name, r.value) in attrs && FirstAttribute(attrs, name, r.value)
  {
    if |attrs| == 0 then None
    else if attrs[0].name == name then
      assert attrs[0] == Attribute(name, attrs[0].value);
      Some(attrs[0].value)
    else
      var r := FindAttribute(attrs[1..], name);
      if r.Some? then
        var i :| 0 <= i < |attrs[1..]| && attrs[1..][i] == Attribute(name, r.value)
                 && forall j | 0 <= j < i :: attrs[1..][j].name != name;
        assert attrs[i + 1] == Attribute(name, r.value)
               && forall j | 0 <= j < i + 1 :: attrs[j].name != name;
        r
      else r
  }

  /** `element.querySelector(tag)`: the first descendant, `e` excluded. */
  function QuerySelector(e: Node, tag: string): Option<Node>
    requires e.Element?
  {
    FirstIn(e.children, tag)
  }

  /** `element.querySelectorAll(tag)`: all descendants, `e` excluded. */
  function QuerySelectorAll(e: Node, tag: string): seq<Node>
    requires e.Element?
  {
    ElementsIn(e.children, tag)
  }

  /** `document.querySelector(tag)`: the root element is a candidate. */
  function DocQuerySelector(d: Document, tag: string): Option<Node> {
    FirstIn(d.nodes, tag)
  }

  function DocQuerySelectorAll(d: Document, tag: string): seq<Node> {
    ElementsIn(d.nodes, tag)
  }

  /** The elements matched by the descendant selector `outer tag`: elements
      tagged `tag` below some element tagged `outer`. `inside` says whether
      `ns` already lie below such an element. */
  function ElementsWithin(ns: seq<Node>, outer: string, tag: string, inside: bool): (r: seq<Node>)
    ensures inside ==> r == ElementsIn(ns, tag)
    ensures forall e | e in r :: e in ElementsIn(ns, tag) && e.Element? && e.tag == tag
    ensures !inside && ElementsIn(ns, outer) == [] ==> r == []
    decreases ns
  {
    if |ns| == 0 then []
    else
      ElementsWithinNode(ns[0], outer, tag, inside) + ElementsWithin(ns[1..], outer, tag, inside)
  }

  function ElementsWithinNode(n: Node, outer: string, tag: string, inside: bool): (r: seq<Node>)
    ensures inside ==> r == ElementsOf(n, tag)
    ensures forall e | e in r :: e in ElementsOf(n, tag) && e.Element? && e.tag == tag
    ensures !inside && ElementsOf(n, outer) == [] ==> r == []
    decreases n
  {
    match n
    case Text(_) => []
    case Element(t, _, cs) =>
      (if inside && t == tag then [n] else [])
      + ElementsWithin(cs, outer, tag, inside || t == outer)
  }

  /** The descendant selector `outer tag` matches exactly the elements
      tagged `tag` below some element tagged `outer`. */
  lemma {:induction false} ElementsWithinIff(ns: seq<Node>, outer: string, tag: string, e: Node)
    ensures e in ElementsWithin(ns, outer, tag, false) <==>
              exists o | o in ElementsIn(ns, outer) :: e in ElementsIn(o.children, tag)
    decreases ns
  {
    if |ns| > 0 {
      ElementsWithinNodeIff(ns[0], outer, tag, e);
      ElementsWithinIff(ns[1..], outer, tag, e);
      assert ElementsIn(ns, outer) == ElementsOf(ns[0], outer) + ElementsIn(ns[1..], outer);
    }
  }

  lemma {:induction false} ElementsWithinNodeIff(n: Node, outer: string, tag: string, e: Node)
    ensures e in ElementsWithinNode(n, outer, tag, false) <==>
              exists o | o in ElementsOf(n, outer) :: e in ElementsIn(o.children, tag)
    decreases n
  {
    match n
    case Text(_) =>
    case Element(t, a, cs) =>
      if t == outer {
        assert ElementsOf(n, outer) == [n] + ElementsIn(cs, outer);
        if exists o | o in ElementsOf(n, outer) :: e in ElementsIn(o.children, tag) {
          var o :| o in ElementsOf(n, outer) && e in ElementsIn(o.children, tag);
          if o != n {
            DescendantIn(cs, outer, o, tag, e);
          }
        }
      } else {
        ElementsWithinIff(cs, outer, tag, e);
      }
  }

  /** A `tag` element below an `x` element among `ns` is itself among `ns`'
      `tag` elements. */
  lemma {:induction false} DescendantIn(ns: seq<Node>, x: string, o: Node, tag: string, e: Node)
    requires o in ElementsIn(ns, x) && e in ElementsIn(o.children, tag)
    ensures e in ElementsIn(ns, tag)
    decreases ns
  {
    assert ElementsIn(ns, x) == ElementsOf(ns[0], x) + ElementsIn(ns[1..], x);
    if o in ElementsOf(ns[0], x) {
      DescendantOf(ns[0], x, o, tag, e);
    } else {
      DescendantIn(ns[1..], x, o, tag, e);
    }
  }

  lemma {:induction false} DescendantOf(n: Node, x: string, o: Node, tag: string, e: Node)
    requires o in ElementsOf(n, x) && e in ElementsIn(o.children, tag)
    ensures e in ElementsOf(n, tag)
    decreases n
  {
    match n
    case Element(t, a, cs) =>
      if o != n || t != x {
        DescendantIn(cs, x, o, tag, e);
      }
  }

  /** Below an element tagged `outer` every element tagged `tag` matches,
      whatever `outer` and `tag` are. */
  lemma WithinOuterElement(a: seq<Attribute>, cs: seq<Node>, outer: string, tag: string)
    ensures ElementsWithinNode(Element(outer, a, cs), outer, tag, false) == ElementsIn(cs, tag)
  {
  }

  /** With no element tagged `outer` anywhere, the selector matches nothing,
      however many elements are tagged `tag`. */
  lemma NoOuterNoMatch(d: Document, outer: string, tag: string)
    requires DocQuerySelectorAll(d, outer) == []
    ensures DocQuerySelectorWithin(d, outer, tag).None?
  {
  }

  /** `document.querySelector('outer tag')`. */
  function DocQuerySelectorWithin(d: Document, outer: string, tag: string): (r: Option<Node>)
    ensures r.Some? ==> r.value.Element? && r.value.tag == tag
  {
    Head(ElementsWithin(d.nodes, outer, tag, false))
  }
}
