/** The image slider of a topic: an index into the topic's image list, the
    two arrow buttons' disabled flags, whether the arrows are hidden, and the
    "k / n" counter. Clicks are the only events. */
module ImageSlider {
  import opened Wrappers
  import opened Strings

  datatype Slider = Slider(
    images: seq<string>,
    index: nat,
    prevDisabled: bool,
    nextDisabled: bool,
    hidden: bool)

  datatype Click = PrevClick | NextClick

  /** `updateButtons`: the disabled flags follow the index; the arrows are
      hidden once the list has at most one image and never shown again. */
  function UpdateButtons(s: Slider): (t: Slider)
    ensures t.images == s.images && t.index == s.index
    ensures t.prevDisabled <==> s.index == 0
    ensures t.nextDisabled <==> s.index == |s.images| - 1
    ensures t.hidden <==> s.hidden || |s.images| <= 1
  {
    s.(prevDisabled := s.index == 0,
       nextDisabled := s.index == |s.images| - 1,
       hidden := s.hidden || |s.images| <= 1)
  }

  /** The constructor: index 0, then `updateButtons`. */
  function Init(images: seq<string>): (s: Slider)
    ensures s.images == images && s.index == 0
    ensures s.prevDisabled
    ensures s.nextDisabled <==> |images| == 1
    ensures s.hidden <==> |images| <= 1
  {
    UpdateButtons(Slider(images, 0, false, false, false))
  }

  /** `previousImage`: step back unless at the first image. */
  function Prev(s: Slider): (t: Slider)
    ensures s.index > 0 ==> t.index == s.index - 1
    ensures s.index == 0 ==> t == s
    ensures t.images == s.images
  {
    if s.index > 0 then UpdateButtons(s.(index := s.index - 1)) else s
  }

  /** `nextImage`: step forward unless at the last image. */
  function Next(s: Slider): (t: Slider)
    ensures s.index < |s.images| - 1 ==> t.index == s.index + 1
    ensures s.index >= |s.images| - 1 ==> t == s
    ensures t.images == s.images
  {
    if s.index < |s.images| - 1 then UpdateButtons(s.(index := s.index + 1)) else s
  }

  function Step(s: Slider, c: Click): Slider {
    match c
    case PrevClick => Prev(s)
    case NextClick => Next(s)
  }

  function Run(s: Slider, clicks: seq<Click>): Slider
    decreases |clicks|
  {
    if clicks == [] then s else Run(Step(s, clicks[0]), clicks[1..])
  }

  /** The image shown; the source shows `undefined` for an empty list. */
  function Current(s: Slider): (r: Option<string>)
    ensures r.Some? <==> s.index < |s.images|
    ensures r.Some? ==> r.value == s.images[s.index]
  {
    if s.index < |s.images| then Some(s.images[s.index]) else None
  }

  /** The counter text, one-based. */
  function Counter(s: Slider): string {
    NatToString(s.index + 1) + " / " + NatToString(|s.images|)
  }

  /** What every slider state satisfies: the index is in range (0 for an
      empty list), the flags agree with it, and the arrows are hidden exactly
      for lists of at most one image. */
  predicate Valid(s: Slider) {
    && (if |s.images| == 0 then s.index == 0 else s.index < |s.images|)
    && (s.prevDisabled <==> s.index == 0)
    && (s.nextDisabled <==> s.index == |s.images| - 1)
    && (s.hidden <==> |s.images| <= 1)
  }

  lemma InitValid(images: seq<string>)
    ensures Valid(Init(images))
  {
  }

  lemma StepValid(s: Slider, c: Click)
    requires Valid(s)
    ensures Valid(Step(s, c))
    ensures Step(s, c).images == s.images
  {
  }

  /** Any sequence of clicks keeps the state valid and the image list. */
  lemma {:induction false} RunValid(s: Slider, clicks: seq<Click>)
    requires Valid(s)
    ensures Valid(Run(s, clicks))
    ensures Run(s, clicks).images == s.images
    decreases |clicks|
  {
    if clicks != [] {
      StepValid(s, clicks[0]);
      RunValid(Step(s, clicks[0]), clicks[1..]);
    }
  }

  /** Every state reachable from the constructor is valid, so the image
      shown always exists when the list is non-empty. */
  lemma {:induction false} ReachableValid(images: seq<string>, clicks: seq<Click>)
    ensures Valid(Run(Init(images), clicks))
    ensures |images| > 0 ==> Current(Run(Init(images), clicks)).Some?
  {
    InitValid(images);
    RunValid(Init(images), clicks);
  }

  /** Going forward then back (or back then forward) away from the ends
      returns to the same state. */
  lemma NextPrev(s: Slider)
    requires Valid(s) && s.index < |s.images| - 1
    ensures Prev(Next(s)) == s
  {
  }

  lemma PrevNext(s: Slider)
    requires Valid(s) && s.index > 0
    ensures Next(Prev(s)) == s
  {
  }

  function Repeat(c: Click, k: nat): (r: seq<Click>)
    ensures |r| == k
  {
    if k == 0 then [] else [c] + Repeat(c, k - 1)
  }

  /** `k` forward clicks from a valid state reach image `index + k`, stopping
      at the last image. */
  lemma {:induction false} NextClicks(s: Slider, k: nat)
    requires Valid(s) && |s.images| > 0
    ensures Run(s, Repeat(NextClick, k)).index
            == if s.index + k < |s.images| then s.index + k else |s.images| - 1
    decreases k
  {
    if k > 0 {
      var r := Repeat(NextClick, k);
      assert r[0] == NextClick && r[1..] == Repeat(NextClick, k - 1);
      StepValid(s, NextClick);
      NextClicks(Next(s), k - 1);
    }
  }

  /** `k` backward clicks from a valid state reach `index - k`, stopping at
      the first image. */
  lemma {:induction false} PrevClicks(s: Slider, k: nat)
    requires Valid(s)
    ensures Run(s, Repeat(PrevClick, k)).index == if k <= s.index then s.index - k else 0
    decreases k
  {
    if k > 0 {
      var r := Repeat(PrevClick, k);
      assert r[0] == PrevClick && r[1..] == Repeat(PrevClick, k - 1);
      StepValid(s, PrevClick);
      PrevClicks(Prev(s), k - 1);
    }
  }

  /** The counter starts with the one-based index and ends with the count. */
  lemma CounterParts(s: Slider)
    ensures Counter(s)[..|NatToString(s.index + 1)|] == NatToString(s.index + 1)
    ensures DigitsValue(Counter(s)[..|NatToString(s.index + 1)|]) == s.index + 1
    ensures DigitsValue(Counter(s)[|Counter(s)| - |NatToString(|s.images|)|..]) == |s.images|
  {
    var a := NatToString(s.index + 1);
    var b := NatToString(|s.images|);
    assert Counter(s) == a + " / " + b;
    assert Counter(s)[..|a|] == a;
    assert Counter(s)[|Counter(s)| - |b|..] == b;
    NatToStringRoundTrip(s.index + 1);
    NatToStringRoundTrip(|s.images|);
  }
}
