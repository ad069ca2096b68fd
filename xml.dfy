/**
 * A parsed XML element, as ElementTree hands it over: a (possibly
 * namespace-qualified) tag, the optional text before the first child, and the
 * child elements in document order.
 */
module Xml {
  import opened Wrappers
  import opened Text

  datatype Element = Element(tag: string, text: Option<string>, children: seq<Element>)

  /** `child.text.strip() if child.text else ''`. */
  function TrimmedText(e: Element): (r: string)
    ensures e.text.None? ==> r == ""
    ensures e.text.Some? ==> r == Trim(e.text.value)
  {
    match e.text
    case None => ""
    case Some(t) => Trim(t)
  }

  /** The stripped tags that occur among `cs`. */
  function TagsOf(cs: seq<Element>): set<string> {
    set c | c in cs :: StripNamespace(c.tag)
  }

  /** The elements of `cs` whose stripped tag is `t`, in order. */
  function Named(cs: seq<Element>, t: string): (r: seq<Element>)
    ensures |r| <= |cs|
    ensures forall x :: x in r ==> x in cs && StripNamespace(x.tag) == t
    decreases |cs|
  {
    if cs == [] then []
    else
      var last := cs[|cs| - 1];
      var r := Named(cs[..|cs| - 1], t);
      if StripNamespace(last.tag) == t then r + [last] else r
  }

  /** The trimmed texts of the elements of `cs` whose stripped tag is `t`, in order. */
  function TextsOf(cs: seq<Element>, t: string): (r: seq<string>)
    ensures |r| == |Named(cs, t)|
    decreases |cs|
  {
    if cs == [] then []
    else
      var last := cs[|cs| - 1];
      var r := TextsOf(cs[..|cs| - 1], t);
      if StripNamespace(last.tag) == t then r + [TrimmedText(last)] else r
  }

  lemma TagsOfSnoc(cs: seq<Element>, last: Element)
    ensures TagsOf(cs + [last]) == TagsOf(cs) + {StripNamespace(last.tag)}
  {
    assert forall c :: c in cs + [last] <==> c in cs || c == last;
  }

  lemma NamedSnoc(init: seq<Element>, last: Element, t: string)
    ensures Named(init + [last], t) ==
      if StripNamespace(last.tag) == t then Named(init, t) + [last] else Named(init, t)
    ensures TextsOf(init + [last], t) ==
      if StripNamespace(last.tag) == t then TextsOf(init, t) + [TrimmedText(last)] else TextsOf(init, t)
  {
    assert (init + [last])[..|init|] == init;
  }

  /**
   * The positions in `cs` of the elements whose stripped tag is `t`, in
   * increasing order: one per kept element, each a position of `cs`.
   */
  function Positions(cs: seq<Element>, t: string): (r: seq<nat>)
    ensures |r| == |Named(cs, t)|
    ensures forall j :: 0 <= j < |r| ==> r[j] < |cs|
    decreases |cs|
  {
    if cs == [] then []
    else
      var n := |cs| - 1;
      var r := Positions(cs[..n], t);
      if StripNamespace(cs[n].tag) == t then r + [n] else r
  }

  /** The j-th kept element is the element at the j-th position. */
  lemma {:induction false} NamedAt(cs: seq<Element>, t: string, j: nat)
    requires j < |Positions(cs, t)|
    ensures Named(cs, t)[j] == cs[Positions(cs, t)[j]]
    decreases |cs|
  {
    var n := |cs| - 1;
    var init := cs[..n];
    var r0 := Positions(init, t);
    var k0 := Named(init, t);
    if j < |r0| {
      NamedAt(init, t, j);
      assert Positions(cs, t)[j] == r0[j];
      assert Named(cs, t)[j] == k0[j] == init[r0[j]];
      assert init[r0[j]] == cs[r0[j]];
    }
  }

  /** The j-th kept text is the trimmed text of the j-th kept element. */
  lemma {:induction false} TextsOfAt(cs: seq<Element>, t: string, j: nat)
    requires j < |TextsOf(cs, t)|
    ensures TextsOf(cs, t)[j] == TrimmedText(Named(cs, t)[j])
    decreases |cs|
  {
    var init := cs[..|cs| - 1];
    var s0 := TextsOf(init, t);
    var k0 := Named(init, t);
    if j < |s0| {
      TextsOfAt(init, t, j);
      assert TextsOf(cs, t)[j] == s0[j];
      assert Named(cs, t)[j] == k0[j];
    }
  }

  /** The positions increase. */
  lemma {:induction false} PositionsIncrease(cs: seq<Element>, t: string, j: nat, k: nat)
    requires j < k < |Positions(cs, t)|
    ensures Positions(cs, t)[j] < Positions(cs, t)[k]
    decreases |cs|
  {
    var n := |cs| - 1;
    var init := cs[..n];
    if k < |Positions(init, t)| {
      PositionsIncrease(init, t, j, k);
    }
  }

  /** Every position whose element carries `t` is listed. */
  lemma {:induction false} PositionsCover(cs: seq<Element>, t: string, i: nat)
    requires i < |cs| && StripNamespace(cs[i].tag) == t
    ensures i in Positions(cs, t)
    decreases |cs|
  {
    var init := cs[..|cs| - 1];
    var last := cs[|cs| - 1];
    assert cs == init + [last];
    if i < |cs| - 1 {
      PositionsCover(init, t, i);
    }
  }

  /** A position is listed exactly when its element carries `t`. */
  lemma PositionsMember(cs: seq<Element>, t: string, i: nat)
    requires i < |cs|
    ensures i in Positions(cs, t) <==> StripNamespace(cs[i].tag) == t
  {
    var ix := Positions(cs, t);
    if i in ix {
      var j :| 0 <= j < |ix| && ix[j] == i;
      NamedAt(cs, t, j);
      assert Named(cs, t)[j] in Named(cs, t);
    }
    if StripNamespace(cs[i].tag) == t {
      PositionsCover(cs, t, i);
    }
  }

  /** Every element carrying `t` is kept. */
  lemma {:induction false} NamedMember(cs: seq<Element>, t: string, i: nat)
    requires i < |cs| && StripNamespace(cs[i].tag) == t
    ensures cs[i] in Named(cs, t)
    decreases |cs|
  {
    var init := cs[..|cs| - 1];
    var last := cs[|cs| - 1];
    assert cs == init + [last];
    NamedSnoc(init, last, t);
    if i < |cs| - 1 {
      NamedMember(init, t, i);
    }
  }

  /**
   * The filter keeps elements in input order: its j-th element sits at the
   * j-th of a strictly increasing sequence of positions.
   */
  lemma {:induction false} NamedInOrder(cs: seq<Element>, t: string)
    ensures var ix := Positions(cs, t);
      |ix| == |Named(cs, t)| && forall j :: 0 <= j < |ix| ==> ix[j] < |cs| && Named(cs, t)[j] == cs[ix[j]]
    ensures var ix := Positions(cs, t);
      forall j, k :: 0 <= j < k < |ix| ==> ix[j] < ix[k]
  {
    var ix := Positions(cs, t);
    forall j | 0 <= j < |ix| ensures Named(cs, t)[j] == cs[ix[j]] {
      NamedAt(cs, t, j);
    }
    forall j, k | 0 <= j < k < |ix| ensures ix[j] < ix[k] {
      PositionsIncrease(cs, t, j, k);
    }
  }

  /**
   * The filter keeps exactly the elements carrying `t`: a position is listed
   * exactly when its element carries `t`, so every such element is kept.
   */
  lemma {:induction false} NamedExactly(cs: seq<Element>, t: string)
    ensures forall i :: 0 <= i < |cs| ==> (i in Positions(cs, t) <==> StripNamespace(cs[i].tag) == t)
    ensures forall i :: 0 <= i < |cs| && StripNamespace(cs[i].tag) == t ==> cs[i] in Named(cs, t)
  {
    forall i | 0 <= i < |cs| ensures i in Positions(cs, t) <==> StripNamespace(cs[i].tag) == t {
      PositionsMember(cs, t, i);
    }
    forall i | 0 <= i < |cs| && StripNamespace(cs[i].tag) == t ensures cs[i] in Named(cs, t) {
      NamedMember(cs, t, i);
    }
  }

  /** Some element has stripped tag `t` exactly when `t` is among the tags. */
  lemma {:induction false} NamedPresent(cs: seq<Element>, t: string)
    ensures Named(cs, t) != [] <==> t in TagsOf(cs)
    decreases |cs|
  {
    if cs != [] {
      var init := cs[..|cs| - 1];
      var last := cs[|cs| - 1];
      assert cs == init + [last];
      TagsOfSnoc(init, last);
      NamedSnoc(init, last, t);
      NamedPresent(init, t);
    }
  }
}
