/**
 * The section indexer of `parse_metadata`: the root's children grouped by
 * stripped tag, each group in document order.
 */
module Sections {
  import opened Text
  import opened Xml

  /** Section name to the entries of that section. */
  type SectionMap = map<string, seq<Element>>

  /** The sections after visiting `cs` in order. */
  function Group(cs: seq<Element>): SectionMap
    decreases |cs|
  {
    if cs == [] then map[]
    else
      var m := Group(cs[..|cs| - 1]);
      var c := cs[|cs| - 1];
      var t := StripNamespace(c.tag);
      m[t := (if t in m then m[t] else []) + [c]]
  }

  /** The grouping loop of `parse_metadata`, on the already parsed root. */
  method ParseSections(root: Element) returns (sections: SectionMap)
    ensures sections == Group(root.children)
  {
    sections := map[];
    for i := 0 to |root.children|
      invariant sections == Group(root.children[..i])
    {
      var child := root.children[i];
      var tag := StripNamespace(child.tag);
      assert root.children[..i + 1][..i] == root.children[..i];
      if tag !in sections {
        sections := sections[tag := []];
      }
      sections := sections[tag := sections[tag] + [child]];
    }
    assert root.children[..|root.children|] == root.children;
  }

  lemma GroupSnoc(init: seq<Element>, last: Element)
    ensures var m := Group(init);
      var t := StripNamespace(last.tag);
      Group(init + [last]) == m[t := (if t in m then m[t] else []) + [last]]
  {
    assert (init + [last])[..|init|] == init;
  }

  /** Section `t` exists exactly when some child has tag `t`, and lists those children in order. */
  lemma {:induction false} GroupAt(cs: seq<Element>, t: string)
    ensures t in Group(cs) <==> Named(cs, t) != []
    ensures t in Group(cs) ==> Group(cs)[t] == Named(cs, t)
    decreases |cs|
  {
    if cs != [] {
      var init := cs[..|cs| - 1];
      var last := cs[|cs| - 1];
      assert cs == init + [last];
      GroupAt(init, t);
      GroupSnoc(init, last);
      NamedSnoc(init, last, t);
    }
  }

  /**
   * The section names are exactly the stripped child tags, no section is
   * empty, and each section holds its children in encounter order.
   */
  lemma GroupCharacterized(cs: seq<Element>)
    ensures Group(cs).Keys == TagsOf(cs)
    ensures forall t :: t in Group(cs) ==> Group(cs)[t] == Named(cs, t) && Group(cs)[t] != []
  {
    forall t ensures t in Group(cs) <==> t in TagsOf(cs) {
      GroupAt(cs, t);
      NamedPresent(cs, t);
    }
    forall t | t in Group(cs) ensures Group(cs)[t] == Named(cs, t) && Group(cs)[t] != [] {
      GroupAt(cs, t);
    }
  }

  /** Every child lies in the section of its own stripped tag and in no other. */
  lemma ChildInOneSection(cs: seq<Element>, i: nat)
    requires i < |cs|
    ensures StripNamespace(cs[i].tag) in Group(cs)
    ensures cs[i] in Group(cs)[StripNamespace(cs[i].tag)]
    ensures forall t :: t in Group(cs) && cs[i] in Group(cs)[t] ==> t == StripNamespace(cs[i].tag)
  {
    GroupCharacterized(cs);
    assert cs[i] in cs;
    NamedMember(cs, StripNamespace(cs[i].tag), i);
  }

  /** The total number of entries over all sections. */
  ghost function TotalEntries(m: SectionMap): nat
    decreases |m|
  {
    if m == map[] then 0
    else
      var k :| k in m;
      assert |m - {k}| < |m| by {
        assert (m - {k}).Keys == m.Keys - {k};
      }
      |m[k]| + TotalEntries(m - {k})
  }

  /** TotalEntries does not depend on which section it counts first. */
  lemma {:induction false} TotalEntriesRemove(m: SectionMap, k: string)
    requires k in m
    ensures TotalEntries(m) == |m[k]| + TotalEntries(m - {k})
    decreases |m|
  {
    var k' :| k' in m && TotalEntries(m) == |m[k']| + TotalEntries(m - {k'});
    if k' != k {
      assert (m - {k}).Keys == m.Keys - {k};
      assert (m - {k'}).Keys == m.Keys - {k'};
      TotalEntriesRemove(m - {k'}, k);
      TotalEntriesRemove(m - {k}, k');
      assert m - {k'} - {k} == m - {k} - {k'};
    }
  }

  /** The section lengths add up to the number of root children. */
  lemma {:induction false} GroupTotal(cs: seq<Element>)
    ensures TotalEntries(Group(cs)) == |cs|
    decreases |cs|
  {
    if cs != [] {
      var init := cs[..|cs| - 1];
      var last := cs[|cs| - 1];
      var t := StripNamespace(last.tag);
      var m := Group(init);
      assert cs == init + [last];
      GroupSnoc(init, last);
      GroupTotal(init);
      var m' := Group(cs);
      TotalEntriesRemove(m', t);
      if t in m {
        assert m' - {t} == m - {t};
        TotalEntriesRemove(m, t);
      } else {
        assert m' - {t} == m;
      }
    }
  }
}
