/**
 * What `compare_sections` promises: the keyed path (exclusive keys in sorted
 * order, differing common keys), the single-occurrence path, symmetry under
 * swapping the two inputs, and the shape of the report and its summary.
 */
module DiffProperties {
  import opened Wrappers
  import opened Xml
  import opened Config
  import opened Fields
  import opened Sections
  import opened StringOrder
  import opened Differ
  import opened Text

  // ---------------------------------------------------------------------
  // The diffs loop over the common keys
  // ---------------------------------------------------------------------

  /** The `i`-th reported entry is for a key of `ks` whose two field dictionaries differ. */
  lemma {:induction false} KeyedDiffsEntry(ks: seq<string>, d1: map<string, Element>, d2: map<string, Element>, i: nat)
    requires forall k :: k in ks ==> k in d1 && k in d2
    requires i < |KeyedDiffs(ks, d1, d2)|
    ensures var e := KeyedDiffs(ks, d1, d2)[i];
      e.key in ks && e.dict1 == FieldDictOf(d1[e.key]) && e.dict2 == FieldDictOf(d2[e.key]) && e.dict1 != e.dict2
    decreases |ks|
  {
    var init := ks[..|ks| - 1];
    var k := ks[|ks| - 1];
    var r0 := KeyedDiffs(init, d1, d2);
    assert forall x :: x in init ==> x in ks;
    if i < |r0| {
      KeyedDiffsEntry(init, d1, d2, i);
      assert KeyedDiffs(ks, d1, d2)[i] == r0[i];
    }
  }

  /**
   * Every reported entry is a key of `ks` whose two field dictionaries differ,
   * carrying those two dictionaries, so identical entries are never reported.
   */
  lemma {:induction false} KeyedDiffsEntries(ks: seq<string>, d1: map<string, Element>, d2: map<string, Element>)
    requires forall k :: k in ks ==> k in d1 && k in d2
    ensures var r := KeyedDiffs(ks, d1, d2);
      forall i :: 0 <= i < |r| ==>
        r[i].key in ks && r[i].dict1 == FieldDictOf(d1[r[i].key]) && r[i].dict2 == FieldDictOf(d2[r[i].key])
        && r[i].dict1 != r[i].dict2
  {
    var r := KeyedDiffs(ks, d1, d2);
    forall i | 0 <= i < |r|
      ensures r[i].key in ks && r[i].dict1 == FieldDictOf(d1[r[i].key]) && r[i].dict2 == FieldDictOf(d2[r[i].key])
        && r[i].dict1 != r[i].dict2
    {
      KeyedDiffsEntry(ks, d1, d2, i);
    }
  }

  /** A key of `ks` is reported exactly when its two field dictionaries differ. */
  lemma {:induction false} KeyedDiffsKey(ks: seq<string>, d1: map<string, Element>, d2: map<string, Element>, x: string)
    requires forall k :: k in ks ==> k in d1 && k in d2
    requires x in ks
    ensures x in DiffKeys(KeyedDiffs(ks, d1, d2)) <==> FieldDictOf(d1[x]) != FieldDictOf(d2[x])
    decreases |ks|
  {
    var init := ks[..|ks| - 1];
    var k := ks[|ks| - 1];
    assert ks == init + [k];
    var ds0 := DiffKeys(KeyedDiffs(init, d1, d2));
    if x in init {
      KeyedDiffsKey(init, d1, d2, x);
    } else {
      forall i | 0 <= i < |ds0| ensures ds0[i] != x {
        KeyedDiffsEntry(init, d1, d2, i);
      }
    }
    if FieldDictOf(d1[k]) != FieldDictOf(d2[k]) {
      assert DiffKeys(KeyedDiffs(ks, d1, d2)) == ds0 + [k];
    } else {
      assert DiffKeys(KeyedDiffs(ks, d1, d2)) == ds0;
    }
  }

  /** Every key of `ks` is reported exactly when its two field dictionaries differ. */
  lemma {:induction false} KeyedDiffsKeys(ks: seq<string>, d1: map<string, Element>, d2: map<string, Element>)
    requires forall k :: k in ks ==> k in d1 && k in d2
    ensures var r := KeyedDiffs(ks, d1, d2);
      forall k :: k in ks ==> (k in DiffKeys(r) <==> FieldDictOf(d1[k]) != FieldDictOf(d2[k]))
  {
    forall k | k in ks
      ensures k in DiffKeys(KeyedDiffs(ks, d1, d2)) <==> FieldDictOf(d1[k]) != FieldDictOf(d2[k])
    {
      KeyedDiffsKey(ks, d1, d2, k);
    }
  }

  /** Reported keys keep the order of `ks`: sorted keys give sorted diffs. */
  lemma {:induction false} KeyedDiffsSorted(ks: seq<string>, d1: map<string, Element>, d2: map<string, Element>)
    requires forall k :: k in ks ==> k in d1 && k in d2
    requires StrictlySorted(ks)
    ensures StrictlySorted(DiffKeys(KeyedDiffs(ks, d1, d2)))
    decreases |ks|
  {
    if ks != [] {
      var init := ks[..|ks| - 1];
      var k := ks[|ks| - 1];
      SortedFront(ks);
      KeyedDiffsSorted(init, d1, d2);
      var r0 := KeyedDiffs(init, d1, d2);
      if FieldDictOf(d1[k]) != FieldDictOf(d2[k]) {
        var ds0 := DiffKeys(r0);
        assert DiffKeys(KeyedDiffs(ks, d1, d2)) == ds0 + [k];
        forall i | 0 <= i < |ds0| ensures Less(ds0[i], k) {
          KeyedDiffsEntry(init, d1, d2, i);
        }
        SortedSnoc(ds0, k);
      }
    }
  }

  // ---------------------------------------------------------------------
  // Swapping the two inputs
  // ---------------------------------------------------------------------

  /** A diff entry with its two dictionaries exchanged. */
  function SwapEntry(d: DiffEntry): DiffEntry {
    DiffEntry(d.key, d.dict2, d.dict1)
  }

  function SwapDiffs(ds: seq<DiffEntry>): (r: seq<DiffEntry>)
    ensures |r| == |ds| && forall i :: 0 <= i < |ds| ==> r[i] == SwapEntry(ds[i])
  {
    seq(|ds|, i requires 0 <= i < |ds| => SwapEntry(ds[i]))
  }

  /** A section result as seen from the other file. */
  function Swapped(r: SectionResult): SectionResult {
    SectionResult(r.section, r.onlyIn2, r.onlyIn1, SwapDiffs(r.diffs))
  }

  function SwapAll(rs: seq<SectionResult>): (r: seq<SectionResult>)
    ensures |r| == |rs| && forall i :: 0 <= i < |rs| ==> r[i] == Swapped(rs[i])
  {
    seq(|rs|, i requires 0 <= i < |rs| => Swapped(rs[i]))
  }

  lemma {:induction false} KeyedDiffsSwap(ks: seq<string>, d1: map<string, Element>, d2: map<string, Element>)
    requires forall k :: k in ks ==> k in d1 && k in d2
    ensures KeyedDiffs(ks, d2, d1) == SwapDiffs(KeyedDiffs(ks, d1, d2))
    decreases |ks|
  {
    if ks != [] {
      var init := ks[..|ks| - 1];
      var k := ks[|ks| - 1];
      KeyedDiffsSwap(init, d1, d2);
      var r0 := KeyedDiffs(init, d1, d2);
      var f1 := FieldDictOf(d1[k]);
      var f2 := FieldDictOf(d2[k]);
      if f1 != f2 {
        assert SwapDiffs(r0 + [DiffEntry(k, f1, f2)]) == SwapDiffs(r0) + [DiffEntry(k, f2, f1)];
      }
    }
  }

  /** The keyed comparison with the two maps exchanged is the mirror image. */
  lemma KeyedSectionSwap(name: string, d1: map<string, Element>, d2: map<string, Element>)
    ensures KeyedSection(name, d2, d1) == Swapped(KeyedSection(name, d1, d2))
  {
    assert d1.Keys * d2.Keys == d2.Keys * d1.Keys;
    KeyedDiffsSwap(SortedOf(d1.Keys * d2.Keys), d1, d2);
  }

  /** The single-occurrence step with the two files exchanged is the mirror image. */
  lemma WithSingleSwap(r: SectionResult, es1: seq<Element>, es2: seq<Element>)
    ensures WithSingle(Swapped(r), es2, es1) == Swapped(WithSingle(r, es1, es2))
  {
    if |es1| == 1 && |es2| == 1 {
      var e := DiffEntry(SingleKey, FieldDictOf(es1[0]), FieldDictOf(es2[0]));
      assert SwapDiffs(r.diffs + [e]) == SwapDiffs(r.diffs) + [SwapEntry(e)];
    }
  }

  /**
   * Comparing the files the other way round exchanges `only_in_1` and
   * `only_in_2` and the two dictionaries of every diff, and changes nothing else.
   */
  lemma CompareSectionSwap(name: string, es1: seq<Element>, es2: seq<Element>)
    ensures CompareSection(name, es2, es1) == Swapped(CompareSection(name, es1, es2))
  {
    var d1 := Keyed(es1);
    var d2 := Keyed(es2);
    KeyedSectionSwap(name, d1, d2);
    WithSingleSwap(KeyedSection(name, d1, d2), es1, es2);
  }

  lemma SwapAllSnoc(rs: seq<SectionResult>, r: SectionResult)
    ensures SwapAll(rs + [r]) == SwapAll(rs) + [Swapped(r)]
  {
  }

  lemma {:induction false} SectionsForSwap(s1: SectionMap, s2: SectionMap, names: seq<string>)
    ensures SectionsFor(s2, s1, names) == SwapAll(SectionsFor(s1, s2, names))
    decreases |names|
  {
    if names != [] {
      var init := names[..|names| - 1];
      var name := names[|names| - 1];
      SectionsForSwap(s1, s2, init);
      CompareSectionSwap(name, Lookup(s1, name), Lookup(s2, name));
      var rs := SectionsFor(s1, s2, init);
      var r := CompareSection(name, Lookup(s1, name), Lookup(s2, name));
      var r' := CompareSection(name, Lookup(s2, name), Lookup(s1, name));
      assert SectionsFor(s1, s2, names) == rs + [r];
      assert SectionsFor(s2, s1, names) == SectionsFor(s2, s1, init) + [r'];
      SwapAllSnoc(rs, r);
    }
  }

  /** The whole comparison, file 2 against file 1, is the mirror image section by section. */
  lemma CompareSwap(s1: SectionMap, s2: SectionMap)
    ensures Compare(s2, s1) == SwapAll(Compare(s1, s2))
  {
    assert s2.Keys + s1.Keys == s1.Keys + s2.Keys;
    SectionsForSwap(s1, s2, SortedOf(s1.Keys + s2.Keys));
  }

  // ---------------------------------------------------------------------
  // The keyed path
  // ---------------------------------------------------------------------

  /** The keyed path: the single-occurrence step does not run. */
  predicate KeyedPath(name: string, es1: seq<Element>, es2: seq<Element>) {
    !SingleApplies(name, Keyed(es1), Keyed(es2))
  }

  /** On the keyed path the single-occurrence step adds nothing. */
  lemma KeyedPathResult(name: string, es1: seq<Element>, es2: seq<Element>)
    requires KeyedPath(name, es1, es2)
    ensures CompareSection(name, es1, es2) == KeyedSection(name, Keyed(es1), Keyed(es2))
  {
  }

  /** The entries `ValuesAt` picks for keys of a keyed map. */
  lemma ValuesAtKeyed(es: seq<Element>, ks: seq<string>)
    requires forall k :: k in ks ==> k in Keyed(es)
    ensures forall i :: 0 <= i < |ks| ==>
      ValuesAt(Keyed(es), ks)[i] in es && KeyOf(ValuesAt(Keyed(es), ks)[i]) == Some(ks[i])
  {
    KeyedKeys(es);
  }

  /** The entries kept for the keys of `es` that `other` lacks, in sorted key order. */
  lemma ExclusiveOf(es: seq<Element>, other: map<string, Element>)
    ensures var o := SortedOf(Keyed(es).Keys - other.Keys);
      var v := ValuesAt(Keyed(es), o);
      |v| == |o| && forall i :: 0 <= i < |o| ==> v[i] == Keyed(es)[o[i]] && v[i] in es && KeyOf(v[i]) == Some(o[i])
  {
    var o := SortedOf(Keyed(es).Keys - other.Keys);
    assert forall k :: k in o ==> k in Keyed(es);
    ValuesAtKeyed(es, o);
  }

  /**
   * On the keyed path `only_in_1` lists, in sorted order of the keys, one entry
   * of file 1 for every key of file 1 that file 2 lacks: the one the last-wins
   * map kept for it.
   */
  lemma KeyedOnlyIn1(name: string, es1: seq<Element>, es2: seq<Element>)
    requires KeyedPath(name, es1, es2)
    ensures var r := CompareSection(name, es1, es2);
      var o := SortedOf(Keyed(es1).Keys - Keyed(es2).Keys);
      |r.onlyIn1| == |o| && forall i :: 0 <= i < |o| ==>
        o[i] in Keyed(es1) && r.onlyIn1[i] == Keyed(es1)[o[i]] && r.onlyIn1[i] in es1 && KeyOf(r.onlyIn1[i]) == Some(o[i])
  {
    var o := SortedOf(Keyed(es1).Keys - Keyed(es2).Keys);
    assert CompareSection(name, es1, es2).onlyIn1 == ValuesAt(Keyed(es1), o) by {
      KeyedPathResult(name, es1, es2);
    }
    ExclusiveOf(es1, Keyed(es2));
  }

  /** `only_in_2` is the mirror image of `only_in_1`. */
  lemma KeyedOnlyIn2(name: string, es1: seq<Element>, es2: seq<Element>)
    requires KeyedPath(name, es1, es2)
    ensures var r := CompareSection(name, es1, es2);
      var o := SortedOf(Keyed(es2).Keys - Keyed(es1).Keys);
      |r.onlyIn2| == |o| && forall i :: 0 <= i < |o| ==>
        o[i] in Keyed(es2) && r.onlyIn2[i] == Keyed(es2)[o[i]] && r.onlyIn2[i] in es2 && KeyOf(r.onlyIn2[i]) == Some(o[i])
  {
    KeyedOnlyIn1(name, es2, es1);
    CompareSectionSwap(name, es1, es2);
  }

  /** An entry whose key the second side also holds is never reported as only in the first. */
  lemma KeyHeldNotOnlyIn1(name: string, es1: seq<Element>, es2: seq<Element>, e: Element)
    requires KeyedPath(name, es1, es2)
    requires KeyOf(e).Some? && KeyOf(e).value in Keyed(es2)
    ensures e !in CompareSection(name, es1, es2).onlyIn1
  {
    KeyedOnlyIn1(name, es1, es2);
    var r := CompareSection(name, es1, es2);
    var o := SortedOf(Keyed(es1).Keys - Keyed(es2).Keys);
    forall p | 0 <= p < |r.onlyIn1| ensures r.onlyIn1[p] != e {
      assert o[p] in o;
    }
  }

  /** An entry whose key the first side also holds is never reported as only in the second. */
  lemma KeyHeldNotOnlyIn2(name: string, es1: seq<Element>, es2: seq<Element>, e: Element)
    requires KeyedPath(name, es1, es2)
    requires KeyOf(e).Some? && KeyOf(e).value in Keyed(es1)
    ensures e !in CompareSection(name, es1, es2).onlyIn2
  {
    KeyedOnlyIn2(name, es1, es2);
    var r := CompareSection(name, es1, es2);
    var o := SortedOf(Keyed(es2).Keys - Keyed(es1).Keys);
    forall p | 0 <= p < |r.onlyIn2| ensures r.onlyIn2[p] != e {
      assert o[p] in o;
    }
  }

  /**
   * A keyed entry whose twin on the other side has the same stripped tag and
   * the same field values appears in neither `only_in` list: the two share
   * their key, so each side's keyed map holds it.
   */
  lemma IdenticalNeverOnlyIn(name: string, es1: seq<Element>, es2: seq<Element>, i: nat, j: nat)
    requires i < |es1| && j < |es2| && KeyOf(es1[i]).Some?
    requires StripNamespace(es1[i].tag) == StripNamespace(es2[j].tag)
    requires FieldDictOf(es1[i]) == FieldDictOf(es2[j])
    ensures es1[i] !in CompareSection(name, es1, es2).onlyIn1
    ensures es2[j] !in CompareSection(name, es1, es2).onlyIn2
  {
    SameDictSameKey(es1[i], es2[j]);
    KeyedDomain(es1);
    KeyedDomain(es2);
    assert es1[i] in es1 && es2[j] in es2;
    var k := KeyOf(es1[i]).value;
    assert k in Keyed(es1) && k in Keyed(es2);
    KeyHeldNotOnlyIn1(name, es1, es2, es1[i]);
    KeyHeldNotOnlyIn2(name, es1, es2, es2[j]);
  }

  /**
   * On the keyed path the diffs are in sorted key order, every one for a key
   * both keyed maps hold and with the field dictionaries of the two kept
   * entries, and a common key is reported exactly when those dictionaries differ.
   */
  lemma KeyedCommon(name: string, es1: seq<Element>, es2: seq<Element>)
    requires KeyedPath(name, es1, es2)
    ensures var r := CompareSection(name, es1, es2);
      StrictlySorted(DiffKeys(r.diffs))
    ensures var r := CompareSection(name, es1, es2);
      forall i :: 0 <= i < |r.diffs| ==>
        var k := r.diffs[i].key;
        k in Keyed(es1) && k in Keyed(es2)
        && r.diffs[i].dict1 == FieldDictOf(Keyed(es1)[k]) && r.diffs[i].dict2 == FieldDictOf(Keyed(es2)[k])
    ensures var r := CompareSection(name, es1, es2);
      forall k :: k in Keyed(es1) && k in Keyed(es2) ==>
        (k in DiffKeys(r.diffs) <==> FieldDictOf(Keyed(es1)[k]) != FieldDictOf(Keyed(es2)[k]))
  {
    KeyedPathResult(name, es1, es2);
    var both := SortedOf(Keyed(es1).Keys * Keyed(es2).Keys);
    KeyedDiffsEntries(both, Keyed(es1), Keyed(es2));
    KeyedDiffsKeys(both, Keyed(es1), Keyed(es2));
    KeyedDiffsSorted(both, Keyed(es1), Keyed(es2));
  }

  // ---------------------------------------------------------------------
  // The single-occurrence path
  // ---------------------------------------------------------------------

  /** With no keyed entry on either side the keyed comparison reports nothing. */
  lemma KeyedSectionEmpty(name: string, d1: map<string, Element>, d2: map<string, Element>)
    requires d1 == map[] && d2 == map[]
    ensures KeyedSection(name, d1, d2) == SectionResult(name, [], [], [])
  {
    assert d1.Keys - d2.Keys == {} && d2.Keys - d1.Keys == {} && d1.Keys * d2.Keys == {};
    NoElems(SortedOf({}));
  }

  /**
   * With no keyed entry on either side, a single-occurrence section with one
   * element in each file yields nothing exclusive and one `(single)` diff
   * exactly when the two field dictionaries differ.
   */
  lemma SingleBoth(name: string, es1: seq<Element>, es2: seq<Element>)
    requires Keyed(es1) == map[] && Keyed(es2) == map[] && name in SingleTags
    requires |es1| == 1 && |es2| == 1
    ensures var r := CompareSection(name, es1, es2);
      r.onlyIn1 == [] && r.onlyIn2 == []
      && (FieldDictOf(es1[0]) == FieldDictOf(es2[0]) ==> r.diffs == [])
      && (FieldDictOf(es1[0]) != FieldDictOf(es2[0]) ==>
            r.diffs == [DiffEntry(SingleKey, FieldDictOf(es1[0]), FieldDictOf(es2[0]))])
  {
    KeyedSectionEmpty(name, Keyed(es1), Keyed(es2));
  }

  /** One element in file 1 and none in file 2: exactly that element is exclusive to file 1. */
  lemma SingleOnlyFirst(name: string, es1: seq<Element>, es2: seq<Element>)
    requires Keyed(es1) == map[] && Keyed(es2) == map[] && name in SingleTags
    requires |es1| == 1 && |es2| == 0
    ensures var r := CompareSection(name, es1, es2);
      r.onlyIn1 == es1 && r.onlyIn2 == [] && r.diffs == []
  {
    KeyedSectionEmpty(name, Keyed(es1), Keyed(es2));
  }

  /** One element in file 2 and none in file 1: exactly that element is exclusive to file 2. */
  lemma SingleOnlySecond(name: string, es1: seq<Element>, es2: seq<Element>)
    requires Keyed(es1) == map[] && Keyed(es2) == map[] && name in SingleTags
    requires |es1| == 0 && |es2| == 1
    ensures var r := CompareSection(name, es1, es2);
      r.onlyIn1 == [] && r.onlyIn2 == es2 && r.diffs == []
  {
    SingleOnlyFirst(name, es2, es1);
    CompareSectionSwap(name, es1, es2);
  }

  /**
   * Every other keyless case reports nothing: a keyless section outside the
   * single-occurrence tags, or one with no element or more than one on a side.
   */
  lemma KeylessOtherwiseEmpty(name: string, es1: seq<Element>, es2: seq<Element>)
    requires Keyed(es1) == map[] && Keyed(es2) == map[]
    requires name !in SingleTags || (|es1| == 0 && |es2| == 0) || |es1| > 1 || |es2| > 1
    ensures var r := CompareSection(name, es1, es2);
      r.section == name && r.onlyIn1 == [] && r.onlyIn2 == [] && r.diffs == []
  {
    KeyedSectionEmpty(name, Keyed(es1), Keyed(es2));
  }

  /**
   * In a section as grouped from a file, where every element carries the
   * section's name as its tag, a single-occurrence tag has no key field, so
   * its keyed map is empty and the single-occurrence path is the one taken.
   */
  lemma {:induction false} SingleTagsUnkeyed(name: string, es: seq<Element>)
    requires name in SingleTags
    requires forall e :: e in es ==> StripNamespace(e.tag) == name
    ensures Keyed(es) == map[]
    decreases |es|
  {
    if es != [] {
      var init := es[..|es| - 1];
      var e := es[|es| - 1];
      assert e in es;
      KeyedAndSingleDisjoint(name);
      SingleTagsUnkeyed(name, init);
    }
  }

  /**
   * The single-occurrence comparison reads only the children, through
   * `elem_to_dict`: two elements of a `SINGLE_TAGS` section with the same
   * children are not reported, whatever their own texts.
   */
  lemma SingleOwnTextIgnored(name: string, tag: string, t1: Option<string>, t2: Option<string>, cs: seq<Element>)
    requires name in SingleTags && StripNamespace(tag) == name
    ensures var r := CompareSection(name, [Element(tag, t1, cs)], [Element(tag, t2, cs)]);
      r.onlyIn1 == [] && r.onlyIn2 == [] && r.diffs == []
  {
    SingleTagsUnkeyed(name, [Element(tag, t1, cs)]);
    SingleTagsUnkeyed(name, [Element(tag, t2, cs)]);
    SingleBoth(name, [Element(tag, t1, cs)], [Element(tag, t2, cs)]);
  }

  // ---------------------------------------------------------------------
  // The report: one record per section name, and the summary
  // ---------------------------------------------------------------------

  /** The section names of a list of results, in order. */
  function SectionNames(rs: seq<SectionResult>): (r: seq<string>)
    ensures |r| == |rs| && forall i :: 0 <= i < |rs| ==> r[i] == rs[i].section
  {
    seq(|rs|, i requires 0 <= i < |rs| => rs[i].section)
  }

  /** A section's record carries the section's name. */
  lemma CompareSectionName(name: string, es1: seq<Element>, es2: seq<Element>)
    ensures CompareSection(name, es1, es2).section == name
  {
  }

  /** The records name the sections in the order they are visited. */
  lemma {:induction false} SectionsForNames(s1: SectionMap, s2: SectionMap, names: seq<string>)
    ensures SectionNames(SectionsFor(s1, s2, names)) == names
  {
    var rs := SectionsFor(s1, s2, names);
    if names != [] {
      SectionsForAt(s1, s2, names, 0);
      forall i | 0 <= i < |names| ensures rs[i].section == names[i] {
        SectionsForAt(s1, s2, names, i);
        CompareSectionName(names[i], Lookup(s1, names[i]), Lookup(s2, names[i]));
      }
    }
  }

  /** The summary's keys are the names of the records. */
  lemma {:induction false} SummaryKeys(rs: seq<SectionResult>)
    ensures SummaryOf(rs).Keys == Elems(SectionNames(rs))
    decreases |rs|
  {
    if rs != [] {
      var init := rs[..|rs| - 1];
      var r := rs[|rs| - 1];
      SummaryKeys(init);
      assert SectionNames(rs) == SectionNames(init) + [r.section];
    }
  }

  /** With distinct names, a record's summary row holds the lengths of its three lists. */
  lemma {:induction false} SummaryRow(rs: seq<SectionResult>, i: nat)
    requires forall i, j :: 0 <= i < j < |rs| ==> rs[i].section != rs[j].section
    requires i < |rs|
    ensures rs[i].section in SummaryOf(rs)
    ensures SummaryOf(rs)[rs[i].section] == Counts(|rs[i].onlyIn1|, |rs[i].onlyIn2|, |rs[i].diffs|)
    decreases |rs|
  {
    var n := |rs| - 1;
    if i < n {
      var init := rs[..n];
      assert init[i] == rs[i];
      assert rs[i].section != rs[n].section;
      SummaryRow(init, i);
    }
  }

  /**
   * With distinct section names, the summary has one row per section, holding
   * the lengths of its three lists.
   */
  lemma {:induction false} SummaryRows(rs: seq<SectionResult>)
    requires forall i, j :: 0 <= i < j < |rs| ==> rs[i].section != rs[j].section
    ensures SummaryOf(rs).Keys == Elems(SectionNames(rs))
    ensures forall i :: 0 <= i < |rs| ==>
      SummaryOf(rs)[rs[i].section] == Counts(|rs[i].onlyIn1|, |rs[i].onlyIn2|, |rs[i].diffs|)
  {
    SummaryKeys(rs);
    forall i | 0 <= i < |rs|
      ensures SummaryOf(rs)[rs[i].section] == Counts(|rs[i].onlyIn1|, |rs[i].onlyIn2|, |rs[i].diffs|)
    {
      SummaryRow(rs, i);
    }
  }

  /**
   * `compare_sections` emits one record per section name of either file, in
   * sorted order of the names, each the comparison of that section's elements
   * (an absent section counting as empty); the summary has a row for every
   * such name, with the lengths of that record's three lists.
   */
  lemma CompareReport(s1: SectionMap, s2: SectionMap)
    ensures SectionNames(Compare(s1, s2)) == SortedOf(s1.Keys + s2.Keys)
    ensures |Compare(s1, s2)| == |s1.Keys + s2.Keys|
    ensures var rs := Compare(s1, s2);
      forall i :: 0 <= i < |rs| ==>
        rs[i] == CompareSection(rs[i].section, Lookup(s1, rs[i].section), Lookup(s2, rs[i].section))
    ensures SummaryOf(Compare(s1, s2)).Keys == s1.Keys + s2.Keys
    ensures var rs := Compare(s1, s2);
      forall i :: 0 <= i < |rs| ==>
        SummaryOf(rs)[rs[i].section] == Counts(|rs[i].onlyIn1|, |rs[i].onlyIn2|, |rs[i].diffs|)
  {
    var names := SortedOf(s1.Keys + s2.Keys);
    var rs := Compare(s1, s2);
    SectionsForNames(s1, s2, names);
    SortedLength(names);
    forall i | 0 <= i < |rs|
      ensures rs[i] == CompareSection(rs[i].section, Lookup(s1, rs[i].section), Lookup(s2, rs[i].section))
    {
      SectionsForAt(s1, s2, names, i);
    }
    forall i, j | 0 <= i < j < |rs| ensures rs[i].section != rs[j].section {
      assert Less(names[i], names[j]);
      LessIrreflexive(names[i]);
    }
    SummaryRows(rs);
  }
}
