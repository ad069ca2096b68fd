/**
 * The diff engine of `compare_sections`: per section, entries matched by key,
 * exclusive keys on each side, differing field dictionaries for common keys,
 * the single-occurrence path for keyless sections, and the summary counts.
 */
module Differ {
  import opened Wrappers
  import opened Xml
  import opened Config
  import opened Fields
  import opened Sections
  import opened StringOrder
  import opened FileNames

  /** A common key whose two field dictionaries differ. */
  datatype DiffEntry = DiffEntry(key: string, dict1: FieldDict, dict2: FieldDict)

  /** One entry of `report_data['sections']`. */
  datatype SectionResult = SectionResult(
    section: string, onlyIn1: seq<Element>, onlyIn2: seq<Element>, diffs: seq<DiffEntry>)

  /** One entry of `report_data['summary']`. */
  datatype Counts = Counts(onlyIn1: nat, onlyIn2: nat, diffs: nat)

  datatype Report = Report(
    summary: map<string, Counts>, sections: seq<SectionResult>, file1Base: string, file2Base: string)

  /** The key reported for a differing single-occurrence section. */
  const SingleKey: string := "(single)"

  /** `sections.get(section, [])`. */
  function Lookup(s: SectionMap, name: string): seq<Element> {
    if name in s then s[name] else []
  }

  function CountsOf(r: SectionResult): Counts {
    Counts(|r.onlyIn1|, |r.onlyIn2|, |r.diffs|)
  }

  /**
   * `{elem_key(e): e for e in es if elem_key(e) is not None}`: entries without
   * a key are dropped, and of two entries with one key the later one is kept.
   */
  function Keyed(es: seq<Element>): map<string, Element>
    decreases |es|
  {
    if es == [] then map[]
    else
      var m := Keyed(es[..|es| - 1]);
      var e := es[|es| - 1];
      match KeyOf(e)
      case None => m
      case Some(k) => m[k := e]
  }

  /** The keys the entries of `es` carry. */
  function KeysIn(es: seq<Element>): set<string> {
    set e | e in es && KeyOf(e).Some? :: KeyOf(e).value
  }

  /** One more entry of `es` taken into the keyed map. */
  lemma KeyedPrefix(es: seq<Element>, i: nat)
    requires i < |es|
    ensures Keyed(es[..i + 1]) == match KeyOf(es[i]) case None => Keyed(es[..i]) case Some(k) => Keyed(es[..i])[k := es[i]]
  {
    assert es[..i + 1][..i] == es[..i];
  }

  /** The keys of one more entry of `es`: those before, and its own key if it has one. */
  lemma KeysInPrefix(es: seq<Element>, i: nat)
    requires i < |es|
    ensures KeysIn(es[..i + 1]) == KeysIn(es[..i]) + match KeyOf(es[i]) case None => {} case Some(k) => {k}
  {
    assert forall x :: x in es[..i + 1] <==> x in es[..i] || x == es[i];
  }

  /** The keyed map's domain is the set of keys the entries carry. */
  lemma {:induction false} KeyedDomain(es: seq<Element>)
    ensures Keyed(es).Keys == KeysIn(es)
    decreases |es|
  {
    if es != [] {
      var n := |es| - 1;
      var init := es[..n];
      var e := es[n];
      KeyedPrefix(es, n);
      KeysInPrefix(es, n);
      assert es[..n + 1] == es;
      KeyedDomain(init);
      match KeyOf(e)
      case None =>
        assert Keyed(es) == Keyed(init);
      case Some(k) =>
        assert Keyed(es) == Keyed(init)[k := e];
        assert Keyed(es).Keys == Keyed(init).Keys + {k};
    }
  }

  /** The keyed map sends a key to an entry of `es` that carries it. */
  lemma {:induction false} KeyedValue(es: seq<Element>, k: string)
    requires k in Keyed(es)
    ensures Keyed(es)[k] in es && KeyOf(Keyed(es)[k]) == Some(k)
    decreases |es|
  {
    var n := |es| - 1;
    var init := es[..n];
    KeyedPrefix(es, n);
    assert es[..n + 1] == es;
    if KeyOf(es[n]) != Some(k) {
      assert k in Keyed(init) && Keyed(es)[k] == Keyed(init)[k];
      KeyedValue(init, k);
      assert Keyed(init)[k] in init;
    }
  }

  /** The keyed map holds exactly the keys of the keyed entries, each mapped to an entry with that key. */
  lemma {:induction false} KeyedKeys(es: seq<Element>)
    ensures Keyed(es).Keys == KeysIn(es)
    ensures forall k :: k in Keyed(es) ==> Keyed(es)[k] in es && KeyOf(Keyed(es)[k]) == Some(k)
  {
    KeyedDomain(es);
    forall k | k in Keyed(es) ensures Keyed(es)[k] in es && KeyOf(Keyed(es)[k]) == Some(k) {
      KeyedValue(es, k);
    }
  }

  /** Last wins: an entry no later entry shares a key with is the one kept. */
  lemma {:induction false} KeyedLastWins(es: seq<Element>, i: nat)
    requires i < |es| && KeyOf(es[i]).Some?
    requires forall j :: i < j < |es| ==> KeyOf(es[j]) != KeyOf(es[i])
    ensures KeyOf(es[i]).value in Keyed(es) && Keyed(es)[KeyOf(es[i]).value] == es[i]
    decreases |es|
  {
    var n := |es| - 1;
    var init := es[..n];
    var ki := KeyOf(es[i]).value;
    KeyedPrefix(es, n);
    assert es[..n + 1] == es;
    if i == n {
      assert Keyed(es) == Keyed(init)[ki := es[n]];
    } else {
      assert init[i] == es[i];
      forall j | i < j < n ensures KeyOf(init[j]) != KeyOf(init[i]) {
        assert init[j] == es[j];
      }
      KeyedLastWins(init, i);
      assert ki in Keyed(init) && Keyed(init)[ki] == es[i];
      match KeyOf(es[n])
      case None =>
        assert Keyed(es) == Keyed(init);
      case Some(kn) =>
        assert kn != ki;
        assert Keyed(es) == Keyed(init)[kn := es[n]];
    }
  }

  /** `[d[k] for k in ks]`. */
  function ValuesAt(d: map<string, Element>, ks: seq<string>): (r: seq<Element>)
    requires forall k :: k in ks ==> k in d
    ensures |r| == |ks| && forall i :: 0 <= i < |ks| ==> r[i] == d[ks[i]]
  {
    seq(|ks|, i requires 0 <= i < |ks| => d[ks[i]])
  }

  /** The loop over the sorted common keys: one entry per key whose dictionaries differ. */
  function KeyedDiffs(ks: seq<string>, d1: map<string, Element>, d2: map<string, Element>): seq<DiffEntry>
    requires forall k :: k in ks ==> k in d1 && k in d2
    decreases |ks|
  {
    if ks == [] then []
    else
      var k := ks[|ks| - 1];
      var r := KeyedDiffs(ks[..|ks| - 1], d1, d2);
      var f1 := FieldDictOf(d1[k]);
      var f2 := FieldDictOf(d2[k]);
      if f1 != f2 then r + [DiffEntry(k, f1, f2)] else r
  }

  /** The keyed comparison of one section: exclusive keys on each side and the differing common keys. */
  ghost function KeyedSection(name: string, d1: map<string, Element>, d2: map<string, Element>): SectionResult {
    SectionResult(name,
      ValuesAt(d1, SortedOf(d1.Keys - d2.Keys)),
      ValuesAt(d2, SortedOf(d2.Keys - d1.Keys)),
      KeyedDiffs(SortedOf(d1.Keys * d2.Keys), d1, d2))
  }

  /** The single-occurrence step: what it appends to `only_in_1`, `only_in_2` and `diffs` of `r`. */
  function WithSingle(r: SectionResult, es1: seq<Element>, es2: seq<Element>): SectionResult {
    if |es1| == 1 && |es2| == 1 then
      var f1 := FieldDictOf(es1[0]);
      var f2 := FieldDictOf(es2[0]);
      if f1 != f2 then r.(diffs := r.diffs + [DiffEntry(SingleKey, f1, f2)]) else r
    else if |es1| == 1 && |es2| == 0 then r.(onlyIn1 := r.onlyIn1 + [es1[0]])
    else if |es2| == 1 && |es1| == 0 then r.(onlyIn2 := r.onlyIn2 + [es2[0]])
    else r
  }

  /** Whether the single-occurrence step runs: no keyed entry on either side, and a SINGLE_TAGS section. */
  predicate SingleApplies(name: string, d1: map<string, Element>, d2: map<string, Element>) {
    d1 == map[] && d2 == map[] && name in SingleTags
  }

  /** The body of `compare_sections`' loop for one section. */
  ghost function CompareSection(name: string, es1: seq<Element>, es2: seq<Element>): SectionResult {
    var d1 := Keyed(es1);
    var d2 := Keyed(es2);
    var r := KeyedSection(name, d1, d2);
    if SingleApplies(name, d1, d2) then WithSingle(r, es1, es2) else r
  }

  /** The section results for `names`, in that order. */
  ghost function SectionsFor(s1: SectionMap, s2: SectionMap, names: seq<string>): seq<SectionResult>
    decreases |names|
  {
    if names == [] then []
    else
      var name := names[|names| - 1];
      SectionsFor(s1, s2, names[..|names| - 1]) + [CompareSection(name, Lookup(s1, name), Lookup(s2, name))]
  }

  /** What `compare_sections` reports, section by section, in sorted order of the names. */
  ghost function Compare(s1: SectionMap, s2: SectionMap): seq<SectionResult> {
    SectionsFor(s1, s2, SortedOf(s1.Keys + s2.Keys))
  }

  lemma {:induction false} SectionsForAt(s1: SectionMap, s2: SectionMap, names: seq<string>, i: nat)
    requires i < |names|
    ensures |SectionsFor(s1, s2, names)| == |names|
    ensures SectionsFor(s1, s2, names)[i] == CompareSection(names[i], Lookup(s1, names[i]), Lookup(s2, names[i]))
    decreases |names|
  {
    if i < |names| - 1 {
      SectionsForAt(s1, s2, names[..|names| - 1], i);
    } else if i > 0 {
      SectionsForAt(s1, s2, names[..|names| - 1], 0);
    } else {
      assert names[..|names| - 1] == [];
    }
  }

  /** `report_data['summary']` after the sections `rs` have been visited. */
  function SummaryOf(rs: seq<SectionResult>): map<string, Counts>
    decreases |rs|
  {
    if rs == [] then map[]
    else
      var r := rs[|rs| - 1];
      SummaryOf(rs[..|rs| - 1])[r.section := CountsOf(r)]
  }

  /** The keys of a list of differing entries. */
  function DiffKeys(ds: seq<DiffEntry>): (r: seq<string>)
    ensures |r| == |ds| && forall i :: 0 <= i < |ds| ==> r[i] == ds[i].key
  {
    seq(|ds|, i requires 0 <= i < |ds| => ds[i].key)
  }

  // ---------------------------------------------------------------------
  // The executable pipeline
  // ---------------------------------------------------------------------

  /** The keyed-map comprehension, one `elem_key` call per entry. */
  method KeyedMap(es: seq<Element>) returns (d: map<string, Element>)
    ensures d == Keyed(es)
  {
    d := map[];
    for i := 0 to |es|
      invariant d == Keyed(es[..i])
    {
      KeyedPrefix(es, i);
      var k := ElemKey(es[i]);
      if k.Some? {
        d := d[k.value := es[i]];
      }
    }
    assert es[..|es|] == es;
  }

  /** The diffs loop over the sorted common keys. */
  method DiffCommon(keys: seq<string>, dict1: map<string, Element>, dict2: map<string, Element>)
    returns (diffs: seq<DiffEntry>)
    requires forall k :: k in keys ==> k in dict1 && k in dict2
    ensures diffs == KeyedDiffs(keys, dict1, dict2)
  {
    diffs := [];
    for i := 0 to |keys|
      invariant diffs == KeyedDiffs(keys[..i], dict1, dict2)
    {
      var k := keys[i];
      assert keys[..i + 1][..i] == keys[..i] && keys[..i + 1][i] == k;
      var d1 := ElemToDict(dict1[k]);
      var d2 := ElemToDict(dict2[k]);
      if d1 != d2 {
        diffs := diffs + [DiffEntry(k, d1, d2)];
      }
    }
    assert keys[..|keys|] == keys;
  }

  /** The keyed part of one iteration: exclusive entries and the diffs of the common keys. */
  method CompareKeyed(name: string, dict1: map<string, Element>, dict2: map<string, Element>)
    returns (r: SectionResult)
    ensures r == KeyedSection(name, dict1, dict2)
  {
    var keys1 := dict1.Keys;
    var keys2 := dict2.Keys;
    var only1Keys := SortStrings(keys1 - keys2);
    var only2Keys := SortStrings(keys2 - keys1);
    var bothKeys := SortStrings(keys1 * keys2);
    var only1 := ValuesAt(dict1, only1Keys);
    var only2 := ValuesAt(dict2, only2Keys);
    var diffs := DiffCommon(bothKeys, dict1, dict2);
    r := SectionResult(name, only1, only2, diffs);
  }

  /** The single-occurrence step, appending to the lists of `r`. */
  method SingleStep(r: SectionResult, es1: seq<Element>, es2: seq<Element>) returns (r': SectionResult)
    ensures r' == WithSingle(r, es1, es2)
  {
    var only1 := r.onlyIn1;
    var only2 := r.onlyIn2;
    var diffs := r.diffs;
    if |es1| == 1 && |es2| == 1 {
      var d1 := ElemToDict(es1[0]);
      var d2 := ElemToDict(es2[0]);
      if d1 != d2 {
        diffs := diffs + [DiffEntry(SingleKey, d1, d2)];
      }
    } else if |es1| == 1 && |es2| == 0 {
      only1 := only1 + [es1[0]];
    } else if |es2| == 1 && |es1| == 0 {
      only2 := only2 + [es2[0]];
    }
    r' := SectionResult(r.section, only1, only2, diffs);
  }

  /** One iteration of `compare_sections`' loop. */
  method CompareOne(name: string, es1: seq<Element>, es2: seq<Element>) returns (r: SectionResult)
    ensures r == CompareSection(name, es1, es2) && r.section == name
  {
    var dict1 := KeyedMap(es1);
    var dict2 := KeyedMap(es2);
    r := CompareKeyed(name, dict1, dict2);
    if dict1 == map[] && dict2 == map[] {
      if name in SingleTags {
        r := SingleStep(r, es1, es2);
      }
    }
  }

  lemma SectionsForSnoc(s1: SectionMap, s2: SectionMap, names: seq<string>, i: nat)
    requires i < |names|
    ensures SectionsFor(s1, s2, names[..i + 1])
      == SectionsFor(s1, s2, names[..i]) + [CompareSection(names[i], Lookup(s1, names[i]), Lookup(s2, names[i]))]
  {
    assert names[..i + 1][..i] == names[..i];
  }

  lemma SummaryOfSnoc(rs: seq<SectionResult>, r: SectionResult)
    ensures SummaryOf(rs + [r]) == SummaryOf(rs)[r.section := CountsOf(r)]
  {
    assert (rs + [r])[..|rs|] == rs;
  }

  /** The loop of `compare_sections` over the given section names. */
  method CompareAll(s1: SectionMap, s2: SectionMap, names: seq<string>)
    returns (results: seq<SectionResult>, summary: map<string, Counts>)
    ensures results == SectionsFor(s1, s2, names)
    ensures summary == SummaryOf(results)
  {
    summary := map[];
    results := [];
    assert names[..0] == [];
    for i := 0 to |names|
      invariant results == SectionsFor(s1, s2, names[..i])
      invariant summary == SummaryOf(results)
    {
      var name := names[i];
      var r := CompareOne(name, Lookup(s1, name), Lookup(s2, name));
      SectionsForSnoc(s1, s2, names, i);
      SummaryOfSnoc(results, r);
      summary := summary[name := Counts(|r.onlyIn1|, |r.onlyIn2|, |r.diffs|)];
      results := results + [r];
    }
    assert names[..|names|] == names;
  }

  /** `compare_sections(sections1, sections2, file1, file2)`. */
  method CompareSections(s1: SectionMap, s2: SectionMap, file1: string, file2: string) returns (report: Report)
    ensures report.sections == Compare(s1, s2)
    ensures report.summary == SummaryOf(report.sections)
    ensures report.file1Base == BaseFilenameOf(file1) && report.file2Base == BaseFilenameOf(file2)
  {
    var names := SortStrings(s1.Keys + s2.Keys);
    var base1 := BaseFilename(file1);
    var base2 := BaseFilename(file2);
    var results, summary := CompareAll(s1, s2, names);
    report := Report(summary, results, base1, base2);
  }
}
