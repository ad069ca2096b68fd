/**
 * `base_filename`: the short name shown for each compared file. The path's
 * last component (`os.path.basename` on POSIX: the text after the last `/`)
 * loses the first matching metadata suffix and is then cut at its first `.`.
 */
module FileNames {
  import opened Text

  /** The suffixes tried, in this order; at most one is removed. */
  const MetaSuffixes: seq<string> := [".profile-meta.xml", ".permissionset-meta.xml", ".xml"]

  function Basename(path: string): string {
    AfterLast(path, '/')
  }

  /** `base` without the first suffix of `exts` that it ends with. */
  function StripFirstSuffix(base: string, exts: seq<string>): (r: string)
    decreases |exts|
  {
    if exts == [] then base
    else if EndsWith(base, exts[0]) then base[..|base| - |exts[0]|]
    else StripFirstSuffix(base, exts[1..])
  }

  /** `base_filename(fname)`. */
  function BaseFilenameOf(fname: string): string {
    BeforeFirst(StripFirstSuffix(Basename(fname), MetaSuffixes), '.')
  }

  /** With no matching suffix the name is kept. */
  lemma {:induction false} StripFirstSuffixNone(base: string, exts: seq<string>)
    requires forall i :: 0 <= i < |exts| ==> !EndsWith(base, exts[i])
    ensures StripFirstSuffix(base, exts) == base
    decreases |exts|
  {
    if exts != [] {
      var tail := exts[1..];
      forall i | 0 <= i < |tail| ensures !EndsWith(base, tail[i]) {
        assert tail[i] == exts[i + 1];
      }
      StripFirstSuffixNone(base, tail);
    }
  }

  /** When `exts[i]` is the first suffix `base` ends with, exactly that suffix is removed. */
  lemma {:induction false} StripFirstSuffixAt(base: string, exts: seq<string>, i: nat)
    requires i < |exts| && EndsWith(base, exts[i])
    requires forall j :: 0 <= j < i ==> !EndsWith(base, exts[j])
    ensures StripFirstSuffix(base, exts) == base[..|base| - |exts[i]|]
    decreases i
  {
    if i > 0 {
      var tail := exts[1..];
      assert tail[i - 1] == exts[i];
      forall j | 0 <= j < i - 1 ensures !EndsWith(base, tail[j]) {
        assert tail[j] == exts[j + 1];
      }
      StripFirstSuffixAt(base, tail, i - 1);
    }
  }

  /**
   * With no matching suffix the name is kept; otherwise exactly the first
   * matching suffix is removed.
   */
  lemma {:induction false} StripFirstSuffixSpec(base: string, exts: seq<string>)
    ensures (forall i :: 0 <= i < |exts| ==> !EndsWith(base, exts[i])) ==>
      StripFirstSuffix(base, exts) == base
    ensures forall i :: (0 <= i < |exts| && EndsWith(base, exts[i]) &&
      (forall j :: 0 <= j < i ==> !EndsWith(base, exts[j]))) ==>
      StripFirstSuffix(base, exts) == base[..|base| - |exts[i]|]
  {
    if forall i :: 0 <= i < |exts| ==> !EndsWith(base, exts[i]) {
      StripFirstSuffixNone(base, exts);
    }
    forall i | 0 <= i < |exts| && EndsWith(base, exts[i]) && (forall j :: 0 <= j < i ==> !EndsWith(base, exts[j]))
      ensures StripFirstSuffix(base, exts) == base[..|base| - |exts[i]|]
    {
      StripFirstSuffixAt(base, exts, i);
    }
  }

  /**
   * The short name has no `.` and is a prefix of the basename. Since every
   * suffix starts with `.`, removing it never changes what the cut at the
   * first `.` keeps.
   */
  lemma BaseFilenameShape(fname: string)
    ensures '.' !in BaseFilenameOf(fname)
    ensures BaseFilenameOf(fname) <= Basename(fname)
    ensures BaseFilenameOf(fname) == BeforeFirst(Basename(fname), '.')
  {
    MetaSuffixesDotted();
    StrippedCut(Basename(fname), MetaSuffixes);
  }

  /** Every metadata suffix starts with `.`. */
  lemma MetaSuffixesDotted()
    ensures forall i :: 0 <= i < |MetaSuffixes| ==> MetaSuffixes[i] != [] && MetaSuffixes[i][0] == '.'
  {
  }

  /** Stripping suffixes that start with `.` does not change the cut at the first `.`. */
  lemma {:induction false} StrippedCut(base: string, exts: seq<string>)
    requires forall i :: 0 <= i < |exts| ==> exts[i] != [] && exts[i][0] == '.'
    ensures BeforeFirst(StripFirstSuffix(base, exts), '.') == BeforeFirst(base, '.')
  {
    var s := StripFirstSuffix(base, exts);
    SuffixStripped(base, exts);
    if s != base {
      BeforeFirstOfPrefix(s, base, '.');
    }
  }

  /** Cutting at the first `c` ignores a tail that itself starts with `c`. */
  lemma BeforeFirstOfPrefix(s: string, b: string, c: char)
    requires s <= b && |s| < |b| && b[|s|] == c
    ensures BeforeFirst(s, c) == BeforeFirst(b, c)
  {
    match IndexOf(s, c)
    case Some(i) =>
      assert b[..i] == s[..i];
      IndexOfFirst(b, c, i);
    case None =>
      assert b[..|s|] == s;
      IndexOfFirst(b, c, |s|);
  }

  /** The result of stripping is the name itself, or the name minus a suffix that starts with `.`. */
  lemma {:induction false} SuffixStripped(base: string, exts: seq<string>)
    requires forall i :: 0 <= i < |exts| ==> exts[i] != [] && exts[i][0] == '.'
    ensures StripFirstSuffix(base, exts) <= base
    ensures StripFirstSuffix(base, exts) != base ==>
      |StripFirstSuffix(base, exts)| < |base| && base[|StripFirstSuffix(base, exts)|] == '.'
    decreases |exts|
  {
    if exts != [] && !EndsWith(base, exts[0]) {
      SuffixStripped(base, exts[1..]);
    }
  }

  /** The suffix loop of `base_filename`: it breaks at the first suffix `name` ends with. */
  method StripSuffixes(name: string, exts: seq<string>) returns (base: string)
    ensures base == StripFirstSuffix(name, exts)
  {
    base := name;
    var i := 0;
    while i < |exts|
      invariant 0 <= i <= |exts|
      invariant base == name
      invariant StripFirstSuffix(name, exts) == StripFirstSuffix(name, exts[i..])
    {
      assert exts[i..][1..] == exts[i + 1..];
      if EndsWith(base, exts[i]) {
        base := base[..|base| - |exts[i]|];
        return;
      }
      i := i + 1;
    }
    assert exts[i..] == [];
  }

  /** `base_filename`: the basename, without its first metadata suffix, cut at its first `.`. */
  method BaseFilename(fname: string) returns (base: string)
    ensures base == BaseFilenameOf(fname)
  {
    base := StripSuffixes(Basename(fname), MetaSuffixes);
    base := BeforeFirst(base, '.');
  }
}
