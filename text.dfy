/**
 * String helpers the pipeline relies on: whitespace trimming (`str.strip()`),
 * namespace stripping, first/last occurrence splits, suffix tests and ASCII
 * lower-casing. Whitespace is Python's `str.isspace()` restricted to ASCII:
 * space, the controls 0x09-0x0D and the separators 0x1C-0x1F.
 */
module Text {
  import opened Wrappers

  predicate IsSpace(c: char) {
    c == ' ' || ('\t' <= c <= '\r') || ('\U{1C}' <= c <= '\U{1F}')
  }

  /** Index of the first `c` in `s`, or None when `s` has none. */
  function IndexOf(s: string, c: char): (r: Option<nat>)
    ensures r.None? <==> c !in s
    ensures r.Some? ==> r.value < |s| && s[r.value] == c && c !in s[..r.value]
  {
    if |s| == 0 then None
    else if s[0] == c then Some(0)
    else
      match IndexOf(s[1..], c)
      case None => assert s == [s[0]] + s[1..]; None
      case Some(i) => assert s[..i + 1] == [s[0]] + s[1..][..i]; Some(i + 1)
  }

  /**
   * `tag.split('}', 1)[1]` when the tag holds a `}`, the tag itself otherwise:
   * ElementTree spells a qualified name `{uri}local`.
   */
  function StripNamespace(tag: string): string {
    match IndexOf(tag, '}')
    case None => tag
    case Some(i) => tag[i + 1..]
  }

  /**
   * StripNamespace keeps a tag without `}` and otherwise returns exactly the
   * text after the first `}`: the tag is a `}`-free prefix, `}`, the result.
   */
  lemma StripNamespaceCharacterized(tag: string)
    ensures '}' !in tag ==> StripNamespace(tag) == tag
    ensures '}' in tag ==>
      var r := StripNamespace(tag);
      |r| < |tag| && tag == tag[..|tag| - |r| - 1] + "}" + r && '}' !in tag[..|tag| - |r| - 1]
  {
    match IndexOf(tag, '}')
    case None =>
    case Some(i) => assert tag == tag[..i] + "}" + tag[i + 1..];
  }

  /** A prefix free of `}` followed by `}` is exactly what StripNamespace removes. */
  lemma StripNamespaceOfQualified(prefix: string, local: string)
    requires '}' !in prefix
    ensures StripNamespace(prefix + "}" + local) == local
  {
    var tag := prefix + "}" + local;
    assert tag[..|prefix|] == prefix;
    IndexOfFirst(tag, '}', |prefix|);
    assert tag[|prefix| + 1..] == local;
  }

  /** The first occurrence is the only index with no earlier occurrence. */
  lemma {:induction false} IndexOfFirst(s: string, c: char, i: nat)
    requires i < |s| && s[i] == c && c !in s[..i]
    ensures IndexOf(s, c) == Some(i)
  {
    if i > 0 {
      assert s[0] in s[..i];
      var t := s[1..][..i - 1];
      forall j | 0 <= j < |t|
        ensures t[j] != c
      {
        assert s[..i][j + 1] == t[j];
      }
      IndexOfFirst(s[1..], c, i - 1);
    }
  }

  /** `s.split(c)[0]`: the text before the first `c`, or all of `s`. */
  function BeforeFirst(s: string, c: char): (r: string)
    ensures c !in r && r <= s
    ensures |r| < |s| ==> s[|r|] == c
  {
    match IndexOf(s, c)
    case None => s
    case Some(i) => s[..i]
  }

  /** The text after the last `c` in `s`, or all of `s` when it has none. */
  function AfterLast(s: string, c: char): (r: string)
    ensures c !in r && |r| <= |s| && r == s[|s| - |r|..]
    ensures |r| < |s| ==> s[|s| - |r| - 1] == c
  {
    if |s| == 0 then ""
    else if s[|s| - 1] == c then ""
    else
      var r := AfterLast(s[..|s| - 1], c) + [s[|s| - 1]];
      assert s == s[..|s| - 1] + [s[|s| - 1]];
      r
  }

  /** Python's `s.endswith(suffix)`. */
  predicate EndsWith(s: string, suffix: string) {
    |suffix| <= |s| && s[|s| - |suffix|..] == suffix
  }

  function LowerChar(c: char): char {
    if 'A' <= c <= 'Z' then (c as int + 32) as char else c
  }

  /** `s.lower()` over ASCII letters; every other character is kept. */
  function Lower(s: string): (r: string)
    ensures |r| == |s|
    ensures forall i :: 0 <= i < |s| ==> r[i] == LowerChar(s[i])
  {
    if |s| == 0 then "" else [LowerChar(s[0])] + Lower(s[1..])
  }

  /** Number of leading whitespace characters. */
  function LeadingSpaces(s: string): (n: nat)
    ensures n <= |s|
    ensures forall i :: 0 <= i < n ==> IsSpace(s[i])
    ensures n == |s| || !IsSpace(s[n])
  {
    if |s| > 0 && IsSpace(s[0]) then 1 + LeadingSpaces(s[1..]) else 0
  }

  /** `s` without its trailing whitespace. */
  function TrimEnd(s: string): (r: string)
    ensures r <= s
    ensures forall i :: |r| <= i < |s| ==> IsSpace(s[i])
    ensures r == [] || !IsSpace(r[|r| - 1])
  {
    if |s| > 0 && IsSpace(s[|s| - 1]) then TrimEnd(s[..|s| - 1]) else s
  }

  /**
   * `s.strip()`: the one slice of `s` that neither begins nor ends with
   * whitespace and has only whitespace around it.
   */
  function Trim(s: string): (r: string)
    ensures r == [] || (!IsSpace(r[0]) && !IsSpace(r[|r| - 1]))
    ensures var n := LeadingSpaces(s);
      n + |r| <= |s| && r == s[n..n + |r|] &&
      (forall i :: n + |r| <= i < |s| ==> IsSpace(s[i]))
  {
    var n := LeadingSpaces(s);
    var r := TrimEnd(s[n..]);
    assert r == s[n..n + |r|];
    r
  }
}
