/**
 * Reading one entry: its field dictionary (`elem_to_dict`) and its key
 * (`elem_key`).
 */
module Fields {
  import opened Wrappers
  import opened Text
  import opened Xml
  import opened Config

  /** A dictionary value: a single text, or a list once the tag repeats. */
  datatype FieldValue = Str(text: string) | Lst(texts: seq<string>)

  type FieldDict = map<string, FieldValue>

  /** One step of `elem_to_dict`'s loop: record `v` under `key`. */
  function AddField(d: FieldDict, key: string, v: string): FieldDict {
    if key !in d then d[key := Str(v)]
    else
      match d[key]
      case Str(s) => d[key := Lst([s, v])]
      case Lst(vs) => d[key := Lst(vs + [v])]
  }

  /** The dictionary `elem_to_dict` has built after visiting `cs` in order. */
  function DictOf(cs: seq<Element>): FieldDict
    decreases |cs|
  {
    if cs == [] then map[]
    else
      var last := cs[|cs| - 1];
      AddField(DictOf(cs[..|cs| - 1]), StripNamespace(last.tag), TrimmedText(last))
  }

  /** The field dictionary of an entry. */
  function FieldDictOf(e: Element): FieldDict {
    DictOf(e.children)
  }

  /** The value a tag with texts `ts` (at least one) ends up with. */
  function FromTexts(ts: seq<string>): FieldValue
    requires ts != []
  {
    if |ts| == 1 then Str(ts[0]) else Lst(ts)
  }

  /** One loop step keeps "k is a key exactly when it has texts, and maps to FromTexts of them". */
  lemma AddFieldStep(d: FieldDict, key: string, v: string, k: string, ts: seq<string>)
    requires k in d <==> ts != []
    requires k in d ==> ts != [] && d[k] == FromTexts(ts)
    ensures var d' := AddField(d, key, v);
      var ts' := if key == k then ts + [v] else ts;
      (k in d' <==> ts' != []) && (k in d' ==> ts' != [] && d'[k] == FromTexts(ts'))
  {
    if key == k && k in d {
      assert |ts + [v]| != 1;
      match d[k]
      case Str(s) => assert ts == [s] && [s] + [v] == [s, v];
      case Lst(vs) => assert vs == ts;
    }
  }

  lemma DictOfSnoc(init: seq<Element>, last: Element)
    ensures DictOf(init + [last]) == AddField(DictOf(init), StripNamespace(last.tag), TrimmedText(last))
  {
    assert (init + [last])[..|init|] == init;
  }

  /** One more child of `cs` visited. */
  lemma DictOfPrefix(cs: seq<Element>, i: nat)
    requires i < |cs|
    ensures DictOf(cs[..i + 1]) == AddField(DictOf(cs[..i]), StripNamespace(cs[i].tag), TrimmedText(cs[i]))
  {
    assert cs[..i + 1][..i] == cs[..i];
  }

  /**
   * A key of the dictionary is exactly a tag with texts; a tag seen once maps
   * to its trimmed text, a tag seen k >= 2 times to the list of its k trimmed
   * texts in child order.
   */
  lemma {:induction false} DictOfAt(cs: seq<Element>, k: string)
    ensures k in DictOf(cs) <==> TextsOf(cs, k) != []
    ensures k in DictOf(cs) ==> TextsOf(cs, k) != [] && DictOf(cs)[k] == FromTexts(TextsOf(cs, k))
    decreases |cs|
  {
    if cs != [] {
      var init := cs[..|cs| - 1];
      var last := cs[|cs| - 1];
      assert cs == init + [last];
      DictOfAt(init, k);
      DictOfSnoc(init, last);
      NamedSnoc(init, last, k);
      AddFieldStep(DictOf(init), StripNamespace(last.tag), TrimmedText(last), k, TextsOf(init, k));
    }
  }

  /** DictOfAt for every key at once. */
  lemma DictOfCharacterized(cs: seq<Element>)
    ensures DictOf(cs).Keys == TagsOf(cs)
    ensures forall k :: k in DictOf(cs) ==>
      TextsOf(cs, k) != [] && DictOf(cs)[k] == FromTexts(TextsOf(cs, k))
  {
    forall k ensures k in DictOf(cs) <==> k in TagsOf(cs) {
      DictOfAt(cs, k);
      NamedPresent(cs, k);
    }
    forall k | k in DictOf(cs)
      ensures TextsOf(cs, k) != [] && DictOf(cs)[k] == FromTexts(TextsOf(cs, k))
    {
      DictOfAt(cs, k);
    }
  }

  /** A tag that occurs among the children is always a key of the dictionary. */
  lemma HasEveryChildTag(e: Element, i: nat)
    requires i < |e.children|
    ensures StripNamespace(e.children[i].tag) in FieldDictOf(e)
  {
    DictOfCharacterized(e.children);
    assert e.children[i] in e.children;
  }

  /**
   * The body of `elem_to_dict`'s loop: a new tag gets its text; a repeated
   * tag's single text is first promoted to a one-element list, then the new
   * text is appended.
   */
  method AddChild(d: FieldDict, key: string, text: string) returns (d': FieldDict)
    ensures d' == AddField(d, key, text)
  {
    d' := d;
    if key in d' {
      if d'[key].Str? {
        d' := d'[key := Lst([d'[key].text])];
        assert [d[key].text] + [text] == [d[key].text, text];
      }
      d' := d'[key := Lst(d'[key].texts + [text])];
    } else {
      d' := d'[key := Str(text)];
    }
  }

  /** `elem_to_dict(elem)`. */
  method ElemToDict(e: Element) returns (d: FieldDict)
    ensures d == FieldDictOf(e)
  {
    d := map[];
    for i := 0 to |e.children|
      invariant d == DictOf(e.children[..i])
    {
      var child := e.children[i];
      DictOfPrefix(e.children, i);
      d := AddChild(d, StripNamespace(child.tag), TrimmedText(child));
    }
    assert e.children[..|e.children|] == e.children;
  }

  /** The trimmed text of the first of `cs` whose stripped tag is `field`. */
  function FirstMatch(cs: seq<Element>, field: string): Option<string>
    decreases |cs|
  {
    if cs == [] then None
    else if StripNamespace(cs[0].tag) == field then Some(TrimmedText(cs[0]))
    else FirstMatch(cs[1..], field)
  }

  /** The key `elem_key` computes: None for an unconfigured tag or a missing key field. */
  function KeyOf(e: Element): Option<string> {
    match KeyFieldOf(StripNamespace(e.tag))
    case None => None
    case Some(f) => FirstMatch(e.children, f)
  }

  /** No child with the key field's tag means no match, and conversely. */
  lemma {:induction false} FirstMatchNone(cs: seq<Element>, field: string)
    ensures FirstMatch(cs, field).None? <==>
      forall i :: 0 <= i < |cs| ==> StripNamespace(cs[i].tag) != field
    decreases |cs|
  {
    if cs != [] {
      FirstMatchNone(cs[1..], field);
      assert forall i :: 1 <= i < |cs| ==> cs[i] == cs[1..][i - 1];
    }
  }

  /** `cs[i]` is the first of `cs` whose stripped tag is `field`. */
  predicate FirstWith(cs: seq<Element>, field: string, i: nat) {
    i < |cs| && StripNamespace(cs[i].tag) == field &&
    forall j :: 0 <= j < i ==> StripNamespace(cs[j].tag) != field
  }

  /** The match found is that of the first child carrying the key field's tag. */
  lemma {:induction false} FirstMatchAt(cs: seq<Element>, field: string, i: nat)
    requires FirstWith(cs, field, i)
    ensures FirstMatch(cs, field) == Some(TrimmedText(cs[i]))
    decreases i
  {
    if i > 0 {
      var tail := cs[1..];
      assert tail[i - 1] == cs[i];
      forall j | 0 <= j < i - 1 ensures StripNamespace(tail[j].tag) != field {
        assert tail[j] == cs[j + 1];
      }
      FirstMatchAt(tail, field, i - 1);
    }
  }

  /**
   * The key search finds the first of the texts the dictionary builder
   * collects for that tag: none when there are none.
   */
  lemma FirstMatchFirstText(cs: seq<Element>, field: string)
    ensures FirstMatch(cs, field) == if TextsOf(cs, field) == [] then None else Some(TextsOf(cs, field)[0])
  {
    var ts := TextsOf(cs, field);
    NamedExactly(cs, field);
    if ts == [] {
      FirstMatchNone(cs, field);
    } else {
      var ix := Positions(cs, field);
      var p := ix[0];
      NamedAt(cs, field, 0);
      TextsOfAt(cs, field, 0);
      forall j | 0 <= j < p ensures j !in ix {
        forall k | 0 <= k < |ix| ensures ix[k] != j {
          if k > 0 {
            PositionsIncrease(cs, field, 0, k);
          }
        }
      }
      FirstMatchAt(cs, field, p);
    }
  }

  /** Equal field values come from text lists with the same first text. */
  lemma FromTextsFirst(ts1: seq<string>, ts2: seq<string>)
    requires ts1 != [] && ts2 != [] && FromTexts(ts1) == FromTexts(ts2)
    ensures ts1[0] == ts2[0]
  {
    if |ts1| != 1 {
      assert ts1 == ts2;
    }
  }

  /**
   * Entries of the same stripped tag whose field dictionaries are equal have
   * the same key: the key is the first text the dictionary holds for the key field.
   */
  lemma SameDictSameKey(e1: Element, e2: Element)
    requires StripNamespace(e1.tag) == StripNamespace(e2.tag)
    requires FieldDictOf(e1) == FieldDictOf(e2)
    ensures KeyOf(e1) == KeyOf(e2)
  {
    match KeyFieldOf(StripNamespace(e1.tag))
    case None =>
    case Some(f) =>
      FirstMatchFirstText(e1.children, f);
      FirstMatchFirstText(e2.children, f);
      DictOfAt(e1.children, f);
      DictOfAt(e2.children, f);
      if TextsOf(e1.children, f) != [] {
        FromTextsFirst(TextsOf(e1.children, f), TextsOf(e2.children, f));
      }
  }

  /**
   * `elem_key` returns None exactly when the stripped tag has no key field or
   * no child carries it; otherwise the first such child's trimmed text, which
   * is '' for a child without text.
   */
  lemma KeyOfCharacterized(e: Element)
    ensures var field := KeyFieldOf(StripNamespace(e.tag));
      KeyOf(e).None? <==>
        field.None? ||
        forall i :: 0 <= i < |e.children| ==> StripNamespace(e.children[i].tag) != field.value
    ensures var field := KeyFieldOf(StripNamespace(e.tag));
      forall i: nat :: field.Some? && FirstWith(e.children, field.value, i) ==>
        KeyOf(e) == Some(TrimmedText(e.children[i]))
  {
    var field := KeyFieldOf(StripNamespace(e.tag));
    if field.Some? {
      FirstMatchNone(e.children, field.value);
      forall i: nat | FirstWith(e.children, field.value, i)
        ensures KeyOf(e) == Some(TrimmedText(e.children[i]))
      {
        FirstMatchAt(e.children, field.value, i);
      }
    }
  }

  /** `elem_key(elem)`: a linear search that returns at the first match. */
  method ElemKey(e: Element) returns (k: Option<string>)
    ensures k == KeyOf(e)
  {
    var tag := StripNamespace(e.tag);
    var keyField := KeyFieldOf(tag);
    if keyField.None? {
      return None;
    }
    for i := 0 to |e.children|
      invariant FirstMatch(e.children, keyField.value) == FirstMatch(e.children[i..], keyField.value)
    {
      var child := e.children[i];
      if StripNamespace(child.tag) == keyField.value {
        return Some(TrimmedText(child));
      }
      assert e.children[i..][1..] == e.children[i + 1..];
    }
    return None;
  }
}
