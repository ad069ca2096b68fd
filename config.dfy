/**
 * The static configuration of the differ: which child of an entry identifies
 * it, per entry tag, and which keyless top-level tags are still compared as
 * single occurrences.
 */
module Config {
  import opened Wrappers

  /**
   * KEY_FIELDS, in its declaration order: entry tag to the tag of its
   * identifying child. Kept as a table of pairs with a recursive lookup, which
   * answers `KEY_FIELDS.get` exactly because no tag is listed twice.
   */
  const KeyFields: seq<(string, string)> := [
    ("userPermissions", "name"),
    ("fieldPermissions", "field"),
    ("objectPermissions", "object"),
    ("recordTypeVisibilities", "recordType"),
    ("applicationVisibilities", "application"),
    ("classAccesses", "apexClass"),
    ("pageAccesses", "apexPage"),
    ("tabVisibilities", "tab"),
    ("tabSettings", "tab"),
    ("customPermissions", "name"),
    ("layoutAssignments", "layout"),
    ("externalDataSourceAccesses", "externalDataSource"),
    ("customMetadataTypeAccesses", "name"),
    ("customSettingAccesses", "name"),
    ("agentAccesses", "agent"),
    ("emailRoutingAddressAccesses", "emailRoutingAddress"),
    ("externalCredentialPrincipalAccesses", "externalCredentialPrincipal"),
    ("flowAccesses", "flow"),
    ("ServicePresenceStatusAccesses", "servicePresenceStatus"),
    ("categoryGroupVisibilities", "dataCategoryGroup"),
    ("loginIpRanges", "startAddress"),
    ("profileActionOverrides", "actionName")
  ]

  /** SINGLE_TAGS: keyless sections compared as one element per side. */
  const SingleTags: seq<string> := [
    "description",
    "hasActivationRequired",
    "label",
    "license",
    "userLicense",
    "fullName",
    "custom",
    "loginHours"
  ]

  /** The field of the first row of `table` for `tag`. */
  function Find(table: seq<(string, string)>, tag: string): Option<string> {
    if table == [] then None
    else if table[0].0 == tag then Some(table[0].1)
    else Find(table[1..], tag)
  }

  /** A tag is found exactly when some row names it, and then with that row's field. */
  lemma {:induction false} FindSpec(table: seq<(string, string)>, tag: string)
    ensures Find(table, tag).Some? <==> exists i :: 0 <= i < |table| && table[i].0 == tag
    ensures Find(table, tag).Some? ==> exists i :: 0 <= i < |table| && table[i] == (tag, Find(table, tag).value)
  {
    if table != [] && table[0].0 != tag {
      FindSpec(table[1..], tag);
      assert forall i :: 1 <= i < |table| ==> table[i] == table[1..][i - 1];
    }
  }

  /** `KEY_FIELDS.get(tag)`. */
  function KeyFieldOf(tag: string): Option<string> {
    Find(KeyFields, tag)
  }

  /** No tag is listed twice, so the table is a dictionary. */
  lemma KeyFieldsDistinct()
    ensures forall i, j :: 0 <= i < j < |KeyFields| ==> KeyFields[i].0 != KeyFields[j].0
  {
  }

  /** Tags with a key field, the key set of KEY_FIELDS. */
  predicate HasKeyField(tag: string) {
    KeyFieldOf(tag).Some?
  }

  /**
   * Every configured key field is non-empty, so `if not key_field` in
   * `elem_key` is the same test as "the tag is not configured".
   */
  lemma KeyFieldsNonEmpty(tag: string)
    ensures KeyFieldOf(tag).Some? ==> KeyFieldOf(tag).value != ""
  {
    KeyFieldsNamed();
    FindSpec(KeyFields, tag);
  }

  /** Every row of KEY_FIELDS has a non-empty field. */
  lemma KeyFieldsNamed()
    ensures forall i :: 0 <= i < |KeyFields| ==> KeyFields[i].1 != ""
  {
  }

  /** No tag is both keyed and single, so a SINGLE_TAGS section never holds a keyed entry. */
  lemma KeyedAndSingleDisjoint(tag: string)
    ensures !(HasKeyField(tag) && tag in SingleTags)
  {
    KeyTagsNotSingle();
    FindSpec(KeyFields, tag);
  }

  /** No row of KEY_FIELDS names a single tag. */
  lemma KeyTagsNotSingle()
    ensures forall i, j :: 0 <= i < |KeyFields| && 0 <= j < |SingleTags| ==> KeyFields[i].0 != SingleTags[j]
  {
  }
}
