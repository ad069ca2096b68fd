# compare_metadata, modelled in Dafny

`compare_metadata.py` compares two Salesforce metadata files: two Profiles or
two Permission Sets. Each file is parsed into sections, one per top-level tag.
Each section's entries are matched across the files by a per-tag key field
(`KEY_FIELDS`). The tool reports:

- the entries found in only one file;
- the common entries whose field dictionaries differ;
- for a few keyless single-occurrence tags (`SINGLE_TAGS`), a comparison of
  the single element's field dictionary (its children; the element's own text
  is not compared);
- a summary of counts per section.

This project models that pipeline, from two parsed trees to the report data
structure, and proves what it promises.

Modules, one per file:

- `Text` (text.dfy): namespace stripping (`strip_namespace`), `str.strip()`,
  the first/last occurrence splits used by `base_filename`, ASCII lower-casing.
- `StringOrder` (order.dfy): Python's string order and `sorted` on a set of
  strings. `SortedOf` is the specification; `SortStrings` computes it.
- `Xml` (xml.dfy): the parsed element (`tag`, optional `text`, `children`) and
  filters over a child list.
- `Config` (config.dfy): `KEY_FIELDS` and `SINGLE_TAGS`.
- `Fields` (fields.dfy): `elem_to_dict` and `elem_key`. Each is a loop method
  (`ElemToDict`, `ElemKey`) proved equal to a recursive function (`FieldDictOf`,
  `KeyOf`), whose properties are lemmas.
- `Sections` (sections.dfy): the grouping loop of `parse_metadata`
  (`ParseSections`), specified by `Group`.
- `FileNames` (filenames.dfy): `base_filename`.
- `Differ` (differ.dfy): `compare_sections`.
  - `CompareSection` specifies one iteration of the loop. `SectionsFor` and
    `Compare` specify the section list; `SummaryOf` specifies the summary.
  - The methods `KeyedMap`, `DiffCommon`, `CompareKeyed`, `SingleStep`,
    `CompareOne`, `CompareAll` and `CompareSections` do the work, each proved
    equal to its specification.
- `DiffProperties` (differ_props.dfy): the properties of `compare_sections`,
  stated as lemmas on the specification:
  - the keyed path and the single-occurrence path;
  - symmetry under swapping the files;
  - the report's order and its summary.
- `Driver` (driver.dfy): `get_metadata_type` and the checks `main` makes before
  comparing. `Run` is `main` without its I/O.

The two files are not read here. They arrive as a directory listing plus a
function `rootOf` from file name to parsed root element; that function stands
for `ET.parse`.

`elem_key` looks up the key field of the element's own stripped tag; in a
grouped section this is the section name.

## Model

| member | source | states |
|---|---|---|
| Text.StripNamespaceCharacterized | compare_metadata.py:7-10 | a tag without `}` is returned unchanged; otherwise the tag is a `}`-free prefix, then `}`, then the result, so the result is exactly the text after the first `}` |
| Text.StripNamespaceOfQualified | compare_metadata.py:7-10 | for any `}`-free namespace part, stripping `prefix}local` gives back `local` |
| Text.IndexOf | compare_metadata.py:8-9 | the first position of a character, or None exactly when it is absent |
| Text.Trim | compare_metadata.py:32-34 | `str.strip()`: the result neither starts nor ends with whitespace, is the slice after the leading whitespace, and only whitespace follows it |
| Text.Lower | compare_metadata.py:301 | `str.lower()` keeps the length and lower-cases each character independently |
| Text.BeforeFirst | compare_metadata.py:105 | `split('.')[0]` has no `.`, is a prefix of its input, and is followed by `.` whenever it is shorter |
| Text.AfterLast | compare_metadata.py:100 | the basename has no `/`, is a suffix of the path, and is preceded by `/` whenever it is shorter |
| StringOrder.LessTransitive | compare_metadata.py:110 | the string order used by `sorted` is transitive |
| StringOrder.LessTotal | compare_metadata.py:110 | any two distinct strings are ordered one way or the other |
| StringOrder.SortedUnique | compare_metadata.py:110 | two strictly sorted lists of the same strings are equal, so `sorted` of a set is well defined |
| StringOrder.SortedOf | compare_metadata.py:110 | `sorted(s)` of a set is strictly ascending and holds exactly the elements of `s` |
| StringOrder.SortStrings | compare_metadata.py:110 | the sorting method returns `SortedOf(s)` |
| StringOrder.SortedLength | compare_metadata.py:110 | a strictly sorted list has no duplicates, so its length is the size of its element set |
| Config.FindSpec | compare_metadata.py:78 | `KEY_FIELDS.get(tag)` finds a field exactly when a row names the tag, and then returns that row's field |
| Config.KeyFieldsDistinct | compare_metadata.py:38-61 | no tag is listed twice in `KEY_FIELDS` |
| Config.KeyFieldsNonEmpty | compare_metadata.py:78-80 | every configured key field is non-empty, so `if not key_field` fails exactly for unconfigured tags |
| Config.KeyedAndSingleDisjoint | compare_metadata.py:38-73 | no tag is both in `KEY_FIELDS` and in `SINGLE_TAGS` |
| Xml.Named | compare_metadata.py:91-95 | the kept elements are at most as many as the input, and each is an input element carrying the given stripped tag |
| Xml.NamedInOrder | compare_metadata.py:91-95 | the kept elements keep input order: the j-th kept element is the element at the j-th of a strictly increasing sequence of input positions |
| Xml.NamedExactly | compare_metadata.py:91-95 | a position is among those kept exactly when its element carries the tag, so every element carrying the tag is kept |
| Xml.NamedMember | compare_metadata.py:91-95 | an element carrying the tag is among those kept for that tag |
| Xml.TextsOfAt | compare_metadata.py:27-34 | the j-th text collected for a tag is the trimmed text of the j-th child carrying it |
| Xml.NamedPresent | compare_metadata.py:91-95 | some element has stripped tag `t` exactly when `t` is one of the stripped tags |
| Fields.ElemToDict | compare_metadata.py:25-35 | the `elem_to_dict` loop returns `FieldDictOf(e)` |
| Fields.AddChild | compare_metadata.py:28-34 | one loop step records the child's text as `AddField` does: a new key gets the text, a second occurrence turns the value into a two-element list, later ones append |
| Fields.DictOfAt | compare_metadata.py:25-35 | a key is present exactly when some child has that stripped tag; a tag seen once maps to its trimmed text (`''` without text), a tag seen k ≥ 2 times to the list of its k trimmed texts in child order |
| Fields.DictOfCharacterized | compare_metadata.py:25-35 | the key set is exactly the set of stripped child tags, each value as in `DictOfAt` |
| Fields.HasEveryChildTag | compare_metadata.py:27-34 | every child's stripped tag is a key of the dictionary |
| Fields.ElemKey | compare_metadata.py:76-84 | the linear search with early return computes `KeyOf(e)` |
| Fields.KeyOfCharacterized | compare_metadata.py:76-84 | None exactly when the tag has no key field or no child carries it; otherwise the trimmed text of the first child with the key field's tag (`''` when it has no text) |
| Fields.FirstMatchAt | compare_metadata.py:81-83 | the search returns the trimmed text of the first child whose stripped tag is the key field |
| Fields.FirstMatchNone | compare_metadata.py:81-84 | the search finds nothing exactly when no child carries the key field's tag |
| Fields.FirstMatchFirstText | compare_metadata.py:81-84 | the key search returns the first of the texts `elem_to_dict` collects for the key field, and None when it collects none |
| Fields.FromTextsFirst | compare_metadata.py:29-34 | two equal dictionary values were built from text lists with the same first text |
| Fields.SameDictSameKey | compare_metadata.py:76-84 | two elements with the same stripped tag and equal `elem_to_dict` results have the same `elem_key` |
| Sections.ParseSections | compare_metadata.py:90-96 | the grouping loop returns `Group(root.children)` |
| Sections.GroupAt | compare_metadata.py:90-96 | a section exists exactly when some child has that stripped tag, and it lists those children in encounter order |
| Sections.GroupCharacterized | compare_metadata.py:90-96 | the section names are exactly the stripped child tags; each section is the ordered list of its children and is non-empty |
| Sections.ChildInOneSection | compare_metadata.py:91-95 | every root child lands in the section named by its stripped tag, and in no other section |
| Sections.GroupTotal | compare_metadata.py:90-96 | the section lengths add up to the number of root children |
| FileNames.StripFirstSuffixNone | compare_metadata.py:101-104 | a name that ends with none of the suffixes is kept unchanged |
| FileNames.StripFirstSuffixAt | compare_metadata.py:101-104 | when the i-th suffix is the first one the name ends with, exactly that suffix is removed |
| FileNames.StripFirstSuffixSpec | compare_metadata.py:101-104 | no matching suffix leaves the name unchanged; otherwise exactly the first matching suffix, in list order, is removed |
| FileNames.StripSuffixes | compare_metadata.py:101-104 | the suffix loop with `break` computes `StripFirstSuffix` for any suffix list |
| FileNames.BaseFilename | compare_metadata.py:99-106 | basename, suffix loop and cut at the first `.` compute `BaseFilenameOf(fname)` |
| FileNames.BaseFilenameShape | compare_metadata.py:99-106 | the result has no `.`, is a prefix of the basename, and equals the basename cut at its first `.` |
| FileNames.StrippedCut | compare_metadata.py:101-105 | removing a suffix that starts with `.` never changes what the cut at the first `.` keeps |
| Differ.KeyedMap | compare_metadata.py:122-123 | the dict comprehension built with `elem_key` computes `Keyed(es)` |
| Differ.KeyedDomain | compare_metadata.py:122-123 | the keyed map's keys are exactly the keys its entries carry, so unkeyed entries are dropped |
| Differ.KeyedValue | compare_metadata.py:122-123 | each key of the keyed map maps to an entry of the section that carries that key |
| Differ.KeyedKeys | compare_metadata.py:122-123 | both of the above, for every key at once |
| Differ.KeyedLastWins | compare_metadata.py:122-123 | on duplicate keys the last entry wins: an entry that no later entry shares its key with is the one kept |
| Differ.DiffCommon | compare_metadata.py:138-146 | the diffs loop over the sorted common keys computes `KeyedDiffs` |
| Differ.CompareKeyed | compare_metadata.py:125-146 | the key-set differences, the two sorted exclusive lists and the diffs loop compute `KeyedSection` of the two keyed maps |
| Differ.SingleStep | compare_metadata.py:152-164 | the three-way single-occurrence branch computes `WithSingle` |
| Differ.CompareOne | compare_metadata.py:119-164 | one loop iteration computes `CompareSection(name, es1, es2)`: the keyed comparison plus the single-occurrence step |
| Differ.CompareAll | compare_metadata.py:118-177 | the loop appends the section records `SectionsFor(s1, s2, names)` and fills the summary with `SummaryOf` of them |
| Differ.CompareSections | compare_metadata.py:109-179 | the report's sections are `Compare(s1, s2)`, its summary is `SummaryOf` of them, and its two base names are `BaseFilenameOf` of the file names |
| Differ.SectionsForAt | compare_metadata.py:118-177 | the i-th record is the comparison of the i-th name's sections, with a missing section read as empty |
| DiffProperties.KeyedDiffsEntry | compare_metadata.py:138-146 | the i-th diff is for a listed key whose two field dictionaries differ, and carries those two dictionaries |
| DiffProperties.KeyedDiffsEntries | compare_metadata.py:138-146 | every diff is for a listed key whose two field dictionaries differ, so identical entries are never reported |
| DiffProperties.KeyedDiffsKey | compare_metadata.py:138-146 | a listed key is reported exactly when its two field dictionaries differ |
| DiffProperties.KeyedDiffsKeys | compare_metadata.py:138-146 | every listed key is reported exactly when its two field dictionaries differ |
| DiffProperties.KeyedDiffsSorted | compare_metadata.py:138-146 | diffs follow the order of the keys, so sorted keys give diffs in sorted key order without repeats |
| DiffProperties.KeyedDiffsSwap | compare_metadata.py:138-146 | exchanging the two keyed maps exchanges the two dictionaries of each diff |
| DiffProperties.KeyedSectionSwap | compare_metadata.py:125-146 | exchanging the two keyed maps exchanges the exclusive lists and the two dictionaries of each diff |
| DiffProperties.WithSingleSwap | compare_metadata.py:152-164 | the single-occurrence step commutes with exchanging the two files |
| DiffProperties.KeyedPathResult | compare_metadata.py:148-151 | unless both keyed maps are empty and the section is in `SINGLE_TAGS`, the single-occurrence step adds nothing |
| DiffProperties.KeyedOnlyIn1 | compare_metadata.py:125-132 | on the keyed path, `only_in_1` holds one entry per key of `keys1 − keys2`, in sorted key order: the kept entry, an element of file 1 carrying that key |
| DiffProperties.KeyedOnlyIn2 | compare_metadata.py:125-133 | the mirror image: `only_in_2` holds one entry per key of `keys2 − keys1`, in sorted key order, each an element of file 2 with that key |
| DiffProperties.KeyHeldNotOnlyIn1 | compare_metadata.py:125-132 | on the keyed path, an entry whose key the second file's keyed map holds is not in `only_in_1` |
| DiffProperties.KeyHeldNotOnlyIn2 | compare_metadata.py:125-133 | on the keyed path, an entry whose key the first file's keyed map holds is not in `only_in_2` |
| DiffProperties.IdenticalNeverOnlyIn | compare_metadata.py:122-133 | a keyed entry with a same-tag twin of equal field values on the other side is in neither `only_in_1` nor `only_in_2` |
| DiffProperties.KeyedCommon | compare_metadata.py:130-146 | on the keyed path the diffs are in strictly sorted key order, each for a key in both maps with the dictionaries of the two kept entries; a common key is reported exactly when those dictionaries differ, so identical entries are never reported |
| DiffProperties.KeyedSectionEmpty | compare_metadata.py:122-146 | two empty keyed maps give three empty lists, so the keyed comparison reports nothing |
| DiffProperties.SingleBoth | compare_metadata.py:149-160 | with no keyed entry, a `SINGLE_TAGS` section with one element per file reports nothing exclusive and exactly one `(single)` diff when the dictionaries differ, none otherwise |
| DiffProperties.SingleOwnTextIgnored | compare_metadata.py:152-155 | two elements of a `SINGLE_TAGS` section with the same children are not reported, whatever their own texts, since only `elem_to_dict` of each is compared |
| DiffProperties.SingleOnlyFirst | compare_metadata.py:161-162 | one element in file 1 and none in file 2 gives exactly that element as only-in-1 and nothing else |
| DiffProperties.SingleOnlySecond | compare_metadata.py:163-164 | one element in file 2 and none in file 1 gives exactly that element as only-in-2 and nothing else |
| DiffProperties.KeylessOtherwiseEmpty | compare_metadata.py:148-164 | every other keyless case yields three empty lists, including keyless sections not in `SINGLE_TAGS` |
| DiffProperties.SingleTagsUnkeyed | compare_metadata.py:64-84 | a section whose elements carry a `SINGLE_TAGS` tag has an empty keyed map, so the single-occurrence path applies to it |
| DiffProperties.CompareSectionSwap | compare_metadata.py:119-164 | comparing the files the other way round exchanges `only_in_1` and `only_in_2`, and the two dictionaries of each diff |
| DiffProperties.CompareSwap | compare_metadata.py:110-177 | the whole section list of the swapped comparison is the mirror image, record by record |
| DiffProperties.SectionsForNames | compare_metadata.py:172-177 | the records name the sections in the order they are visited |
| DiffProperties.SummaryKeys | compare_metadata.py:166-170 | the summary has a row for exactly the section names of the records |
| DiffProperties.SummaryRow | compare_metadata.py:166-170 | with distinct section names, the row of the i-th record holds the lengths of its three lists |
| DiffProperties.SummaryRows | compare_metadata.py:166-170 | with distinct section names, the summary has one row per record, holding the lengths of its three lists |
| DiffProperties.CompareReport | compare_metadata.py:110-177 | one record per section name of either file, in sorted order, each the comparison of that section; the summary's keys are all those names, each row holding the three list lengths of its record |
| Driver.MetadataTypeOfQualified | compare_metadata.py:16-22 | the kind is Profile or PermissionSet exactly when the root's local name says so, whatever its namespace |
| Driver.XmlFiles | compare_metadata.py:301 | the `.xml` files (suffix tested after lower-casing) are exactly the listing's names that qualify |
| Driver.XmlFilesAppend | compare_metadata.py:301 | the filter distributes over concatenation of listings, so it keeps listing order and the count of qualifying names |
| Driver.XmlFilesOne | compare_metadata.py:301 | a one-name listing keeps that name exactly when it is an `.xml` name |
| Driver.XmlFilesSnoc | compare_metadata.py:301 | one more name at the end adds exactly what that name alone gives |
| Driver.XmlFilesNoRepeats | compare_metadata.py:301 | a listing that repeats no name (as a directory listing does not) gives `.xml` files without repeats |
| Driver.DecideCases | compare_metadata.py:301-316 | the checks run in order: the wrong file count first, then an unrecognised root, then mismatched kinds; comparing proceeds only with the listing's two `.xml` files, `file1` and `file2` in listing order, of the same known kind |
| Driver.DecideFiles | compare_metadata.py:306 | when comparing proceeds, `file1` and `file2` are exactly the two `.xml` files of the listing, in listing order |
| Driver.DecideDistinct | compare_metadata.py:301-306 | for a listing that repeats no name, the two files compared are different files |
| Driver.Run | compare_metadata.py:301-325 | a failing check is returned as the rejection; otherwise the report compares the grouped sections of the two files |

## Left out

- XML parsing (`ET.parse`) in `get_metadata_type` and `parse_metadata` is outside the model. A parsed element is an input value, and `Run` takes the parsing as a function from file name to root element.
- A malformed file is outside the model. `ET.parse` raises on one (compare_metadata.py:14 and compare_metadata.py:88), and `main` then ends with a traceback and a non-zero exit; the parsing function `Run` takes is total, so `Run` has no such outcome.
- `generate_html_report` is HTML templating with no stateable logic; it is not modelled.
- `main`'s I/O is not modelled: `os.listdir` becomes a listing parameter, and the `print` calls, `sys.exit` and the report file write are left out. Only the decision and the report it would write are modelled.
- `str.strip()` and `str.lower()` work on ASCII only. Whitespace is space, 0x09-0x0D and 0x1C-0x1F; other Unicode whitespace and non-ASCII case mappings are not modelled.
- `sorted` compares strings by code point, as Python does, through `Less` on `char`. A Dafny `char` is any Unicode scalar value, so the only strings a Python `str` can hold and the model cannot are those with lone surrogates.
- `os.path.basename` is modelled for POSIX paths only: the text after the last `/`.
- `KEY_FIELDS` is a table of pairs with a first-match lookup (`Config.Find`), not a map. `Config.KeyFieldsDistinct` shows that no tag repeats, so the lookup agrees with the dictionary.
- Python's `sorted` algorithm is not modelled; `SortStrings` builds the same unique result by insertion.
- Dictionary ordering in the report's `summary` is not modelled, since Python keeps insertion order and the model uses a map. The record list `sections` does keep its order.
