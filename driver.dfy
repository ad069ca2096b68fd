/**
 * The checks of `main` before anything is compared: exactly two `.xml` files
 * in the listing, both recognised as a Profile or a PermissionSet, and both
 * of the same kind; then the comparison of the two files' sections.
 */
module Driver {
  import opened Text
  import opened Xml
  import opened Sections
  import opened FileNames
  import opened Differ

  /** What `get_metadata_type` reports for a document. */
  datatype MetadataType = Profile | PermissionSet | Unknown

  /** `get_metadata_type` on an already parsed root element. */
  function MetadataTypeOf(root: Element): MetadataType {
    var name := StripNamespace(root.tag);
    if name == "Profile" then Profile
    else if name == "PermissionSet" then PermissionSet
    else Unknown
  }

  /**
   * The root's local name alone decides the kind, whatever namespace it is in;
   * `prefix` is everything before the `}`, the leading `{` included.
   */
  lemma MetadataTypeOfQualified(prefix: string, root: Element)
    requires '}' !in prefix
    ensures var local := StripNamespace(root.tag);
      MetadataTypeOf(Element(prefix + "}" + local, root.text, root.children)) == MetadataTypeOf(root)
    ensures MetadataTypeOf(root) == Profile <==> StripNamespace(root.tag) == "Profile"
    ensures MetadataTypeOf(root) == PermissionSet <==> StripNamespace(root.tag) == "PermissionSet"
  {
    StripNamespaceOfQualified(prefix, StripNamespace(root.tag));
  }

  /** `f.lower().endswith('.xml')`. */
  predicate IsXmlName(f: string) {
    EndsWith(Lower(f), ".xml")
  }

  /** The `.xml` files of a directory listing, in listing order. */
  function XmlFiles(listing: seq<string>): (r: seq<string>)
    ensures |r| <= |listing|
    ensures forall f :: f in r <==> f in listing && IsXmlName(f)
    decreases |listing|
  {
    if listing == [] then []
    else
      var init := XmlFiles(listing[..|listing| - 1]);
      var f := listing[|listing| - 1];
      assert listing == listing[..|listing| - 1] + [f];
      if IsXmlName(f) then init + [f] else init
  }

  /** One more name at the end of the listing adds what that name alone gives. */
  lemma XmlFilesSnoc(init: seq<string>, f: string)
    ensures XmlFiles(init + [f]) == XmlFiles(init) + XmlFiles([f])
  {
    assert (init + [f])[..|init|] == init;
    XmlFilesOne(f);
  }

  /** The filter distributes over concatenation, so it keeps listing order. */
  lemma {:induction false} XmlFilesAppend(a: seq<string>, b: seq<string>)
    ensures XmlFiles(a + b) == XmlFiles(a) + XmlFiles(b)
    decreases |b|
  {
    if b == [] {
      assert a + b == a;
    } else {
      var init := b[..|b| - 1];
      var f := b[|b| - 1];
      assert b == init + [f];
      assert a + b == (a + init) + [f];
      XmlFilesAppend(a, init);
      XmlFilesSnoc(a + init, f);
      XmlFilesSnoc(init, f);
      assert XmlFiles(a) + XmlFiles(init) + XmlFiles([f]) == XmlFiles(a) + (XmlFiles(init) + XmlFiles([f]));
    }
  }

  /** A single name is kept exactly when it is an `.xml` name. */
  lemma XmlFilesOne(f: string)
    ensures XmlFiles([f]) == if IsXmlName(f) then [f] else []
  {
    assert [f][..0] == [];
  }

  /** The outcome of `main`'s checks. */
  datatype Verdict =
    | WrongFileCount(count: nat)
    | Unrecognized
    | Mismatched(file1: string, type1: MetadataType, file2: string, type2: MetadataType)
    | Proceed(file1: string, file2: string, kind: MetadataType)

  /**
   * `main`'s checks, in their order; `rootOf` stands for parsing a file of the
   * listing.
   */
  function Decide(listing: seq<string>, rootOf: string -> Element): Verdict {
    var files := XmlFiles(listing);
    if |files| != 2 then WrongFileCount(|files|)
    else
      var type1 := MetadataTypeOf(rootOf(files[0]));
      var type2 := MetadataTypeOf(rootOf(files[1]));
      if type1 == Unknown || type2 == Unknown then Unrecognized
      else if type1 != type2 then Mismatched(files[0], type1, files[1], type2)
      else Proceed(files[0], files[1], type1)
  }

  /**
   * The comparison goes ahead exactly when the listing holds two `.xml` files,
   * in listing order, whose roots are both Profiles or both PermissionSets;
   * each failure is reported for the first check that fails.
   */
  lemma DecideCases(listing: seq<string>, rootOf: string -> Element)
    ensures var v := Decide(listing, rootOf);
      v.WrongFileCount? <==> |XmlFiles(listing)| != 2
    ensures var v := Decide(listing, rootOf);
      var files := XmlFiles(listing);
      v.Unrecognized? <==>
        |files| == 2 && (MetadataTypeOf(rootOf(files[0])) == Unknown || MetadataTypeOf(rootOf(files[1])) == Unknown)
    ensures var v := Decide(listing, rootOf);
      var files := XmlFiles(listing);
      v.Mismatched? <==>
        |files| == 2 && MetadataTypeOf(rootOf(files[0])) != Unknown && MetadataTypeOf(rootOf(files[1])) != Unknown
        && MetadataTypeOf(rootOf(files[0])) != MetadataTypeOf(rootOf(files[1]))
    ensures var v := Decide(listing, rootOf);
      v.Proceed? ==> (
        v.file1 in listing && v.file2 in listing && IsXmlName(v.file1) && IsXmlName(v.file2)
        && v.kind != Unknown && v.kind == MetadataTypeOf(rootOf(v.file1)) == MetadataTypeOf(rootOf(v.file2)))
    ensures var v := Decide(listing, rootOf);
      v.Proceed? ==> [v.file1, v.file2] == XmlFiles(listing)
  {
    var files := XmlFiles(listing);
    if |files| == 2 {
      assert files[0] in files && files[1] in files;
    }
    DecideFiles(listing, rootOf);
  }

  /** The two files compared are the listing's two `.xml` files, in listing order. */
  lemma DecideFiles(listing: seq<string>, rootOf: string -> Element)
    ensures var v := Decide(listing, rootOf);
      v.Proceed? ==> [v.file1, v.file2] == XmlFiles(listing)
  {
  }

  /** No name occurs twice, as in a directory listing. */
  predicate NoRepeats(s: seq<string>) {
    forall i, j :: 0 <= i < j < |s| ==> s[i] != s[j]
  }

  /** Joining two lists without repeats and without a common name repeats nothing. */
  lemma NoRepeatsAppend(a: seq<string>, b: seq<string>)
    requires NoRepeats(a) && NoRepeats(b)
    requires forall x :: x in b ==> x !in a
    ensures NoRepeats(a + b)
  {
    forall i, j | 0 <= i < j < |a + b|
      ensures (a + b)[i] != (a + b)[j]
    {
      if j < |a| {
        assert (a + b)[i] == a[i] && (a + b)[j] == a[j];
      } else if i < |a| {
        assert (a + b)[i] == a[i] && (a + b)[j] == b[j - |a|];
        assert b[j - |a|] in b;
      } else {
        assert (a + b)[i] == b[i - |a|] && (a + b)[j] == b[j - |a|];
      }
    }
  }

  /** A listing without repeated names keeps none among its `.xml` files. */
  lemma {:induction false} XmlFilesNoRepeats(listing: seq<string>)
    requires NoRepeats(listing)
    ensures NoRepeats(XmlFiles(listing))
    decreases |listing|
  {
    if listing != [] {
      var init := listing[..|listing| - 1];
      var f := listing[|listing| - 1];
      assert listing == init + [f];
      assert f !in init;
      XmlFilesNoRepeats(init);
      XmlFilesSnoc(init, f);
      var one := XmlFiles([f]);
      assert forall x :: x in one ==> x == f;
      NoRepeatsAppend(XmlFiles(init), one);
    }
  }

  /** Since a directory listing repeats no name, the two files compared differ. */
  lemma DecideDistinct(listing: seq<string>, rootOf: string -> Element)
    requires NoRepeats(listing)
    ensures var v := Decide(listing, rootOf);
      v.Proceed? ==> v.file1 != v.file2
  {
    XmlFilesNoRepeats(listing);
    DecideFiles(listing, rootOf);
  }

  /** What `main` ends with: a rejection, or the report of the two files. */
  datatype Outcome = Rejected(verdict: Verdict) | Compared(report: Report)

  /** `main` without its I/O: the checks, then parsing into sections and comparing. */
  method Run(listing: seq<string>, rootOf: string -> Element) returns (outcome: Outcome)
    ensures var v := Decide(listing, rootOf);
      !v.Proceed? ==> outcome == Rejected(v)
    ensures var v := Decide(listing, rootOf);
      v.Proceed? ==> (
        outcome.Compared?
        && outcome.report.sections == Compare(Group(rootOf(v.file1).children), Group(rootOf(v.file2).children))
        && outcome.report.summary == SummaryOf(outcome.report.sections)
        && outcome.report.file1Base == BaseFilenameOf(v.file1) && outcome.report.file2Base == BaseFilenameOf(v.file2))
  {
    var verdict := Decide(listing, rootOf);
    if !verdict.Proceed? {
      return Rejected(verdict);
    }
    var sections1 := ParseSections(rootOf(verdict.file1));
    var sections2 := ParseSections(rootOf(verdict.file2));
    var report := CompareSections(sections1, sections2, verdict.file1, verdict.file2);
    outcome := Compared(report);
  }
}
