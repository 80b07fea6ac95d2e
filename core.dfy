/** The record transformer and the corpus filter of `paperfetcher/core.py`.

    A record is what MEDLINE tokenising yields: a map from a field tag
    ("PMID", "TI", "AU", "AD", ...) to a string or a list of strings. Each
    record becomes one paper entry; the filter then keeps the papers that
    have a company affiliation. */
module Core {
  import opened TextUtils
  import opened Affiliation
  import opened Email

  type Record = map<string, StrOrList>

  /** One entry of `parse_medline`'s output. The two collections are built
      with `set()` in the source, so they carry no order here either. */
  datatype Paper = Paper(
    pubmedId: StrOrList,
    title: string,
    publicationDate: StrOrList,
    abstractText: string,
    nonAcademicAuthors: set<string>,
    companyAffiliations: set<string>,
    correspondingEmail: StrOrList)

  /** The PubmedID of a record without PMID (`record.get("PMID", "N/A")`). */
  const MissingPubmedId: string := "N/A"

  /** `clean_text` takes a `str`: a list under TI or AB would raise. */
  predicate WellFormed(r: Record)
  {
    && ("TI" in r ==> r["TI"].Str?)
    && ("AB" in r ==> r["AB"].Str?)
  }

  /** `record.get(tag, default)`. */
  function Get(r: Record, tag: string, default: StrOrList): StrOrList
  {
    if tag in r then r[tag] else default
  }

  /** Python truthiness of a field value: the empty string and the empty list
      are false. */
  predicate Truthy(v: StrOrList)
  {
    match v
    case Str(s) => s != ""
    case List(xs) => xs != []
  }

  /** What `list.extend(v)` appends: the items of a list, or the characters
      of a string, each as a one-character string. */
  function Elements(v: StrOrList): seq<string>
  {
    match v
    case Str(s) => seq(|s|, i requires 0 <= i < |s| => [s[i]])
    case List(xs) => xs
  }

  /** The AD field as a list: a string becomes a one-element list, a list is
      kept, and a missing field is the empty list. */
  function Affiliations(r: Record): seq<string>
  {
    match Get(r, "AD", List([]))
    case Str(s) => [s]
    case List(xs) => xs
  }

  /** The texts the email is looked for in when EM gives none: the
      affiliations, then the IR entries, then the raw abstract. */
  function FallbackFields(r: Record): seq<string>
    requires WellFormed(r)
  {
    Affiliations(r)
      + (if "IR" in r then Elements(r["IR"]) else [])
      + (if "AB" in r then [r["AB"].s] else [])
  }

  /** Some affiliation of the record is non-academic. */
  predicate HasNonAcademicAffiliation(r: Record)
  {
    exists a :: a in Affiliations(r) && IsNonAcademic(a)
  }

  /** The email `parse_medline` settles on before its final `or "N/A"`: EM
      when it is present and truthy, otherwise what `extract_email` finds in
      the fallback texts. */
  function ResolvedEmail(r: Record): StrOrList
    requires WellFormed(r)
  {
    if "EM" in r && Truthy(r["EM"]) then r["EM"]
    else Str(ExtractEmail(List(FallbackFields(r))))
  }

  /** The "Title" entry: `clean_text` of TI, or the default "No Title",
      which `clean_text` returns unchanged (`CleanDefault`). */
  function TitleOf(r: Record): string
    requires WellFormed(r)
  {
    if "TI" in r then CleanText(r["TI"].s) else "No Title"
  }

  /** The "Abstract" entry: `clean_text` of AB, or the default "", which
      `clean_text` returns unchanged (`CleanDefault`). */
  function AbstractOf(r: Record): string
    requires WellFormed(r)
  {
    if "AB" in r then CleanText(r["AB"].s) else ""
  }

  /** `clean_text` leaves the two defaults as they are, so applying it to
      them, as the source does, or not gives the same entry. */
  lemma CleanDefault(s: string)
    requires s == "No Title" || s == ""
    ensures CleanText(s) == s
  {
    DefaultsAreClean();
    CleanTextFixesClean(s);
  }

  /** The two defaults already satisfy what `clean_text` promises. */
  lemma DefaultsAreClean()
    ensures Clean("No Title") && Clean("")
  {
    var s := "No Title";
    assert forall k :: 0 <= k < |s| ==> s[k] != ' ' ==> !IsSpace(s[k]);
  }

  /** The "Non-academic Authors" entry: every AU entry once some affiliation
      is non-academic, none otherwise. */
  function NonAcademicAuthorsOf(r: Record): set<string>
  {
    if HasNonAcademicAffiliation(r) then (set x | x in Elements(Get(r, "AU", List([])))) else {}
  }

  /** The "Company Affiliations" entry: the non-academic affiliations. */
  function CompanyAffiliationsOf(r: Record): set<string>
  {
    set a | a in Affiliations(r) && IsNonAcademic(a)
  }

  /** The "Corresponding Author Email" entry: `email or "N/A"`. */
  function EmailOf(r: Record): StrOrList
    requires WellFormed(r)
  {
    var email := ResolvedEmail(r);
    if Truthy(email) then email else Str(NotAvailable)
  }

  /** The paper entry of one record, field by field. */
  function PaperOf(r: Record): Paper
    requires WellFormed(r)
  {
    Paper(
      pubmedId := Get(r, "PMID", Str(MissingPubmedId)),
      title := TitleOf(r),
      publicationDate := Get(r, "DP", Str("Unknown")),
      abstractText := AbstractOf(r),
      nonAcademicAuthors := NonAcademicAuthorsOf(r),
      companyAffiliations := CompanyAffiliationsOf(r),
      correspondingEmail := EmailOf(r))
  }

  /** The loop over the affiliations of one record: each non-academic
      affiliation is collected and brings in every author. */
  method CollectNonAcademic(affiliations: seq<string>, authors: seq<string>)
    returns (companyAffiliations: seq<string>, nonAcademicAuthors: seq<string>)
    ensures forall a :: a in companyAffiliations <==> a in affiliations && IsNonAcademic(a)
    ensures companyAffiliations == [] ==> nonAcademicAuthors == []
    ensures companyAffiliations != [] ==> forall x :: x in nonAcademicAuthors <==> x in authors
  {
    nonAcademicAuthors := [];
    companyAffiliations := [];
    for k := 0 to |affiliations|
      invariant forall a :: a in companyAffiliations <==> a in affiliations[..k] && IsNonAcademic(a)
      invariant companyAffiliations == [] ==> nonAcademicAuthors == []
      invariant companyAffiliations != [] ==> forall x :: x in nonAcademicAuthors <==> x in authors
    {
      var affil := affiliations[k];
      assert affiliations[..k + 1] == affiliations[..k] + [affil];
      if IsNonAcademic(affil) {
        companyAffiliations := companyAffiliations + [affil];
        nonAcademicAuthors := nonAcademicAuthors + authors;
      }
    }
    assert affiliations[..|affiliations|] == affiliations;
  }

  /** The email steps of one record: EM when it is truthy, otherwise
      `extract_email` over the affiliations, the IR entries and the raw
      abstract; then `or "N/A"`. */
  method ResolveEmail(r: Record, affiliations: seq<string>) returns (email: StrOrList)
    requires WellFormed(r) && affiliations == Affiliations(r)
    ensures email == EmailOf(r)
  {
    var em: Option<StrOrList> := if "EM" in r then Some(r["EM"]) else None;
    if !(em.Some? && Truthy(em.value)) {
      var fallbackFields: seq<string> := [];
      if affiliations != [] {
        fallbackFields := fallbackFields + affiliations;
      }
      if "IR" in r {
        fallbackFields := fallbackFields + Elements(r["IR"]);
      }
      if "AB" in r {
        fallbackFields := fallbackFields + [r["AB"].s];
      }
      assert fallbackFields == FallbackFields(r);
      em := Some(Str(ExtractEmail(List(fallbackFields))));
    }
    email := if em.Some? && Truthy(em.value) then em.value else Str(NotAvailable);
  }

  /** The body of `parse_medline`'s loop, for one record. */
  method ParseRecord(r: Record) returns (p: Paper)
    requires WellFormed(r)
    ensures p == PaperOf(r)
  {
    var pubmedId := Get(r, "PMID", Str(MissingPubmedId));
    // `clean_text` of a default is the default itself (`CleanDefault`)
    var title := if "TI" in r then CleanText(r["TI"].s) else "No Title";
    var pubDate := Get(r, "DP", Str("Unknown"));
    var abstractText := if "AB" in r then CleanText(r["AB"].s) else "";
    var authors := Elements(Get(r, "AU", List([])));

    var rawAffiliations := Get(r, "AD", List([]));
    var affiliations := if rawAffiliations.Str? then [rawAffiliations.s] else rawAffiliations.items;
    assert affiliations == Affiliations(r);

    var companyAffiliations, nonAcademicAuthors := CollectNonAcademic(affiliations, authors);
    var email := ResolveEmail(r, affiliations);

    CollectedSets(r, companyAffiliations, nonAcademicAuthors);
    p := Paper(
      pubmedId := pubmedId,
      title := title,
      publicationDate := pubDate,
      abstractText := abstractText,
      nonAcademicAuthors := (set x | x in nonAcademicAuthors),
      companyAffiliations := (set a | a in companyAffiliations),
      correspondingEmail := email);
  }

  /** What the affiliation loop collects, read as the two sets of the entry. */
  lemma CollectedSets(r: Record, companyAffiliations: seq<string>, nonAcademicAuthors: seq<string>)
    requires forall a :: a in companyAffiliations <==> a in Affiliations(r) && IsNonAcademic(a)
    requires companyAffiliations == [] ==> nonAcademicAuthors == []
    requires companyAffiliations != [] ==>
      forall x :: x in nonAcademicAuthors <==> x in Elements(Get(r, "AU", List([])))
    ensures (set a | a in companyAffiliations) == CompanyAffiliationsOf(r)
    ensures (set x | x in nonAcademicAuthors) == NonAcademicAuthorsOf(r)
  {
    if companyAffiliations != [] {
      assert companyAffiliations[0] in companyAffiliations;
    }
    assert HasNonAcademicAffiliation(r) <==> companyAffiliations != [];
  }

  /** `f` applied to each record, in the records' order. */
  function MapRecords(f: Record --> Paper, records: seq<Record>): (papers: seq<Paper>)
    requires forall k :: 0 <= k < |records| ==> f.requires(records[k])
    ensures |papers| == |records|
    ensures forall k :: 0 <= k < |records| ==> papers[k] == f(records[k])
  {
    if records == [] then []
    else MapRecords(f, records[..|records| - 1]) + [f(records[|records| - 1])]
  }

  /** The entries of a list of records. */
  function ParseAll(records: seq<Record>): seq<Paper>
    requires forall k :: 0 <= k < |records| ==> WellFormed(records[k])
  {
    MapRecords(PaperOf, records)
  }

  /** `parse_medline` over records that are already tokenised. */
  method ParseMedline(records: seq<Record>) returns (papers: seq<Paper>)
    requires forall k :: 0 <= k < |records| ==> WellFormed(records[k])
    ensures papers == ParseAll(records)
  {
    papers := [];
    for k := 0 to |records|
      invariant papers == ParseAll(records[..k])
    {
      var paper := ParseRecord(records[k]);
      assert records[..k + 1][..k] == records[..k];
      papers := papers + [paper];
    }
    assert records[..|records|] == records;
  }

  /** `parse_medline` yields exactly one entry per record, in the records'
      order. */
  lemma ParseAllOnePerRecord(records: seq<Record>)
    requires forall k :: 0 <= k < |records| ==> WellFormed(records[k])
    ensures |ParseAll(records)| == |records|
    ensures forall k :: 0 <= k < |records| ==> ParseAll(records)[k] == PaperOf(records[k])
  {
  }

  /** The test `filter_non_academic` applies to one paper. */
  predicate HasCompanyAffiliation(p: Paper)
  {
    exists a :: a in p.companyAffiliations && IsNonAcademic(a)
  }

  /** `filter_non_academic(papers)`. */
  function FilterNonAcademic(papers: seq<Paper>): (kept: seq<Paper>)
    ensures |kept| <= |papers|
    ensures forall p :: p in kept <==> p in papers && HasCompanyAffiliation(p)
  {
    if papers == [] then []
    else (if HasCompanyAffiliation(papers[0]) then [papers[0]] else []) + FilterNonAcademic(papers[1..])
  }

  /** Filtering a concatenation filters each part: the kept papers stay in
      their input order. */
  lemma {:induction false} FilterAppend(xs: seq<Paper>, ys: seq<Paper>)
    ensures FilterNonAcademic(xs + ys) == FilterNonAcademic(xs) + FilterNonAcademic(ys)
  {
    if xs == [] {
      assert xs + ys == ys;
    } else {
      assert (xs + ys)[0] == xs[0];
      assert (xs + ys)[1..] == xs[1..] + ys;
      FilterAppend(xs[1..], ys);
    }
  }

  /** The filter keeps every paper it is given exactly when each one passes. */
  lemma {:induction false} FilterKeepsAllIff(papers: seq<Paper>)
    ensures FilterNonAcademic(papers) == papers <==> forall p :: p in papers ==> HasCompanyAffiliation(p)
  {
    if papers != [] {
      FilterKeepsAllIff(papers[1..]);
      if !HasCompanyAffiliation(papers[0]) {
        assert |FilterNonAcademic(papers)| < |papers|;
      }
    }
  }

  /** `filter_non_academic(filter_non_academic(ps)) == filter_non_academic(ps)`. */
  lemma FilterIdempotent(papers: seq<Paper>)
    ensures FilterNonAcademic(FilterNonAcademic(papers)) == FilterNonAcademic(papers)
  {
    FilterKeepsAllIff(FilterNonAcademic(papers));
  }
}
