/** What `parse_medline` promises about each entry it builds, and the worked
    records of `tests/test_core.py`. */
module RecordFacts {
  import opened TextUtils
  import opened Affiliation
  import opened Email
  import opened Core

  /** Missing fields take their defaults; present ones are passed on, the
      title and abstract through `clean_text`. */
  lemma FieldDefaults(r: Record)
    requires WellFormed(r)
    ensures PaperOf(r).pubmedId == (if "PMID" in r then r["PMID"] else Str("N/A"))
    ensures PaperOf(r).publicationDate == (if "DP" in r then r["DP"] else Str("Unknown"))
    ensures PaperOf(r).title == CleanText(if "TI" in r then r["TI"].s else "No Title")
    ensures PaperOf(r).abstractText == CleanText(if "AB" in r then r["AB"].s else "")
  {
    CleanDefault("No Title");
    CleanDefault("");
  }

  /** The title and the abstract have no whitespace at either end, no two
      whitespace characters in a row, and keep the non-whitespace characters
      of the field they come from. */
  lemma TextFieldsAreClean(r: Record)
    requires WellFormed(r)
    ensures Clean(TitleOf(r)) && Clean(AbstractOf(r))
    ensures NonSpace(TitleOf(r)) == NonSpace(if "TI" in r then r["TI"].s else "No Title")
    ensures NonSpace(AbstractOf(r)) == NonSpace(if "AB" in r then r["AB"].s else "")
  {
    DefaultsAreClean();
  }

  /** AD is read as a list: a string is a list of one, a list is kept as it
      is, and a missing field is the empty list. */
  lemma AffiliationsNormalised(r: Record)
    ensures "AD" !in r ==> Affiliations(r) == []
    ensures "AD" in r && r["AD"].Str? ==> Affiliations(r) == [r["AD"].s]
    ensures "AD" in r && r["AD"].List? ==> Affiliations(r) == r["AD"].items
  {
  }

  /** Company Affiliations is exactly the set of the record's non-academic
      affiliations. */
  lemma CompanyAffiliationsExact(r: Record)
    requires WellFormed(r)
    ensures forall a :: a in PaperOf(r).companyAffiliations <==> a in Affiliations(r) && IsNonAcademic(a)
  {
  }

  /** Non-academic Authors is every AU entry when some affiliation is
      non-academic, and empty otherwise; so authors are only ever named when
      a company affiliation is. */
  lemma AuthorsFollowCompanies(r: Record)
    requires WellFormed(r)
    ensures PaperOf(r).companyAffiliations != {} ==>
      PaperOf(r).nonAcademicAuthors == set x | x in Elements(Get(r, "AU", List([])))
    ensures PaperOf(r).companyAffiliations == {} ==> PaperOf(r).nonAcademicAuthors == {}
    ensures PaperOf(r).nonAcademicAuthors != {} ==> PaperOf(r).companyAffiliations != {}
  {
    var p := PaperOf(r);
    if HasNonAcademicAffiliation(r) {
      var a :| a in Affiliations(r) && IsNonAcademic(a);
      assert a in p.companyAffiliations;
    }
  }

  /** The converse fails: a company affiliation without an AU field names
      no author. */
  lemma CompanyWithoutAuthors()
    ensures var r: Record := map["AD" := Str("Pfizer Inc., New York, USA")];
      PaperOf(r).companyAffiliations != {} && PaperOf(r).nonAcademicAuthors == {}
  {
    var r: Record := map["AD" := Str("Pfizer Inc., New York, USA")];
    PfizerIsNonAcademic();
    assert Affiliations(r) == ["Pfizer Inc., New York, USA"];
    assert "Pfizer Inc., New York, USA" in PaperOf(r).companyAffiliations;
    assert Elements(Get(r, "AU", List([]))) == [];
  }

  /** A truthy EM field is the email, as it is, whatever else the record holds. */
  lemma EmailFromEmField(r: Record)
    requires WellFormed(r) && "EM" in r && Truthy(r["EM"])
    ensures PaperOf(r).correspondingEmail == r["EM"]
  {
  }

  /** Without a truthy EM field, the email is the first address found in the
      affiliations, then the IR entries, then the raw abstract, scanning each
      text on its own, and "N/A" when none holds one. */
  lemma EmailFromFallback(r: Record)
    requires WellFormed(r) && !("EM" in r && Truthy(r["EM"]))
    ensures PaperOf(r).correspondingEmail == Str(FirstEmail(FallbackFields(r)))
    ensures FirstEmail(Affiliations(r)) != NotAvailable ==>
      PaperOf(r).correspondingEmail == Str(FirstEmail(Affiliations(r)))
  {
    ExtractEmailNotEmpty(List(FallbackFields(r)));
    ExtractEmailOfList(FallbackFields(r));
    var ir := if "IR" in r then Elements(r["IR"]) else [];
    var ab := if "AB" in r then [r["AB"].s] else [];
    assert FallbackFields(r) == Affiliations(r) + (ir + ab);
    FirstEmailAppend(Affiliations(r), ir + ab);
  }

  /** The final `or "N/A"` never changes the email: EM is only taken when it
      is truthy and `extract_email` never returns an empty string. */
  lemma EmailIsNeverEmpty(r: Record)
    requires WellFormed(r)
    ensures PaperOf(r).correspondingEmail == ResolvedEmail(r)
    ensures Truthy(PaperOf(r).correspondingEmail)
  {
    ExtractEmailNotEmpty(List(FallbackFields(r)));
  }

  /** An IR given as a single string is extended character by character, and
      one-character texts hold no address, so such an IR never supplies the
      email. */
  lemma {:induction false} ScalarIrGivesNoEmail(s: string)
    ensures FirstEmail(Elements(Str(s))) == NotAvailable
  {
    if s != [] {
      var rest := s[1..];
      assert Elements(Str(s))[1..] == Elements(Str(rest));
      ShortTextHasNoMatch(Elements(Str(s))[0]);
      ScalarIrGivesNoEmail(rest);
    }
  }

  /** Every company affiliation of `p` passes `is_non_academic`. */
  ghost predicate CompaniesAreNonAcademic(p: Paper)
  {
    forall a :: a in p.companyAffiliations ==> IsNonAcademic(a)
  }

  /** Entries built by `parse_medline` hold only non-academic company
      affiliations. */
  lemma {:induction false} ParsedCompaniesAreNonAcademic(records: seq<Record>)
    requires forall k :: 0 <= k < |records| ==> WellFormed(records[k])
    ensures forall p :: p in ParseAll(records) ==> CompaniesAreNonAcademic(p)
  {
    if records != [] {
      var init := records[..|records| - 1];
      ParsedCompaniesAreNonAcademic(init);
      CompanyAffiliationsExact(records[|records| - 1]);
    }
  }

  /** On an entry whose company affiliations all pass `is_non_academic`,
      the filter's test is whether Company Affiliations is non-empty. */
  lemma FilterTestIsNonEmptyCompanies(p: Paper)
    requires CompaniesAreNonAcademic(p)
    ensures HasCompanyAffiliation(p) <==> p.companyAffiliations != {}
  {
    if p.companyAffiliations != {} {
      var a :| a in p.companyAffiliations;
    }
  }

  /** Filtering the entries of `parse_medline` keeps exactly those whose
      Company Affiliations is non-empty, in their order. */
  lemma FilterParsed(records: seq<Record>)
    requires forall k :: 0 <= k < |records| ==> WellFormed(records[k])
    ensures forall p :: p in FilterNonAcademic(ParseAll(records)) <==>
      p in ParseAll(records) && p.companyAffiliations != {}
  {
    ParsedCompaniesAreNonAcademic(records);
    forall p | p in ParseAll(records)
      ensures HasCompanyAffiliation(p) <==> p.companyAffiliations != {}
    {
      FilterTestIsNonEmptyCompanies(p);
    }
  }

  /** Without EM and IR, an affiliation with no '@' and an abstract that
      ends in an address, after text without '@' or a local character just
      before it, give that address. */
  lemma AbstractAddressFallback(r: Record, ad: string, pre: string, user: string, host: string, tld: string)
    requires WellFormed(r) && "EM" !in r && "IR" !in r
    requires Affiliations(r) == [ad] && '@' !in ad
    requires "AB" in r && r["AB"] == Str(pre + user + "@" + host + "." + tld)
    requires '@' !in pre && (pre == [] || !IsLocalChar(pre[|pre| - 1]))
    requires user != [] && forall k :: 0 <= k < |user| ==> IsLocalChar(user[k])
    requires host != [] && forall k :: 0 <= k < |host| ==> IsDomainChar(host[k])
    requires |tld| >= 2 && forall k :: 0 <= k < |tld| ==> IsAsciiLetter(tld[k])
    ensures EmailOf(r) == Str(user + "@" + host + "." + tld)
  {
    var ab := pre + user + "@" + host + "." + tld;
    assert FallbackFields(r) == [ad, ab];
    assert FirstEmail([ad, ab]) == user + "@" + host + "." + tld by {
      NoAtNoEmail(ad);
      AddressAfter(pre, user, host, tld);
      assert FirstEmail([ab]) == user + "@" + host + "." + tld;
    }
    EmailFromFallback(r);
  }

  /** The fallback record of the parser's tests: no EM, "VaccineBio Inc.,
      California" as AD and "Email: support@vaccinebio.com" as AB give
      "support@vaccinebio.com". */
  lemma FallbackToAbstract(r: Record)
    requires WellFormed(r) && "EM" !in r && "IR" !in r
    requires Affiliations(r) == ["VaccineBio Inc., California"]
    requires "AB" in r && r["AB"] == Str("Email: " + "support" + "@" + "vaccinebio" + "." + "com")
    ensures EmailOf(r) == Str("support" + "@" + "vaccinebio" + "." + "com")
  {
    VaccineBioPieces();
    AbstractAddressFallback(r, "VaccineBio Inc., California", "Email: ", "support", "vaccinebio", "com");
  }

  lemma VaccineBioPieces()
    ensures '@' !in "VaccineBio Inc., California" && '@' !in "Email: " && !IsLocalChar("Email: "[6])
    ensures forall k :: 0 <= k < |"support"| ==> IsLocalChar("support"[k])
    ensures forall k :: 0 <= k < |"vaccinebio"| ==> IsDomainChar("vaccinebio"[k])
    ensures forall k :: 0 <= k < |"com"| ==> IsAsciiLetter("com"[k])
  {
  }

  /** An academic affiliation gives no company and so no authors. */
  lemma AcademicRecordFlagsNothing(r: Record)
    requires WellFormed(r)
    requires Affiliations(r) == ["University of Cambridge, UK"]
    ensures CompanyAffiliationsOf(r) == {} && NonAcademicAuthorsOf(r) == {}
  {
    CambridgeIsAcademic();
  }

  /** Without EM and IR, an affiliation and an abstract without '@' give
      "N/A". */
  lemma NoAtGivesNoEmail(r: Record, ad: string, ab: string)
    requires WellFormed(r) && "EM" !in r && "IR" !in r
    requires Affiliations(r) == [ad] && '@' !in ad
    requires "AB" in r && r["AB"] == Str(ab) && '@' !in ab
    ensures EmailOf(r) == Str(NotAvailable)
  {
    assert FallbackFields(r) == [ad, ab];
    assert FirstEmail([ad, ab]) == NotAvailable by {
      NoAtNoEmail(ad);
      NoAtNoEmail(ab);
      assert FirstEmail([ab]) == NotAvailable;
    }
    EmailFromFallback(r);
  }

  /** A single non-academic affiliation is the whole of Company
      Affiliations. */
  lemma CompanyRecordFlagged(r: Record)
    requires WellFormed(r)
    requires Affiliations(r) == ["Pfizer Inc., NY, USA"]
    ensures CompanyAffiliationsOf(r) == {"Pfizer Inc., NY, USA"}
  {
    PfizerNyIsNonAcademic();
  }

  /** Filtering the entries of a record with the company affiliation of the
      tests and one with their university affiliation keeps the first entry
      alone, whatever else the two records hold. */
  lemma FilterCompanyAndAcademic(r1: Record, r2: Record)
    requires WellFormed(r1) && WellFormed(r2)
    requires Affiliations(r1) == ["Pfizer Inc., NY, USA"]
    requires Affiliations(r2) == ["University of Cambridge, UK"]
    ensures FilterNonAcademic([PaperOf(r1), PaperOf(r2)]) == [PaperOf(r1)]
  {
    var p, q := PaperOf(r1), PaperOf(r2);
    CompanyRecordFlagged(r1);
    AcademicRecordFlagsNothing(r2);
    PfizerNyIsNonAcademic();
    assert HasCompanyAffiliation(p);
    assert !HasCompanyAffiliation(q);
    assert FilterNonAcademic([q]) == [];
  }
}
