/** The affiliation classifier of `paperfetcher/utils.py`: an affiliation is
    non-academic when its lower-cased text contains one of twenty fixed
    keywords as a plain substring. The matching is deliberately crude:
    "inc" also fires inside "Princeton", and "research" or "institute"
    flag many academic bodies. */
module Affiliation {

  /** `NON_ACADEMIC_KEYWORDS`, in the source's order. */
  const NonAcademicKeywords: seq<string> := [
    "pharma", "pharmaceutical", "biotech", "inc", "ltd", "gmbh", "llc", "corp",
    "company", "industries", "research", "solutions", "biosciences", "laboratories",
    "clinic", "medtech", "institute", "diagnostic", "therapeutics", "medical center"
  ]

  /** `str.lower` on one character, for the ASCII letters. */
  function LowerChar(c: char): (r: char)
    ensures 'A' <= c <= 'Z' ==> 'a' <= r <= 'z' && r as int == c as int + 32
    ensures !('A' <= c <= 'Z') ==> r == c
  {
    if 'A' <= c <= 'Z' then (c as int + 32) as char else c
  }

  /** `str.lower`, character by character. */
  function Lower(s: string): (r: string)
    ensures |r| == |s| && forall i :: 0 <= i < |s| ==> r[i] == LowerChar(s[i])
  {
    seq(|s|, i requires 0 <= i < |s| => LowerChar(s[i]))
  }

  /** `str.upper` on one character, for the ASCII letters. */
  function UpperChar(c: char): char
  {
    if 'a' <= c <= 'z' then (c as int - 32) as char else c
  }

  /** `str.upper`, character by character. */
  function Upper(s: string): (r: string)
    ensures |r| == |s| && forall i :: 0 <= i < |s| ==> r[i] == UpperChar(s[i])
  {
    seq(|s|, i requires 0 <= i < |s| => UpperChar(s[i]))
  }

  /** Lower-casing leaves no ASCII capital behind, is idempotent, and erases
      the difference between upper- and lower-case input. */
  lemma LowerNormalises(s: string)
    ensures forall i :: 0 <= i < |Lower(s)| ==> !('A' <= Lower(s)[i] <= 'Z')
    ensures Lower(Lower(s)) == Lower(s)
    ensures Lower(Upper(s)) == Lower(s)
  {
    forall i | 0 <= i < |s| ensures LowerChar(Upper(s)[i]) == LowerChar(s[i]) {
      var c := s[i];
      if 'a' <= c <= 'z' {
        assert 'A' <= UpperChar(c) <= 'Z';
        assert (UpperChar(c) as int + 32) as char == c;
      }
    }
  }

  /** `k` occurs in `text` starting at index `i`. */
  ghost predicate OccursAt(text: string, k: string, i: int)
  {
    0 <= i && i + |k| <= |text| && text[i..i + |k|] == k
  }

  /** Python's `k in text` for two strings. */
  ghost predicate IsSubstring(k: string, text: string)
  {
    exists i :: OccursAt(text, k, i)
  }

  /** Scans `text` for `k` from index `i` onwards. */
  function ContainsFrom(text: string, k: string, i: nat): (b: bool)
    ensures b <==> exists j :: i <= j && OccursAt(text, k, j)
    decreases |text| - i
  {
    if i + |k| > |text| then false
    else if text[i..i + |k|] == k then assert OccursAt(text, k, i); true
    else ContainsFrom(text, k, i + 1)
  }

  function Contains(text: string, k: string): (b: bool)
    ensures b <==> IsSubstring(k, text)
  {
    ContainsFrom(text, k, 0)
  }

  /** `any(k in text for k in ks)`. */
  function AnyKeywordIn(ks: seq<string>, text: string): (b: bool)
    ensures b <==> exists k :: k in ks && IsSubstring(k, text)
  {
    if ks == [] then false
    else Contains(text, ks[0]) || AnyKeywordIn(ks[1..], text)
  }

  /** `is_non_academic(affiliation)`: some keyword is a substring of the
      lower-cased affiliation. */
  function IsNonAcademic(affiliation: string): (b: bool)
    ensures b <==> exists k :: k in NonAcademicKeywords && IsSubstring(k, Lower(affiliation))
  {
    AnyKeywordIn(NonAcademicKeywords, Lower(affiliation))
  }

  /** Two affiliations that differ only in the case of ASCII letters get the
      same verdict. */
  lemma IsNonAcademicIgnoresCase(a: string, b: string)
    requires |a| == |b|
    requires forall i :: 0 <= i < |a| ==> LowerChar(a[i]) == LowerChar(b[i])
    ensures IsNonAcademic(a) == IsNonAcademic(b)
  {
    assert Lower(a) == Lower(b);
  }

  /** Upper-casing or lower-casing an affiliation first changes nothing. */
  lemma IsNonAcademicOfUpperAndLower(a: string)
    ensures IsNonAcademic(Upper(a)) == IsNonAcademic(a)
    ensures IsNonAcademic(Lower(a)) == IsNonAcademic(a)
  {
    forall i | 0 <= i < |a| ensures LowerChar(Upper(a)[i]) == LowerChar(a[i]) {
      var c := a[i];
      if 'a' <= c <= 'z' {
        assert 'A' <= UpperChar(c) <= 'Z';
        assert (UpperChar(c) as int + 32) as char == c;
      }
    }
    IsNonAcademicIgnoresCase(Upper(a), a);
    IsNonAcademicIgnoresCase(Lower(a), a);
  }

  /** An occurrence of a keyword begins with the keyword's first two letters. */
  lemma OccurrenceStartsWithBigram(text: string, k: string, i: int)
    requires |k| >= 2 && OccursAt(text, k, i)
    ensures 0 <= i < |text| - 1 && text[i] == k[0] && text[i + 1] == k[1]
  {
    assert text[i..i + |k|][0] == text[i];
    assert text[i..i + |k|][1] == text[i + 1];
  }

  /** The classifier's verdict on the source's worked example of a company. */
  lemma PfizerIsNonAcademic()
    ensures IsNonAcademic("Pfizer Inc., New York, USA")
  {
    var low := Lower("Pfizer Inc., New York, USA");
    assert low[7] == 'i' && low[8] == 'n' && low[9] == 'c';
    assert low[7..10] == "inc";
    assert OccursAt(low, "inc", 7);
    assert "inc" in NonAcademicKeywords;
  }

  /** The affiliation of the parser's company test record. */
  lemma PfizerNyIsNonAcademic()
    ensures IsNonAcademic("Pfizer Inc., NY, USA")
  {
    var low := Lower("Pfizer Inc., NY, USA");
    assert low[7] == 'i' && low[8] == 'n' && low[9] == 'c';
    assert low[7..10] == "inc";
    assert OccursAt(low, "inc", 7);
    assert "inc" in NonAcademicKeywords;
  }

  /** `x` followed by `y` is how some keyword begins. */
  predicate OpensKeyword(x: char, y: char)
  {
    || (x == 'p' && y == 'h')
    || (x == 'b' && y == 'i')
    || (x == 'i' && y == 'n')
    || (x == 'l' && y == 't')
    || (x == 'g' && y == 'm')
    || (x == 'l' && y == 'l')
    || (x == 'c' && y == 'o')
    || (x == 'r' && y == 'e')
    || (x == 's' && y == 'o')
    || (x == 'l' && y == 'a')
    || (x == 'c' && y == 'l')
    || (x == 'm' && y == 'e')
    || (x == 'd' && y == 'i')
    || (x == 't' && y == 'h')
  }

  lemma KeywordOpening(k: string)
    requires k in NonAcademicKeywords
    ensures |k| >= 2 && OpensKeyword(k[0], k[1])
  {
    assert || k == "pharma" || k == "pharmaceutical" || k == "biotech" || k == "inc" || k == "ltd"
           || k == "gmbh" || k == "llc" || k == "corp" || k == "company" || k == "industries"
           || k == "research" || k == "solutions" || k == "biosciences" || k == "laboratories"
           || k == "clinic" || k == "medtech" || k == "institute" || k == "diagnostic"
           || k == "therapeutics" || k == "medical center";
  }

  /** No two adjacent letters of `text` from `i` on, lower-cased, open a
      keyword. */
  predicate NoOpeningFrom(text: string, i: nat)
    decreases |text| - i
  {
    i + 1 >= |text| || (!OpensKeyword(LowerChar(text[i]), LowerChar(text[i + 1])) && NoOpeningFrom(text, i + 1))
  }

  lemma {:induction false} NoOpeningFromAll(text: string, i: nat)
    requires NoOpeningFrom(text, i)
    ensures forall j :: i <= j < |text| - 1 ==> !OpensKeyword(LowerChar(text[j]), LowerChar(text[j + 1]))
    decreases |text| - i
  {
    if i + 1 < |text| {
      NoOpeningFromAll(text, i + 1);
    }
  }

  lemma {:induction false} AllNoOpeningFrom(text: string, i: nat)
    requires forall j :: i <= j < |text| - 1 ==> !OpensKeyword(LowerChar(text[j]), LowerChar(text[j + 1]))
    ensures NoOpeningFrom(text, i)
    decreases |text| - i
  {
    if i + 1 < |text| {
      AllNoOpeningFrom(text, i + 1);
    }
  }

  /** Two texts without openings, joined where no keyword opens, have none. */
  lemma NoOpeningsAppend(a: string, b: string)
    requires NoOpeningFrom(a, 0) && NoOpeningFrom(b, 0)
    requires a == [] || b == [] || !OpensKeyword(LowerChar(a[|a| - 1]), LowerChar(b[0]))
    ensures NoOpeningFrom(a + b, 0)
  {
    NoOpeningFromAll(a, 0);
    NoOpeningFromAll(b, 0);
    var t := a + b;
    forall i | 0 <= i < |t| - 1 ensures !OpensKeyword(LowerChar(t[i]), LowerChar(t[i + 1])) {
      if i + 1 < |a| {
        assert t[i] == a[i] && t[i + 1] == a[i + 1];
      } else if i + 1 == |a| {
        assert t[i] == a[|a| - 1] && t[i + 1] == b[0];
      } else {
        assert t[i] == b[i - |a|] && t[i + 1] == b[i + 1 - |a|];
      }
    }
    AllNoOpeningFrom(t, 0);
  }

  /** A text in which no two adjacent letters, lower-cased, open a keyword
      is academic. */
  lemma NoKeywordWithoutOpenings(text: string)
    requires NoOpeningFrom(text, 0)
    ensures !IsNonAcademic(text)
  {
    NoOpeningFromAll(text, 0);
    var low := Lower(text);
    forall k | k in NonAcademicKeywords ensures !IsSubstring(k, low) {
      if IsSubstring(k, low) {
        var i :| OccursAt(low, k, i);
        OccurrenceStartsWithBigram(low, k, i);
        KeywordOpening(k);
      }
    }
  }

  lemma UniversityOfHasNoOpening()
    ensures NoOpeningFrom("University of ", 0)
  {
  }

  lemma CaliforniaHasNoOpening()
    ensures NoOpeningFrom("California, ", 0)
  {
  }

  lemma BerkeleyHasNoOpening()
    ensures NoOpeningFrom("Berkeley, USA", 0)
  {
  }

  lemma CambridgeHasNoOpening()
    ensures NoOpeningFrom("Cambridge, UK", 0)
  {
  }

  lemma BerkeleyWords()
    ensures "University of " + "California, " + "Berkeley, USA" == "University of California, Berkeley, USA"
  {
  }

  lemma CambridgeWords()
    ensures "University of " + "Cambridge, UK" == "University of Cambridge, UK"
  {
  }

  /** The classifier's verdict on the source's worked example of a university. */
  lemma BerkeleyIsAcademic()
    ensures !IsNonAcademic("University of California, Berkeley, USA")
  {
    var a, b, c := "University of ", "California, ", "Berkeley, USA";
    UniversityOfHasNoOpening();
    CaliforniaHasNoOpening();
    BerkeleyHasNoOpening();
    NoOpeningsAppend(a, b);
    NoOpeningsAppend(a + b, c);
    BerkeleyWords();
    NoKeywordWithoutOpenings(a + b + c);
  }

  /** The affiliation of the parser's academic test record holds no keyword. */
  lemma CambridgeIsAcademic()
    ensures !IsNonAcademic("University of Cambridge, UK")
  {
    var a, b := "University of ", "Cambridge, UK";
    UniversityOfHasNoOpening();
    CambridgeHasNoOpening();
    NoOpeningsAppend(a, b);
    CambridgeWords();
    NoKeywordWithoutOpenings(a + b);
  }
}
