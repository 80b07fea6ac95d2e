# paperfetcher record processing, modelled in Dafny

paperfetcher fetches PubMed papers and keeps those with at least one author
from a pharmaceutical or biotech company. This project models the part of it
that decides:

- **Text helpers** (`paperfetcher/utils.py`), in modules `TextUtils`, `Affiliation` and `Email`:
  - the 20-entry keyword list and `is_non_academic`, a case-insensitive substring test;
  - `extract_email`, a search for one fixed email pattern in a string, or in a list joined with single spaces;
  - `clean_text`, which collapses each whitespace run to one space and trims.
- **Record transformer and filter** (`paperfetcher/core.py`), in module `Core`:
  - the per-record body of `parse_medline`, over records that are already tokenised. A record is a map from MEDLINE tag to a string or a list of strings.
  - `filter_non_academic`.
- **Consequences** (module `RecordFacts`): what follows for whole records, and the records of the repository's own tests.

Modelling choices:

- `parse_medline` and its affiliation loop mutate lists step by step, so they are `method`s with loops (`ParseMedline`, `CollectNonAcademic`). The per-record body and its email steps are straight-line methods (`ParseRecord`, `ResolveEmail`).
  - Each method is proved equal to a function (`ParseAll`, `PaperOf`, `EmailOf`) or to its set-valued meaning.
  - The properties are lemmas about those functions.
- The utilities and the filter are pure, so they are functions and lemmas.
- The email regex is not modelled through a general regex engine. It is modelled by:
  - `MatchAt`, a declarative description of when a slice matches `[a-zA-Z0-9._%+-]+@[a-zA-Z0-9.-]+\.[a-zA-Z]{2,}`;
  - `SearchResult`, the leftmost start and, at that start, the longest end. This is what Python's backtracking `re.search` reports for this pattern: the local part is a maximal run, the domain gives back characters only up to the last dot that is followed by two letters, and the top-level domain is greedy;
  - `Search`, a hand-written matcher, proved to find exactly that result.
- Whitespace is the set of characters Python's `str.isspace` and `\s` accept. Lower-casing covers ASCII letters only.
- The two output collections are built with `set()` in the source, so `Paper` holds them as `set<string>` and no order is claimed.
- PMID, DP and EM are passed through verbatim as a string or a list. A test expects EM as a list (tests/test_core.py:34).
- IR is appended with `list.extend`. A list IR contributes its entries. A scalar IR contributes its characters, one by one (`Elements`).
- Under TI and AB the source calls `clean_text`, which would raise on a list. `WellFormed` therefore requires TI and AB, when present, to be strings.

## Model

| member | source | states |
|---|---|---|
| Affiliation.IsNonAcademic | paperfetcher/utils.py:5-14 | true exactly when some entry of the 20-keyword list occurs as a substring of the lower-cased affiliation |
| Affiliation.LowerNormalises | paperfetcher/utils.py:13 | the lower-cased text holds no ASCII capital; lower-casing twice equals lower-casing once; lower-casing the upper-cased text equals lower-casing the text |
| Affiliation.IsNonAcademicIgnoresCase | paperfetcher/utils.py:13-14 | two affiliations of equal length that agree after lower-casing, character by character, get the same verdict |
| Affiliation.IsNonAcademicOfUpperAndLower | paperfetcher/utils.py:13-14 | upper-casing or lower-casing an affiliation does not change the verdict |
| Affiliation.PfizerIsNonAcademic | tests/test_utils.py:3-4 | "Pfizer Inc., New York, USA" is non-academic |
| Affiliation.PfizerNyIsNonAcademic | tests/test_core.py:10 | "Pfizer Inc., NY, USA" is non-academic |
| Affiliation.NoKeywordWithoutOpenings | paperfetcher/utils.py:5-14 | a text in which no adjacent pair of lower-cased characters opens a keyword is academic |
| Affiliation.BerkeleyIsAcademic | tests/test_utils.py:6-7 | "University of California, Berkeley, USA" is not non-academic |
| Affiliation.CambridgeIsAcademic | tests/test_core.py:29 | "University of Cambridge, UK" is not non-academic |
| Email.SearchFrom | paperfetcher/utils.py:20 | a result found from position i is a match that starts no earlier than any match from i, and no match at the same start runs further; no result means no match starts at i or later |
| Email.Search | paperfetcher/utils.py:20 | a result is the leftmost-longest match (`SearchResult`); there is no result exactly when the text has no match |
| Email.LongestMatchAtComplete | paperfetcher/utils.py:20 | at a given start, the matcher finds a match whenever one exists, and ends it no earlier than any match from that start |
| Email.ExtractEmail | paperfetcher/utils.py:16-21 | "N/A" exactly when the scanned text (a string, or a list joined with single spaces) holds no match; otherwise it is the slice of the leftmost, longest match |
| Email.SearchResultUnique | paperfetcher/utils.py:20 | the match `re.search` reports is unique |
| Email.ExtractedIsEmail | paperfetcher/utils.py:20-21 | a reported address has the form L@D.T and contains exactly one '@' |
| Email.ExtractEmailNotEmpty | paperfetcher/utils.py:21 | the result is never the empty string |
| Email.ExtractEmailAcrossSpace | paperfetcher/utils.py:18-20 | joining two texts with a space yields the first text's address if it has one, and the second's otherwise; no match spans the space |
| Email.ExtractEmailOfList | paperfetcher/utils.py:18-19 | on a list, the result is the address of the first element that holds one, scanning in list order (`FirstEmail`), or "N/A" |
| Email.FirstEmailAppend | paperfetcher/utils.py:18-19 | scanning two lists in a row takes the first list's address when it has one |
| Email.NoAtNoEmail | paperfetcher/utils.py:20-21 | a text without '@' gives "N/A" |
| Email.AddressAfter | paperfetcher/utils.py:20-21 | a text made of a prefix without '@' that does not end in a local-part character, followed by `user@host.tld`, gives exactly `user@host.tld` |
| Email.ExampleFromString | tests/test_utils.py:9-11 | "Contact: john.doe@pfizer.com" gives "john.doe@pfizer.com" |
| Email.ExampleFromList | tests/test_utils.py:13-15 | ["Reach out: support@biotech.com", "Thanks"] gives "support@biotech.com" |
| Email.ExampleNone | tests/test_utils.py:17-19 | ["No contact info here"] gives "N/A" |
| TextUtils.JoinAppend | paperfetcher/utils.py:19 | joining two non-empty lists one after the other is their two joins with exactly one space between them |
| TextUtils.CleanText | paperfetcher/utils.py:24-25 | the result has no whitespace at either end, no two adjacent whitespace characters, only plain spaces as whitespace, and the input's non-whitespace characters in order |
| TextUtils.CollapseKeepsNonSpace | paperfetcher/utils.py:25 | collapsing whitespace runs keeps the non-whitespace characters in order |
| TextUtils.CollapseShape | paperfetcher/utils.py:25 | after collapsing, no two whitespace characters are adjacent, every whitespace character is a space, and the text starts with whitespace exactly when the input does |
| TextUtils.StripKeepsNonSpace | paperfetcher/utils.py:25 | stripping leaves no whitespace at either end and removes only whitespace |
| TextUtils.CleanTextFixesClean | paperfetcher/utils.py:24-25 | `clean_text` returns its input unchanged exactly when the input is already clean |
| TextUtils.CleanTextJoinsWords | paperfetcher/utils.py:24-25 | `clean_text(s)` is the words of `s` (its maximal runs of non-whitespace characters, `Words`) joined with single spaces, so it keeps the words of `s` and puts exactly one space between neighbouring words |
| TextUtils.WordsCollapse | paperfetcher/utils.py:25 | collapsing whitespace runs keeps the words |
| TextUtils.WordsStrip | paperfetcher/utils.py:25 | stripping keeps the words |
| TextUtils.CleanIsJoinedWords | paperfetcher/utils.py:24-25 | a clean text is its words joined with single spaces |
| TextUtils.CleanTextIdempotent | paperfetcher/utils.py:24-25 | applying `clean_text` twice equals applying it once |
| Core.CleanDefault | paperfetcher/core.py:38-40 | `clean_text` leaves the defaults "No Title" and "" unchanged |
| Core.CollectNonAcademic | paperfetcher/core.py:50-53 | the loop collects exactly the non-academic affiliations; it collects no author when it collects no affiliation, and every author otherwise |
| Core.ResolveEmail | paperfetcher/core.py:56-67 | the email is EM when EM is truthy; otherwise it is `extract_email` over affiliations, then IR entries, then the raw abstract; "N/A" replaces a falsy result (`EmailOf`) |
| Core.ParseRecord | paperfetcher/core.py:36-77 | one loop iteration builds exactly the entry `PaperOf` describes |
| Core.CollectedSets | paperfetcher/core.py:74-75 | the two collected lists, read as sets, are the "Company Affiliations" and "Non-academic Authors" entries |
| Core.MapRecords | paperfetcher/core.py:36-79 | mapping a function over records gives one result per record, in the records' order |
| Core.ParseMedline | paperfetcher/core.py:30-79 | the loop that appends one entry per record returns `ParseAll(records)` |
| Core.FilterNonAcademic | paperfetcher/core.py:82-84 | the result is no longer than the input and holds exactly the input papers with some non-academic company affiliation |
| Core.FilterAppend | paperfetcher/core.py:84 | filtering preserves order: filtering a concatenation is the concatenation of the filtered parts |
| Core.FilterKeepsAllIff | paperfetcher/core.py:84 | the filter returns its input unchanged exactly when every paper passes the test |
| Core.FilterIdempotent | paperfetcher/core.py:84 | filtering twice equals filtering once |
| RecordFacts.FieldDefaults | paperfetcher/core.py:37-40 | PubmedID is PMID or "N/A"; Title is `clean_text` of TI or "No Title"; Publication Date is DP or "Unknown"; Abstract is `clean_text` of AB or "" |
| RecordFacts.TextFieldsAreClean | paperfetcher/core.py:38-40 | Title and Abstract are clean and keep the non-whitespace characters of TI and AB, or of the defaults |
| RecordFacts.AffiliationsNormalised | paperfetcher/core.py:44-45 | a scalar AD becomes a one-element list, a list AD is kept, and a missing AD is the empty list |
| RecordFacts.CompanyAffiliationsExact | paperfetcher/core.py:50-75 | Company Affiliations holds exactly the affiliations that are non-academic |
| RecordFacts.AuthorsFollowCompanies | paperfetcher/core.py:50-74 | Non-academic Authors is every AU entry when Company Affiliations is non-empty, and empty otherwise; so a non-empty author set implies a non-empty company set |
| RecordFacts.CompanyWithoutAuthors | paperfetcher/core.py:41-74 | the converse fails: a company affiliation in a record without AU leaves Non-academic Authors empty |
| RecordFacts.EmailFromEmField | paperfetcher/core.py:56-76 | a truthy EM is the email, verbatim |
| RecordFacts.EmailFromFallback | paperfetcher/core.py:59-76 | without a truthy EM, the email is the first address found in affiliations, then IR, then the abstract, or "N/A"; an address in the affiliations wins |
| RecordFacts.EmailIsNeverEmpty | paperfetcher/core.py:76 | the email entry is always truthy |
| RecordFacts.ScalarIrGivesNoEmail | paperfetcher/core.py:63-64 | a scalar IR, split into single characters, never supplies an address |
| RecordFacts.ParsedCompaniesAreNonAcademic | paperfetcher/core.py:50-75 | every company affiliation of a parsed entry is non-academic |
| RecordFacts.FilterTestIsNonEmptyCompanies | paperfetcher/core.py:84 | on an entry whose company affiliations all pass `is_non_academic`, the filter keeps the entry exactly when Company Affiliations is non-empty |
| RecordFacts.FilterParsed | paperfetcher/core.py:82-84 | filtering parsed entries keeps exactly those whose Company Affiliations is non-empty |
| RecordFacts.AbstractAddressFallback | paperfetcher/core.py:59-67 | with no EM or IR, an affiliation without '@' and an abstract ending in an address, the email is that address |
| RecordFacts.FallbackToAbstract | tests/test_core.py:14-38 | the VaccineBio record's email is "support@vaccinebio.com", taken from the abstract |
| RecordFacts.NoAtGivesNoEmail | tests/test_core.py:23-42 | with no EM or IR and no '@' in AD or AB, the email is "N/A" |
| RecordFacts.AcademicRecordFlagsNothing | tests/test_core.py:23-30 | the Cambridge record has no company affiliation and no non-academic author |
| RecordFacts.CompanyRecordFlagged | tests/test_core.py:4-12 | the Pfizer record's Company Affiliations is exactly {"Pfizer Inc., NY, USA"} |
| RecordFacts.FilterCompanyAndAcademic | tests/test_core.py:44-49 | filtering the Pfizer entry and the Cambridge entry keeps only the Pfizer entry |

## Left out

- PubMed access is not part of this model. This covers `search_pubmed` and `fetch_paper_details` in paperfetcher/core.py: Entrez network calls, batching and rate-limit sleeps.
- Biopython's `Medline.parse`, which tokenises MEDLINE text, is not part of this model. Records are taken as already-tokenised maps.
- The command line (cli.py), the CSV and console writer (paperfetcher/writer.py) and the Ollama HTTP client are I/O and are not modelled.
- The model encodes only the one email pattern, not general Python regex semantics.
- Lower-casing covers ASCII letters only. Python's `str.lower` also folds non-ASCII letters. Only two of them lower-case into ASCII: U+212A KELVIN SIGN becomes 'k', and U+0130 becomes 'i' followed by U+0307. No keyword contains 'k' or ends in 'i', so this changes no verdict for the 20 keywords. That argument is not part of the proofs.
- A list under TI or AB makes `clean_text` raise `TypeError` in the source. `WellFormed` excludes it instead of modelling the exception.
- `TitleOf` and `AbstractOf` write the default "No Title" or "" directly rather than as `clean_text` of the default. `CleanDefault` proves the two are equal.
- The test records are stated as lemmas over any record holding the test's fields. Their email strings are written as concatenations of their parts, such as "Contact: " + "john.doe" + "@" + "pfizer" + "." + "com", which equal the test's strings.
- RecordFacts.AuthorsFollowCompanies: "Non-academic Authors is non-empty if and only if Company Affiliations is non-empty" does not hold for the code, because AU may be missing or empty. The code is followed: only the implication from authors to companies is proved, and `CompanyWithoutAuthors` shows the converse fails.
