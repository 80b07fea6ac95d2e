/** `extract_email` of `paperfetcher/utils.py`: the first match of the one
    pattern `[a-zA-Z0-9._%+-]+@[a-zA-Z0-9.-]+\.[a-zA-Z]{2,}`, or "N/A".

    The matcher below is written for this pattern only. For it, Python's
    backtracking `re.search` reports the leftmost start at which any match
    begins and, at that start, the longest match: the local part is the whole
    run of local characters before the '@' (no shorter run is followed by an
    '@'), the domain backs off to the last '.' that is followed by two
    letters, and the top-level domain takes every letter after that dot. */
module Email {
  import opened TextUtils

  datatype Option<T> = None | Some(value: T)

  /** What `extract_email` returns when nothing matches. */
  const NotAvailable: string := "N/A"

  predicate IsAsciiLetter(c: char)
  {
    'a' <= c <= 'z' || 'A' <= c <= 'Z'
  }

  predicate IsDigit(c: char)
  {
    '0' <= c <= '9'
  }

  /** `[a-zA-Z0-9._%+-]` */
  predicate IsLocalChar(c: char)
  {
    IsAsciiLetter(c) || IsDigit(c) || c == '.' || c == '_' || c == '%' || c == '+' || c == '-'
  }

  /** `[a-zA-Z0-9.-]` */
  predicate IsDomainChar(c: char)
  {
    IsAsciiLetter(c) || IsDigit(c) || c == '.' || c == '-'
  }

  /** `s[i..q]` matches the pattern with its '@' at `j` and the dot before the
      top-level domain at `p`. */
  ghost predicate MatchesWith(s: string, i: int, j: int, p: int, q: int)
  {
    && 0 <= i < j && j + 1 < p && p + 2 < q <= |s|
    && (forall k :: i <= k < j ==> IsLocalChar(s[k]))
    && s[j] == '@'
    && (forall k :: j < k < p ==> IsDomainChar(s[k]))
    && s[p] == '.'
    && (forall k :: p < k < q ==> IsAsciiLetter(s[k]))
  }

  /** `s[i..q]` matches the pattern. */
  ghost predicate MatchAt(s: string, i: int, q: int)
  {
    exists j, p :: MatchesWith(s, i, j, p, q)
  }

  ghost predicate HasMatch(s: string)
  {
    exists i, q :: MatchAt(s, i, q)
  }

  /** The whole of `m` is an address of the pattern's form `L@D.T`. */
  ghost predicate IsEmail(m: string)
  {
    MatchAt(m, 0, |m|)
  }

  /** `s[i..q]` is the match `re.search` reports: no match starts before `i`
      and none that starts at `i` runs past `q`. */
  ghost predicate SearchResult(s: string, i: int, q: int)
  {
    && MatchAt(s, i, q)
    && (forall i', q' :: MatchAt(s, i', q') ==> i <= i')
    && (forall q' :: MatchAt(s, i, q') ==> q' <= q)
  }

  /** The end of the longest run of `inClass` characters that starts at `k`. */
  function RunEnd(s: string, k: nat, inClass: char -> bool): (e: nat)
    requires k <= |s|
    ensures k <= e <= |s|
    ensures forall m :: k <= m < e ==> inClass(s[m])
    ensures e == |s| || !inClass(s[e])
    decreases |s| - k
  {
    if k < |s| && inClass(s[k]) then RunEnd(s, k + 1, inClass) else k
  }

  /** A '.' at `p` followed by two letters: where `\.[a-zA-Z]{2,}` can begin. */
  predicate DotStartsTld(s: string, p: int)
  {
    0 <= p && p + 2 < |s| && s[p] == '.' && IsAsciiLetter(s[p + 1]) && IsAsciiLetter(s[p + 2])
  }

  /** The last `p` with `lo < p < hi` at which a top-level domain can begin. */
  function LastTldDot(s: string, lo: nat, hi: nat): (r: Option<nat>)
    ensures r.Some? ==> lo < r.value < hi && DotStartsTld(s, r.value)
    ensures r.Some? ==> forall p :: r.value < p < hi ==> !DotStartsTld(s, p)
    ensures r.None? ==> forall p :: lo < p < hi ==> !DotStartsTld(s, p)
    decreases hi
  {
    if hi <= lo + 1 then None
    else if DotStartsTld(s, hi - 1) then Some(hi - 1)
    else LastTldDot(s, lo, hi - 1)
  }

  /** The end of the longest match that starts at `i`, if any does. */
  function LongestMatchAt(s: string, i: nat): (r: Option<nat>)
    requires i <= |s|
  {
    var j := RunEnd(s, i, IsLocalChar);
    if j == i || j == |s| || s[j] != '@' then None
    else
      var e := RunEnd(s, j + 1, IsDomainChar);
      match LastTldDot(s, j + 1, e)
      case None => None
      case Some(p) => Some(RunEnd(s, p + 1, IsAsciiLetter))
  }

  /** Every match starting at `i` has its '@' where the run of local
      characters from `i` ends, its dot inside the domain run after that, and
      ends no later than the run of letters after its dot. */
  lemma MatchShape(s: string, i: int, j: int, p: int, q: int)
    requires MatchesWith(s, i, j, p, q)
    ensures j == RunEnd(s, i, IsLocalChar)
    ensures j + 1 < p < RunEnd(s, j + 1, IsDomainChar) && DotStartsTld(s, p)
    ensures q <= RunEnd(s, p + 1, IsAsciiLetter)
  {
    var j' := RunEnd(s, i, IsLocalChar);
    assert j' > j ==> IsLocalChar(s[j]);
    var e := RunEnd(s, j + 1, IsDomainChar);
    var t := RunEnd(s, p + 1, IsAsciiLetter);
  }

  /** What `LongestMatchAt` reports is a match. */
  lemma LongestMatchAtSound(s: string, i: nat)
    requires i <= |s| && LongestMatchAt(s, i).Some?
    ensures MatchAt(s, i, LongestMatchAt(s, i).value)
  {
    var j := RunEnd(s, i, IsLocalChar);
    var e := RunEnd(s, j + 1, IsDomainChar);
    var p := LastTldDot(s, j + 1, e).value;
    var q := RunEnd(s, p + 1, IsAsciiLetter);
    assert q == LongestMatchAt(s, i).value;
    assert MatchesWith(s, i, j, p, q);
  }

  /** Any match at `i` is found by `LongestMatchAt` and is no longer than
      what it reports. */
  lemma LongestMatchAtComplete(s: string, i: nat, q': int)
    requires i <= |s| && MatchAt(s, i, q')
    ensures LongestMatchAt(s, i).Some? && q' <= LongestMatchAt(s, i).value
  {
    var j', p' :| MatchesWith(s, i, j', p', q');
    MatchShape(s, i, j', p', q');
    var e := RunEnd(s, j' + 1, IsDomainChar);
    var p := LastTldDot(s, j' + 1, e).value;
    LongestMatchAtIs(s, i, j', e, p);
    LetterRunBound(s, p', p);
  }

  lemma LongestMatchAtIs(s: string, i: nat, j: nat, e: nat, p: nat)
    requires i < j < |s| && j == RunEnd(s, i, IsLocalChar) && s[j] == '@'
    requires e == RunEnd(s, j + 1, IsDomainChar) && LastTldDot(s, j + 1, e) == Some(p)
    ensures LongestMatchAt(s, i) == Some(RunEnd(s, p + 1, IsAsciiLetter))
  {
  }

  /** The letters after a later top-level-domain dot run at least as far. */
  lemma LetterRunBound(s: string, p': nat, p: nat)
    requires DotStartsTld(s, p') && DotStartsTld(s, p) && p' <= p
    ensures RunEnd(s, p' + 1, IsAsciiLetter) <= RunEnd(s, p + 1, IsAsciiLetter)
  {
    if p' < p {
      assert !IsAsciiLetter(s[p]);
    }
  }

  /** `re.search` from index `i` onwards: the leftmost start at or after `i`
      where a match begins, with the longest match there. */
  function SearchFrom(s: string, i: nat): (r: Option<(nat, nat)>)
    requires i <= |s|
    ensures r.Some? ==> i <= r.value.0 && MatchAt(s, r.value.0, r.value.1)
    ensures r.Some? ==> forall i', q' :: i <= i' && MatchAt(s, i', q') ==> r.value.0 <= i'
    ensures r.Some? ==> forall q' :: MatchAt(s, r.value.0, q') ==> q' <= r.value.1
    ensures r.None? ==> forall i', q' :: i <= i' ==> !MatchAt(s, i', q')
    decreases |s| - i
  {
    if i == |s| then
      assert forall i', q' :: i <= i' && MatchAt(s, i', q') ==> i' == i;
      None
    else
      match LongestMatchAt(s, i)
      case Some(q) =>
        LongestMatchAtSound(s, i);
        assert forall q' :: MatchAt(s, i, q') ==> q' <= q by {
          forall q' | MatchAt(s, i, q') ensures q' <= q {
            LongestMatchAtComplete(s, i, q');
          }
        }
        Some((i, q))
      case None =>
        assert forall q' :: !MatchAt(s, i, q') by {
          forall q' | MatchAt(s, i, q') ensures false {
            LongestMatchAtComplete(s, i, q');
          }
        }
        SearchFrom(s, i + 1)
  }

  /** `re.search(pattern, s)`, as start and end of the match. */
  function Search(s: string): (r: Option<(nat, nat)>)
    ensures r.Some? ==> SearchResult(s, r.value.0, r.value.1)
    ensures r.None? <==> !HasMatch(s)
  {
    SearchFrom(s, 0)
  }

  /** The text `extract_email` scans: a list is joined with single spaces. */
  function Scanned(text: StrOrList): string
  {
    match text
    case Str(s) => s
    case List(xs) => Join(xs)
  }

  /** `extract_email(text)`. */
  function ExtractEmail(text: StrOrList): (r: string)
    ensures r == NotAvailable <==> !HasMatch(Scanned(text))
    ensures r != NotAvailable ==>
      exists i, q :: SearchResult(Scanned(text), i, q) && r == Scanned(text)[i..q]
  {
    var s := Scanned(text);
    match Search(s)
    case Some((i, q)) =>
      assert s[i..q] != NotAvailable by {
        var j, p :| MatchesWith(s, i, j, p, q);
        assert |s[i..q]| >= 6;
      }
      s[i..q]
    case None => NotAvailable
  }

  /** Two reported matches of the same text are the same match. */
  lemma SearchResultUnique(s: string, i: int, q: int, i': int, q': int)
    requires SearchResult(s, i, q) && SearchResult(s, i', q')
    ensures i == i' && q == q'
  {
  }

  /** Whether a match covers a stretch of text depends on that stretch only. */
  lemma MatchAtTransfer(s: string, i: int, q: int, t: string, i2: int)
    requires 0 <= i <= q <= |s| && 0 <= i2 && i2 + (q - i) <= |t|
    requires forall k :: i <= k < q ==> s[k] == t[i2 + (k - i)]
    requires MatchAt(s, i, q)
    ensures MatchAt(t, i2, i2 + (q - i))
  {
    var j, p :| MatchesWith(s, i, j, p, q);
    var d := i2 - i;
    forall k | i2 <= k < j + d ensures IsLocalChar(t[k]) {
      assert s[k - d] == t[i2 + (k - d - i)];
    }
    forall k | j + d < k < p + d ensures IsDomainChar(t[k]) {
      assert s[k - d] == t[i2 + (k - d - i)];
    }
    forall k | p + d < k < q + d ensures IsAsciiLetter(t[k]) {
      assert s[k - d] == t[i2 + (k - d - i)];
    }
    assert s[j] == t[i2 + (j - i)] && s[p] == t[i2 + (p - i)];
    assert MatchesWith(t, i2, j + d, p + d, q + d);
  }

  /** No match contains a space. */
  lemma MatchHasNoSpace(s: string, i: int, q: int, k: int)
    requires MatchAt(s, i, q) && i <= k < q
    ensures s[k] != ' '
  {
    var j, p :| MatchesWith(s, i, j, p, q);
  }

  /** An address of the pattern's form holds exactly one '@'. */
  lemma EmailHasOneAt(m: string)
    requires IsEmail(m)
    ensures '@' in m
    ensures forall k, k' :: 0 <= k < k' < |m| ==> m[k] != '@' || m[k'] != '@'
  {
    var j, p :| MatchesWith(m, 0, j, p, |m|);
    assert m[j] == '@';
    forall k | 0 <= k < |m| && k != j ensures m[k] != '@' {
      assert k < j ==> IsLocalChar(m[k]);
      assert j < k < p ==> IsDomainChar(m[k]);
      assert p < k ==> IsAsciiLetter(m[k]);
    }
  }

  /** The reported stretch of text is itself an address. */
  lemma SearchResultIsEmail(s: string, i: int, q: int)
    requires SearchResult(s, i, q)
    ensures IsEmail(s[i..q])
  {
    MatchAtTransfer(s, i, q, s[i..q], 0);
  }

  /** A result other than "N/A" is an address `L@D.T`, so it holds exactly one '@'. */
  lemma ExtractedIsEmail(text: StrOrList)
    requires ExtractEmail(text) != NotAvailable
    ensures IsEmail(ExtractEmail(text))
    ensures '@' in ExtractEmail(text)
    ensures forall k, k' :: 0 <= k < k' < |ExtractEmail(text)| ==>
      ExtractEmail(text)[k] != '@' || ExtractEmail(text)[k'] != '@'
  {
    var s := Scanned(text);
    var i, q :| SearchResult(s, i, q) && ExtractEmail(text) == s[i..q];
    SearchResultIsEmail(s, i, q);
    EmailHasOneAt(s[i..q]);
  }

  /** `extract_email` never returns an empty string, so the caller's
      `email or "N/A"` keeps what it got. */
  lemma ExtractEmailNotEmpty(text: StrOrList)
    ensures ExtractEmail(text) != ""
  {
    if ExtractEmail(text) != NotAvailable {
      ExtractedIsEmail(text);
    }
  }

  /** A text shorter than six characters holds no address. */
  lemma ShortTextHasNoMatch(s: string)
    requires |s| < 6
    ensures !HasMatch(s)
  {
  }

  /** A match in `a + " " + b` lies wholly in `a` or wholly in `b`. */
  lemma MatchAcrossSpace(a: string, b: string, i: int, q: int)
    requires MatchAt(a + " " + b, i, q)
    ensures i < |a| ==> q <= |a| && MatchAt(a, i, q)
    ensures i >= |a| ==> i > |a| && MatchAt(b, i - |a| - 1, q - |a| - 1)
  {
    var s := a + " " + b;
    var n := |a|;
    if i <= n < q {
      MatchHasNoSpace(s, i, q, n);
    }
    if i < n {
      MatchAtTransfer(s, i, q, a, i);
    } else {
      MatchAtTransfer(s, i, q, b, i - n - 1);
    }
  }

  /** `MatchAtTransfer` for a stretch given as a slice. */
  lemma MatchAtTransferSlice(s: string, i: int, q: int, t: string, i2: int)
    requires 0 <= i <= q <= |s| && 0 <= i2 && i2 + (q - i) <= |t|
    requires s[i..q] == t[i2..i2 + (q - i)]
    requires MatchAt(s, i, q)
    ensures MatchAt(t, i2, i2 + (q - i))
  {
    forall k | i <= k < q ensures s[k] == t[i2 + (k - i)] {
      assert s[k] == s[i..q][k - i];
      assert t[i2 + (k - i)] == t[i2..i2 + (q - i)][k - i];
    }
    MatchAtTransfer(s, i, q, t, i2);
  }

  /** Matches of `a` are matches of `a + " " + b`, in place. */
  lemma MatchIntoJoinLeft(a: string, b: string)
    ensures forall i, q :: MatchAt(a, i, q) ==> MatchAt(a + " " + b, i, q)
  {
    forall i, q | MatchAt(a, i, q) ensures MatchAt(a + " " + b, i, q) {
      SliceOfJoinLeft(a, b, i, q);
      MatchAtTransferSlice(a, i, q, a + " " + b, i);
    }
  }

  /** Matches of `b` are matches of `a + " " + b`, shifted past `a` and the
      space. */
  lemma MatchIntoJoinRight(a: string, b: string)
    ensures forall i, q :: MatchAt(b, i, q) ==> MatchAt(a + " " + b, i + |a| + 1, q + |a| + 1)
  {
    forall i, q | MatchAt(b, i, q) ensures MatchAt(a + " " + b, i + |a| + 1, q + |a| + 1) {
      SliceOfJoinRight(a, b, i, q);
      MatchAtTransferSlice(b, i, q, a + " " + b, i + |a| + 1);
    }
  }

  /** Where the first text holds an address, the joined text yields it. */
  lemma SearchAcrossSpaceLeft(a: string, b: string, i: int, q: int)
    requires SearchResult(a, i, q)
    ensures SearchResult(a + " " + b, i, q)
  {
    var s := a + " " + b;
    MatchIntoJoinLeft(a, b);
    forall i', q' | MatchAt(s, i', q') ensures i <= i' {
      MatchAcrossSpace(a, b, i', q');
    }
    forall q' | MatchAt(s, i, q') ensures q' <= q {
      MatchAcrossSpace(a, b, i, q');
    }
  }

  /** Where only the second text holds an address, the joined text yields
      it, shifted past the first text and the space. */
  lemma SearchAcrossSpaceRight(a: string, b: string, i: int, q: int)
    requires !HasMatch(a) && SearchResult(b, i, q)
    ensures SearchResult(a + " " + b, i + |a| + 1, q + |a| + 1)
  {
    var s := a + " " + b;
    var n := |a|;
    MatchIntoJoinRight(a, b);
    forall i', q' | MatchAt(s, i', q') ensures i + n + 1 <= i' {
      MatchAcrossSpace(a, b, i', q');
      assert i' < n ==> MatchAt(a, i', q');
    }
    var i2 := i + n + 1;
    forall q' | MatchAt(s, i2, q') ensures q' <= q + n + 1 {
      MatchAcrossSpace(a, b, i2, q');
    }
  }

  /** Where neither text holds an address, neither does the joined text. */
  lemma SearchAcrossSpaceNone(a: string, b: string)
    requires !HasMatch(a) && !HasMatch(b)
    ensures !HasMatch(a + " " + b)
  {
    forall i, q | MatchAt(a + " " + b, i, q) ensures false {
      MatchAcrossSpace(a, b, i, q);
    }
  }

  /** `extract_email` on a string returns the reported match. */
  lemma ExtractEmailOfSearchResult(s: string, i: int, q: int)
    requires SearchResult(s, i, q)
    ensures ExtractEmail(Str(s)) == s[i..q]
  {
    var r := Search(s);
    assert HasMatch(s);
    SearchResultUnique(s, i, q, r.value.0, r.value.1);
  }

  /** A text that holds an address has a reported match. */
  lemma SearchResultExists(s: string)
    requires HasMatch(s)
    ensures exists i, q :: SearchResult(s, i, q)
  {
    var r := Search(s).value;
    assert SearchResult(s, r.0, r.1);
  }

  lemma ExtractEmailAcrossSpaceLeft(a: string, b: string, i: int, q: int)
    requires SearchResult(a, i, q)
    ensures ExtractEmail(Str(a + " " + b)) == ExtractEmail(Str(a))
  {
    SearchAcrossSpaceLeft(a, b, i, q);
    ExtractEmailOfSearchResult(a, i, q);
    ExtractEmailOfSearchResult(a + " " + b, i, q);
    SliceOfJoinLeft(a, b, i, q);
  }

  lemma SliceOfJoinLeft(a: string, b: string, i: int, q: int)
    requires 0 <= i <= q <= |a|
    ensures (a + " " + b)[i..q] == a[i..q]
  {
  }

  lemma ExtractEmailAcrossSpaceRight(a: string, b: string, i: int, q: int)
    requires !HasMatch(a) && SearchResult(b, i, q)
    ensures ExtractEmail(Str(a + " " + b)) == ExtractEmail(Str(b))
  {
    SearchAcrossSpaceRight(a, b, i, q);
    ExtractEmailOfJoinRight(a, b, i, q);
    ExtractEmailOfSearchResult(b, i, q);
  }

  lemma ExtractEmailOfJoinRight(a: string, b: string, i: int, q: int)
    requires 0 <= i <= q <= |b| && SearchResult(a + " " + b, i + |a| + 1, q + |a| + 1)
    ensures ExtractEmail(Str(a + " " + b)) == b[i..q]
  {
    SliceOfJoinRight(a, b, i, q);
    ExtractEmailOfSearchResultIs(a + " " + b, i + |a| + 1, q + |a| + 1, b[i..q]);
  }

  lemma ExtractEmailOfSearchResultIs(s: string, i: int, q: int, m: string)
    requires SearchResult(s, i, q) && s[i..q] == m
    ensures ExtractEmail(Str(s)) == m
  {
    ExtractEmailOfSearchResult(s, i, q);
  }

  lemma SliceOfJoinRight(a: string, b: string, i: int, q: int)
    requires 0 <= i <= q <= |b|
    ensures (a + " " + b)[i + |a| + 1..q + |a| + 1] == b[i..q]
  {
    assert a + " " + b == (a + " ") + b;
  }

  /** `extract_email` on two pieces joined by a space finds the first piece's
      address when it has one, and the second's otherwise. */
  lemma ExtractEmailAcrossSpace(a: string, b: string)
    ensures ExtractEmail(Str(a + " " + b)) ==
      if ExtractEmail(Str(a)) != NotAvailable then ExtractEmail(Str(a)) else ExtractEmail(Str(b))
  {
    if HasMatch(a) {
      SearchResultExists(a);
      var i, q :| SearchResult(a, i, q);
      ExtractEmailAcrossSpaceLeft(a, b, i, q);
    } else if HasMatch(b) {
      SearchResultExists(b);
      var i, q :| SearchResult(b, i, q);
      ExtractEmailAcrossSpaceRight(a, b, i, q);
    } else {
      SearchAcrossSpaceNone(a, b);
    }
  }

  /** The independent reading of `extract_email` on a list: the first element,
      in order, that holds an address supplies it. */
  function FirstEmail(xs: seq<string>): string
  {
    if xs == [] then NotAvailable
    else if ExtractEmail(Str(xs[0])) != NotAvailable then ExtractEmail(Str(xs[0]))
    else FirstEmail(xs[1..])
  }

  /** `extract_email` on a list is the first element's address, scanning the
      elements in order. */
  lemma {:induction false} ExtractEmailOfList(xs: seq<string>)
    ensures ExtractEmail(List(xs)) == FirstEmail(xs)
  {
    if xs == [] {
      assert !HasMatch("");
    } else if |xs| == 1 {
      assert Join(xs) == xs[0];
    } else {
      assert Join(xs) == xs[0] + " " + Join(xs[1..]);
      ExtractEmailAcrossSpace(xs[0], Join(xs[1..]));
      ExtractEmailOfList(xs[1..]);
    }
  }

  /** Scanning `xs` then `ys` takes an address from `xs` when it has one. */
  lemma {:induction false} FirstEmailAppend(xs: seq<string>, ys: seq<string>)
    ensures FirstEmail(xs + ys) ==
      if FirstEmail(xs) != NotAvailable then FirstEmail(xs) else FirstEmail(ys)
  {
    if xs == [] {
      assert xs + ys == ys;
    } else {
      assert (xs + ys)[0] == xs[0];
      assert (xs + ys)[1..] == xs[1..] + ys;
      FirstEmailAppend(xs[1..], ys);
    }
  }

  /** A text without an '@' holds no address. */
  lemma NoAtNoEmail(s: string)
    requires '@' !in s
    ensures ExtractEmail(Str(s)) == NotAvailable
  {
    assert !HasMatch(s);
  }

  /** A text that ends in an address, holds no other '@', and has no local
      character just before the address, reports that address. */
  lemma AddressAtEndIsResult(s: string, i: int, j: int, p: int)
    requires MatchesWith(s, i, j, p, |s|)
    requires i == 0 || !IsLocalChar(s[i - 1])
    requires forall k :: 0 <= k < |s| && s[k] == '@' ==> k == j
    ensures SearchResult(s, i, |s|)
  {
    assert MatchAt(s, i, |s|);
    forall i', q' | MatchAt(s, i', q') ensures i <= i' {
      var j', p' :| MatchesWith(s, i', j', p', q');
      assert j' == j;
    }
  }

  /** A text made of a prefix without '@' that does not end in a local
      character, then an address `user@host.tld`, yields that address. */
  lemma AddressAfter(pre: string, user: string, host: string, tld: string)
    requires '@' !in pre && (pre == [] || !IsLocalChar(pre[|pre| - 1]))
    requires user != [] && forall k :: 0 <= k < |user| ==> IsLocalChar(user[k])
    requires host != [] && forall k :: 0 <= k < |host| ==> IsDomainChar(host[k])
    requires |tld| >= 2 && forall k :: 0 <= k < |tld| ==> IsAsciiLetter(tld[k])
    ensures ExtractEmail(Str(pre + user + "@" + host + "." + tld)) == user + "@" + host + "." + tld
  {
    var s := pre + user + "@" + host + "." + tld;
    AddressAfterIsResult(pre, user, host, tld);
    ExtractEmailOfSearchResult(s, |pre|, |s|);
  }

  lemma AddressAfterIsResult(pre: string, user: string, host: string, tld: string)
    requires '@' !in pre && (pre == [] || !IsLocalChar(pre[|pre| - 1]))
    requires user != [] && forall k :: 0 <= k < |user| ==> IsLocalChar(user[k])
    requires host != [] && forall k :: 0 <= k < |host| ==> IsDomainChar(host[k])
    requires |tld| >= 2 && forall k :: 0 <= k < |tld| ==> IsAsciiLetter(tld[k])
    ensures var s := pre + user + "@" + host + "." + tld;
      SearchResult(s, |pre|, |s|) && s[|pre|..|s|] == user + "@" + host + "." + tld
  {
    var s := pre + user + "@" + host + "." + tld;
    var i, j := |pre|, |pre| + |user|;
    assert s[i..] == user + "@" + host + "." + tld;
    var p := j + 1 + |host|;
    assert s[j] == '@' && s[p] == '.';
    forall k | 0 <= k < |s|
      ensures k < i ==> s[k] == pre[k]
      ensures i <= k < j ==> IsLocalChar(s[k])
      ensures j < k < p ==> IsDomainChar(s[k])
      ensures p < k ==> IsAsciiLetter(s[k])
    {
      if k < i {
      } else if k < j {
        assert s[k] == user[k - i];
      } else if j < k < p {
        assert s[k] == host[k - j - 1];
      } else if p < k {
        assert s[k] == tld[k - p - 1];
      }
    }
    assert MatchesWith(s, i, j, p, |s|);
    assert forall k :: 0 <= k < |s| && s[k] == '@' ==> k == j;
    AddressAtEndIsResult(s, i, j, p);
  }

  /** The address is found in a single string: "Contact: john.doe@pfizer.com"
      yields "john.doe@pfizer.com". */
  lemma ExampleFromString()
    ensures ExtractEmail(Str("Contact: " + "john.doe" + "@" + "pfizer" + "." + "com"))
         == "john.doe" + "@" + "pfizer" + "." + "com"
  {
    AddressAfter("Contact: ", "john.doe", "pfizer", "com");
  }

  /** The address is found in the first element of a list. */
  lemma ExampleFromList()
    ensures ExtractEmail(List(["Reach out: " + "support" + "@" + "biotech" + "." + "com", "Thanks"]))
         == "support" + "@" + "biotech" + "." + "com"
  {
    AddressAfter("Reach out: ", "support", "biotech", "com");
    ExtractEmailOfList(["Reach out: " + "support" + "@" + "biotech" + "." + "com", "Thanks"]);
  }

  /** A list without any address yields "N/A". */
  lemma ExampleNone()
    ensures ExtractEmail(List(["No contact info here"])) == NotAvailable
  {
    NoAtNoEmail("No contact info here");
    assert Join(["No contact info here"]) == "No contact info here";
  }
}
