/** Values and whitespace handling shared by the record parser:
    the `str`-or-`list[str]` values a MEDLINE record holds, the single-space
    join that `extract_email` applies to a list, and `clean_text`. */
module TextUtils {

  /** A record value or an `extract_email` argument: a plain string or a list of strings. */
  datatype StrOrList = Str(s: string) | List(items: seq<string>)

  /** `" ".join(xs)`. */
  function Join(xs: seq<string>): (r: string)
    ensures xs == [] ==> r == ""
    ensures |xs| == 1 ==> r == xs[0]
  {
    if xs == [] then ""
    else if |xs| == 1 then xs[0]
    else xs[0] + " " + Join(xs[1..])
  }

  /** Joining two non-empty lists one after the other puts exactly one space
      between their joins. */
  lemma {:induction false} JoinAppend(xs: seq<string>, ys: seq<string>)
    requires xs != [] && ys != []
    ensures Join(xs + ys) == Join(xs) + " " + Join(ys)
  {
    if |xs| == 1 {
      assert (xs + ys)[0] == xs[0] && (xs + ys)[1..] == ys;
    } else {
      assert (xs + ys)[0] == xs[0] && (xs + ys)[1..] == xs[1..] + ys;
      JoinAppend(xs[1..], ys);
    }
  }

  /** The characters that Python's `str.isspace` and the regex class `\s` accept. */
  predicate IsSpace(c: char)
  {
    || ('\t' <= c <= '\r')
    || ('\U{1C}' <= c <= '\U{20}')
    || c == '\U{85}' || c == '\U{A0}' || c == '\U{1680}'
    || ('\U{2000}' <= c <= '\U{200A}')
    || c == '\U{2028}' || c == '\U{2029}' || c == '\U{202F}' || c == '\U{205F}' || c == '\U{3000}'
  }

  /** The non-whitespace characters of `s`, in order. */
  function NonSpace(s: string): string
  {
    if s == [] then "" else (if IsSpace(s[0]) then "" else [s[0]]) + NonSpace(s[1..])
  }

  ghost predicate NoEdgeSpace(s: string)
  {
    s != [] ==> !IsSpace(s[0]) && !IsSpace(s[|s| - 1])
  }

  /** No two whitespace characters stand side by side (`j` and `k` are
      neighbours). */
  ghost predicate NoDoubleSpace(s: string)
  {
    forall j, k :: 0 <= j && k == j + 1 && k < |s| ==> !IsSpace(s[j]) || !IsSpace(s[k])
  }

  /** Every whitespace character left is a plain space. */
  ghost predicate OnlyPlainSpaces(s: string)
  {
    forall k :: 0 <= k < |s| && IsSpace(s[k]) ==> s[k] == ' '
  }

  /** What `clean_text` promises of its result. */
  ghost predicate Clean(s: string)
  {
    NoEdgeSpace(s) && NoDoubleSpace(s) && OnlyPlainSpaces(s)
  }

  /** `s` with its leading whitespace removed (`str.lstrip`). */
  function DropSpaces(s: string): (r: string)
    ensures |r| <= |s| && r == s[|s| - |r|..]
    ensures forall k :: 0 <= k < |s| - |r| ==> IsSpace(s[k])
    ensures r == [] || !IsSpace(r[0])
    ensures s != [] && IsSpace(s[0]) ==> |r| < |s|
  {
    if s != [] && IsSpace(s[0]) then DropSpaces(s[1..]) else s
  }

  /** `s` with its trailing whitespace removed (`str.rstrip`). */
  function DropTrailingSpaces(s: string): (r: string)
    ensures |r| <= |s| && r == s[..|r|]
    ensures forall k :: |r| <= k < |s| ==> IsSpace(s[k])
    ensures r == [] || !IsSpace(r[|r| - 1])
  {
    if s != [] && IsSpace(s[|s| - 1]) then DropTrailingSpaces(s[..|s| - 1]) else s
  }

  /** `re.sub(r"\s+", " ", s)`: every maximal whitespace run becomes one space. */
  function CollapseSpaces(s: string): (r: string)
    decreases |s|
  {
    if s == [] then ""
    else if IsSpace(s[0]) then " " + CollapseSpaces(DropSpaces(s))
    else [s[0]] + CollapseSpaces(s[1..])
  }

  /** `str.strip()`. */
  function Strip(s: string): (r: string)
  {
    DropTrailingSpaces(DropSpaces(s))
  }

  /** `clean_text(s)`: collapse whitespace runs, then trim. */
  function CleanText(s: string): (r: string)
    ensures Clean(r)
    ensures NonSpace(r) == NonSpace(s)
  {
    CollapseKeepsNonSpace(s);
    CollapseShape(s);
    StripKeepsNonSpace(CollapseSpaces(s));
    StripKeepsSpacing(CollapseSpaces(s));
    Strip(CollapseSpaces(s))
  }

  /** The words of `s`: its maximal runs of non-whitespace characters, in
      order. A non-whitespace character starts a new word when whitespace or
      the end of the text follows it, and is put in front of the next word
      otherwise. */
  function Words(s: string): (ws: seq<string>)
    ensures s != [] && !IsSpace(s[0]) ==> ws != []
  {
    if s == [] then []
    else if IsSpace(s[0]) then Words(s[1..])
    else if |s| == 1 || IsSpace(s[1]) then [[s[0]]] + Words(s[1..])
    else
      var ws := Words(s[1..]);
      [[s[0]] + ws[0]] + ws[1..]
  }

  lemma {:induction false} NonSpaceAppend(a: string, b: string)
    ensures NonSpace(a + b) == NonSpace(a) + NonSpace(b)
  {
    if a == [] {
      assert a + b == b;
    } else {
      assert (a + b)[0] == a[0];
      assert (a + b)[1..] == a[1..] + b;
      NonSpaceAppend(a[1..], b);
    }
  }

  lemma {:induction false} NonSpaceOfSpaces(s: string)
    requires forall k :: 0 <= k < |s| ==> IsSpace(s[k])
    ensures NonSpace(s) == ""
  {
    if s != [] {
      NonSpaceOfSpaces(s[1..]);
    }
  }

  /** Collapsing keeps the non-whitespace characters in order. */
  lemma {:induction false} CollapseKeepsNonSpace(s: string)
    ensures NonSpace(CollapseSpaces(s)) == NonSpace(s)
    decreases |s|
  {
    if s == [] {
    } else if IsSpace(s[0]) {
      var t := DropSpaces(s);
      assert NonSpace(CollapseSpaces(s)) == NonSpace(CollapseSpaces(t)) by {
        NonSpaceAppend(" ", CollapseSpaces(t));
      }
      assert NonSpace(s) == NonSpace(t) by {
        var lead := s[..|s| - |t|];
        assert s == lead + t;
        NonSpaceOfSpaces(lead);
        NonSpaceAppend(lead, t);
      }
      CollapseKeepsNonSpace(t);
    } else {
      var t := s[1..];
      assert NonSpace(CollapseSpaces(s)) == [s[0]] + NonSpace(CollapseSpaces(t)) by {
        NonSpaceAppend([s[0]], CollapseSpaces(t));
      }
      CollapseKeepsNonSpace(t);
    }
  }

  lemma PrependClean(c: char, t: string)
    requires NoDoubleSpace(t) && OnlyPlainSpaces(t)
    requires IsSpace(c) ==> c == ' ' && (t == [] || !IsSpace(t[0]))
    ensures NoDoubleSpace([c] + t) && OnlyPlainSpaces([c] + t)
  {
    var r := [c] + t;
    forall j, k | 0 <= j && k == j + 1 && k < |r| ensures !IsSpace(r[j]) || !IsSpace(r[k]) {
      if j > 0 {
        assert r[j] == t[j - 1] && r[k] == t[k - 1];
      }
    }
  }

  /** Collapsing leaves no two whitespace characters side by side, turns every
      whitespace character into a plain space, and starts with whitespace
      exactly where the input does. */
  lemma {:induction false} CollapseShape(s: string)
    ensures var r := CollapseSpaces(s);
      && NoDoubleSpace(r) && OnlyPlainSpaces(r)
      && (r == [] <==> s == [])
      && (r != [] ==> (IsSpace(r[0]) <==> IsSpace(s[0])))
    decreases |s|
  {
    if s == [] {
    } else if IsSpace(s[0]) {
      var t := DropSpaces(s);
      CollapseShape(t);
      PrependClean(' ', CollapseSpaces(t));
    } else {
      CollapseShape(s[1..]);
      PrependClean(s[0], CollapseSpaces(s[1..]));
    }
  }

  lemma {:induction false} DropSpacesKeepsNonSpace(s: string)
    ensures NonSpace(DropSpaces(s)) == NonSpace(s)
  {
    if s != [] && IsSpace(s[0]) {
      DropSpacesKeepsNonSpace(s[1..]);
    }
  }

  lemma {:induction false} DropTrailingKeepsNonSpace(s: string)
    ensures NonSpace(DropTrailingSpaces(s)) == NonSpace(s)
  {
    if s != [] && IsSpace(s[|s| - 1]) {
      var init := s[..|s| - 1];
      DropTrailingKeepsNonSpace(init);
      assert s == init + [s[|s| - 1]];
      NonSpaceAppend(init, [s[|s| - 1]]);
    }
  }

  /** Stripping leaves no whitespace at either end and removes only whitespace. */
  lemma StripKeepsNonSpace(s: string)
    ensures NoEdgeSpace(Strip(s)) && NonSpace(Strip(s)) == NonSpace(s)
  {
    var d := DropSpaces(s);
    DropSpacesKeepsNonSpace(s);
    DropTrailingKeepsNonSpace(d);
    var r := DropTrailingSpaces(d);
    if r != [] {
      assert r[0] == d[0];
    }
  }

  /** Stripping keeps a run of the input, so it keeps the input's spacing. */
  lemma StripKeepsSpacing(s: string)
    requires NoDoubleSpace(s) && OnlyPlainSpaces(s)
    ensures NoDoubleSpace(Strip(s)) && OnlyPlainSpaces(Strip(s))
  {
    var lo := StripIsRun(s);
    SpacingOfSlice(s, lo, lo + |Strip(s)|);
  }

  /** `Strip(s)` is the run of `s` that starts at `lo`. */
  lemma StripIsRun(s: string) returns (lo: nat)
    ensures lo + |Strip(s)| <= |s| && Strip(s) == s[lo..lo + |Strip(s)|]
  {
    var d := DropSpaces(s);
    lo := |s| - |d|;
  }

  /** Any run of a text keeps its spacing. */
  lemma SpacingOfSlice(s: string, lo: int, hi: int)
    requires NoDoubleSpace(s) && OnlyPlainSpaces(s) && 0 <= lo <= hi <= |s|
    ensures NoDoubleSpace(s[lo..hi]) && OnlyPlainSpaces(s[lo..hi])
  {
    var r := s[lo..hi];
    forall j, k | 0 <= j && k == j + 1 && k < |r| ensures !IsSpace(r[j]) || !IsSpace(r[k]) {
      assert r[j] == s[lo + j] && r[k] == s[lo + k];
    }
  }

  /** A string that already satisfies `Clean` is left unchanged by collapsing. */
  lemma {:induction false} CollapseClean(s: string)
    requires NoDoubleSpace(s) && OnlyPlainSpaces(s)
    ensures CollapseSpaces(s) == s
    decreases |s|
  {
    if s == [] {
    } else if IsSpace(s[0]) {
      assert |s| > 1 ==> !IsSpace(s[1]);
      assert DropSpaces(s) == s[1..];
      CollapseClean(s[1..]);
    } else {
      CollapseClean(s[1..]);
    }
  }

  /** `clean_text` is the identity exactly on clean strings. */
  lemma CleanTextFixesClean(s: string)
    ensures CleanText(s) == s <==> Clean(s)
  {
    if Clean(s) {
      CollapseClean(s);
    }
  }

  /** The words of a text that starts with a non-whitespace character `c`:
      `c` is a word of its own when whitespace or the end follows, and heads
      the first word of the rest otherwise. */
  lemma WordsCons(c: char, y: string)
    requires !IsSpace(c)
    ensures Words([c] + y) ==
      if y == [] || IsSpace(y[0]) then [[c]] + Words(y)
      else [[c] + Words(y)[0]] + Words(y)[1..]
  {
    assert ([c] + y)[0] == c && ([c] + y)[1..] == y;
    if y != [] {
      assert ([c] + y)[1] == y[0];
    }
  }

  lemma {:induction false} WordsOfSpaces(s: string)
    requires forall k :: 0 <= k < |s| ==> IsSpace(s[k])
    ensures Words(s) == []
  {
    if s != [] {
      WordsOfSpaces(s[1..]);
    }
  }

  /** Leading whitespace separates no words. */
  lemma {:induction false} WordsDropSpaces(s: string)
    ensures Words(DropSpaces(s)) == Words(s)
  {
    if s != [] && IsSpace(s[0]) {
      WordsDropSpaces(s[1..]);
    }
  }

  /** Trailing whitespace separates no words. */
  lemma {:induction false} WordsAppendSpaces(x: string, sp: string)
    requires forall k :: 0 <= k < |sp| ==> IsSpace(sp[k])
    ensures Words(x + sp) == Words(x)
  {
    if x == [] {
      assert x + sp == sp;
      WordsOfSpaces(sp);
    } else {
      assert (x + sp)[0] == x[0] && (x + sp)[1..] == x[1..] + sp;
      WordsAppendSpaces(x[1..], sp);
      if !IsSpace(x[0]) {
        assert x + sp == [x[0]] + (x[1..] + sp);
        assert x == [x[0]] + x[1..];
        WordsCons(x[0], x[1..] + sp);
        WordsCons(x[0], x[1..]);
        if x[1..] == [] {
          assert x[1..] + sp == sp;
        } else {
          assert (x[1..] + sp)[0] == x[1..][0];
        }
      }
    }
  }

  /** Collapsing whitespace runs keeps the words. */
  lemma {:induction false} WordsCollapse(s: string)
    ensures Words(CollapseSpaces(s)) == Words(s)
    decreases |s|
  {
    if s == [] {
    } else if IsSpace(s[0]) {
      var d := DropSpaces(s);
      WordsCollapse(d);
      WordsDropSpaces(s);
      WordsAfterSpace(CollapseSpaces(d));
    } else {
      var t := s[1..];
      CollapseShape(t);
      WordsCollapse(t);
      WordsPrefixChar(s[0], t, CollapseSpaces(t));
    }
  }

  lemma WordsAfterSpace(u: string)
    ensures Words(" " + u) == Words(u)
  {
    assert (" " + u)[0] == ' ' && (" " + u)[1..] == u;
  }

  /** Putting a non-whitespace character in front of two texts that have the
      same words and start alike gives texts with the same words. */
  lemma WordsPrefixChar(c: char, t: string, u: string)
    requires !IsSpace(c) && Words(u) == Words(t)
    requires (u == [] <==> t == []) && (u != [] ==> (IsSpace(u[0]) <==> IsSpace(t[0])))
    ensures Words([c] + u) == Words([c] + t)
  {
    WordsCons(c, u);
    WordsCons(c, t);
  }

  lemma SplitAt(s: string, n: nat)
    requires n <= |s|
    ensures s == s[..n] + s[n..]
  {
  }

  /** Stripping keeps the words. */
  lemma WordsStrip(s: string)
    ensures Words(Strip(s)) == Words(s)
  {
    var d := DropSpaces(s);
    var r := DropTrailingSpaces(d);
    var sp := d[|r|..];
    SplitAt(d, |r|);
    assert forall k :: 0 <= k < |sp| ==> IsSpace(sp[k]) by {
      forall k | 0 <= k < |sp| ensures IsSpace(sp[k]) {
        assert sp[k] == d[|r| + k];
      }
    }
    WordsAppendSpaces(r, sp);
    WordsDropSpaces(s);
  }

  /** The tail of a clean text from a non-whitespace character on is clean. */
  lemma CleanSuffix(r: string, n: nat)
    requires Clean(r) && n < |r| && !IsSpace(r[n])
    ensures Clean(r[n..])
  {
    var u := r[n..];
    assert u[|u| - 1] == r[|r| - 1];
    forall j, k | 0 <= j && k == j + 1 && k < |u| ensures !IsSpace(u[j]) || !IsSpace(u[k]) {
      assert u[j] == r[n + j] && u[k] == r[n + k];
    }
  }

  /** A clean text is its words joined with single spaces. */
  lemma {:induction false} CleanIsJoinedWords(r: string)
    requires Clean(r)
    ensures r == Join(Words(r))
    decreases |r|
  {
    if |r| <= 1 {
    } else if IsSpace(r[1]) {
      CleanSuffix(r, 2);
      CleanIsJoinedWords(r[2..]);
      JoinWordsAcrossSpace(r);
    } else {
      CleanSuffix(r, 1);
      CleanIsJoinedWords(r[1..]);
      JoinWordsInWord(r);
    }
  }

  /** A word character, one space, and a text that is its words joined:
      the whole is its words joined. */
  lemma JoinWordsAcrossSpace(r: string)
    requires |r| > 2 && !IsSpace(r[0]) && r[1] == ' ' && !IsSpace(r[2])
    requires r[2..] == Join(Words(r[2..]))
    ensures r == Join(Words(r))
  {
    var u := r[2..];
    assert r[1..][1..] == u;
    assert Words(r) == [[r[0]]] + Words(u);
    assert Join([[r[0]]] + Words(u)) == [r[0]] + " " + Join(Words(u));
    assert r == [r[0]] + " " + u;
  }

  /** A word character before a text that is its words joined and starts
      with a word character: the whole is its words joined. */
  lemma JoinWordsInWord(r: string)
    requires |r| > 1 && !IsSpace(r[0]) && !IsSpace(r[1])
    requires r[1..] == Join(Words(r[1..]))
    ensures r == Join(Words(r))
  {
    var t := r[1..];
    var ws := Words(t);
    assert Words(r) == [[r[0]] + ws[0]] + ws[1..];
    JoinExtendFirst([r[0]], ws);
    assert Join(Words(r)) == [r[0]] + t;
    assert r == [r[0]] + t;
  }

  /** Extending the first string of a list extends its join in front. */
  lemma JoinExtendFirst(c: string, ws: seq<string>)
    requires ws != []
    ensures Join([c + ws[0]] + ws[1..]) == c + Join(ws)
  {
    var vs := [c + ws[0]] + ws[1..];
    assert vs[0] == c + ws[0] && vs[1..] == ws[1..];
    if |ws| > 1 {
      assert Join(vs) == (c + ws[0]) + " " + Join(ws[1..]);
      assert Join(ws) == ws[0] + " " + Join(ws[1..]);
    }
  }

  /** `clean_text(s)` is the words of `s` joined with single spaces: every
      whitespace run between two words becomes exactly one space, and the
      runs at either end disappear. */
  lemma CleanTextJoinsWords(s: string)
    ensures Words(CleanText(s)) == Words(s)
    ensures CleanText(s) == Join(Words(s))
  {
    WordsCollapse(s);
    WordsStrip(CollapseSpaces(s));
    CleanIsJoinedWords(CleanText(s));
  }

  /** `clean_text(clean_text(s)) == clean_text(s)`. */
  lemma CleanTextIdempotent(s: string)
    ensures CleanText(CleanText(s)) == CleanText(s)
  {
    CleanTextFixesClean(CleanText(s));
  }
}
