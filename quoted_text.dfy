/** The quoted multi-entry syntax of the criteria editor: `s.match(/"([^"]+)"/g)` and the
    text each match yields, `q.replace(/"/g, "").trim()`. */
module QuotedText {
  import opened JsString

  predicate NoQuote(s: string)
  {
    '"' !in s
  }

  /** The length of the longest prefix of `s` that holds no double quote: it ends at the end of
      `s` or at a quote, and QuoteFreeRunHasNoQuote shows it holds none. */
  function QuoteFreeRun(s: string): (n: nat)
    ensures n <= |s| && (n == |s| || s[n] == '"')
  {
    if s == [] || s[0] == '"' then 0 else 1 + QuoteFreeRun(s[1..])
  }

  lemma {:induction false} QuoteFreeRunHasNoQuote(s: string)
    ensures NoQuote(s[..QuoteFreeRun(s)])
  {
    if s != [] && s[0] != '"' {
      QuoteFreeRunHasNoQuote(s[1..]);
      assert s[..QuoteFreeRun(s)] == [s[0]] + s[1..][..QuoteFreeRun(s[1..])];
    }
  }

  /** The quote-free prefix is determined by where the first quote stands. */
  lemma {:induction false} QuoteFreeRunIs(t: string, m: nat)
    requires m <= |t| && NoQuote(t[..m]) && (m == |t| || t[m] == '"')
    ensures QuoteFreeRun(t) == m
  {
    if m > 0 {
      assert t[0] == t[..m][0];
      assert t[1..][..m - 1] == t[..m][1..];
      QuoteFreeRunIs(t[1..], m - 1);
    }
  }

  /** `m` is a string the pattern `"([^"]+)"` matches as a whole: a quote, at least one
      character that is not a quote, and a closing quote. */
  predicate IsQuotedRun(m: string)
  {
    |m| >= 3 && m[0] == '"' && m[|m| - 1] == '"' && NoQuote(m[1..|m| - 1])
  }

  /** The length of the match of `"([^"]+)"` that begins at the first character of `s`, or 0
      when the pattern does not match there. `[^"]+` cannot cross a quote, so the only
      candidate is the opening quote, the whole quote-free run after it and the quote that
      ends that run. */
  function MatchAt(s: string): (n: nat)
    ensures n == 0 || 3 <= n <= |s|
  {
    if s != [] && s[0] == '"' then
      var k := QuoteFreeRun(s[1..]);
      if 0 < k && k + 1 < |s| then k + 2 else 0
    else 0
  }

  /** What MatchAt finds is a match of the pattern. */
  lemma MatchAtSound(s: string)
    ensures MatchAt(s) > 0 ==> IsQuotedRun(s[..MatchAt(s)])
  {
    var n := MatchAt(s);
    if n > 0 {
      var k := QuoteFreeRun(s[1..]);
      QuoteFreeRunHasNoQuote(s[1..]);
      assert s[..n][1..n - 1] == s[1..][..k];
      assert s[..n][n - 1] == s[1..][k];
    }
  }

  /** A match that begins at the first character of `s` is the one MatchAt finds: the pattern
      matches there exactly when MatchAt is positive, and with no other length. */
  lemma MatchAtComplete(s: string, j: nat)
    requires j <= |s| && IsQuotedRun(s[..j])
    ensures MatchAt(s) == j
  {
    assert s[1..][..j - 2] == s[..j][1..j - 1];
    QuoteFreeRunIs(s[1..], j - 2);
  }

  /** `s.match(/"([^"]+)"/g)`: every match, found by trying each position from left to right and
      resuming just after each match. The empty sequence stands for the `null` that `match`
      returns when nothing matches. */
  function QuotedMatches(s: string): (r: seq<string>)
    ensures 3 * |r| <= |s|
    decreases |s|
  {
    if s == [] then []
    else
      var n := MatchAt(s);
      if n > 0 then [s[..n]] + QuotedMatches(s[n..]) else QuotedMatches(s[1..])
  }

  /** Every match is a quote, a run of other characters and a closing quote. */
  lemma {:induction false} QuotedMatchesAreRuns(s: string)
    ensures forall k :: 0 <= k < |QuotedMatches(s)| ==> IsQuotedRun(QuotedMatches(s)[k])
    decreases |s|
  {
    if s != [] {
      var n := MatchAt(s);
      if n > 0 {
        MatchAtSound(s);
        QuotedMatchesAreRuns(s[n..]);
      } else {
        QuotedMatchesAreRuns(s[1..]);
      }
    }
  }

  /** The text the matches leave out: the piece before the first match, the pieces between
      consecutive matches and the piece after the last one. */
  function Unmatched(s: string): (r: seq<string>)
    ensures |r| == |QuotedMatches(s)| + 1
    decreases |s|
  {
    if s == [] then [[]]
    else
      var n := MatchAt(s);
      if n > 0 then [[]] + Unmatched(s[n..])
      else
        var g := Unmatched(s[1..]);
        [[s[0]] + g[0]] + g[1..]
  }

  /** `gaps[0] + matches[0] + gaps[1] + ... + matches[k - 1] + gaps[k]` */
  function Interleave(gaps: seq<string>, matches: seq<string>): (r: string)
    requires |gaps| == |matches| + 1
    decreases |matches|
  {
    if matches == [] then gaps[0] else gaps[0] + matches[0] + Interleave(gaps[1..], matches[1..])
  }

  lemma InterleaveCons(c: char, gaps: seq<string>, matches: seq<string>)
    requires |gaps| == |matches| + 1
    ensures Interleave([[c] + gaps[0]] + gaps[1..], matches) == [c] + Interleave(gaps, matches)
  {
    var g := [[c] + gaps[0]] + gaps[1..];
    assert g[1..] == gaps[1..];
  }

  lemma InterleaveMatch(m: string, gaps: seq<string>, matches: seq<string>)
    requires |gaps| == |matches| + 1
    ensures Interleave([[]] + gaps, [m] + matches) == m + Interleave(gaps, matches)
  {
    var g, w := [[]] + gaps, [m] + matches;
    assert g[0] == [] && w[0] == m && g[1..] == gaps && w[1..] == matches;
    assert g[0] + w[0] == m;
    assert Interleave(g, w) == g[0] + w[0] + Interleave(g[1..], w[1..]);
  }

  lemma SplitAt(s: string, n: nat)
    requires n <= |s|
    ensures s[..n] + s[n..] == s
  {
  }

  lemma UnfoldAtMatch(s: string)
    requires s != [] && MatchAt(s) > 0
    ensures Unmatched(s) == [[]] + Unmatched(s[MatchAt(s)..])
    ensures QuotedMatches(s) == [s[..MatchAt(s)]] + QuotedMatches(s[MatchAt(s)..])
  {
  }

  lemma PartitionAfterMatch(s: string)
    requires s != [] && MatchAt(s) > 0
    requires Interleave(Unmatched(s[MatchAt(s)..]), QuotedMatches(s[MatchAt(s)..])) == s[MatchAt(s)..]
    ensures Interleave(Unmatched(s), QuotedMatches(s)) == s
  {
    var n := MatchAt(s);
    UnfoldAtMatch(s);
    InterleaveMatch(s[..n], Unmatched(s[n..]), QuotedMatches(s[n..]));
    SplitAt(s, n);
  }

  lemma PartitionAfterChar(s: string)
    requires s != [] && MatchAt(s) == 0
    requires Interleave(Unmatched(s[1..]), QuotedMatches(s[1..])) == s[1..]
    ensures Interleave(Unmatched(s), QuotedMatches(s)) == s
  {
    var rest := s[1..];
    var g := Unmatched(rest);
    assert Unmatched(s) == [[s[0]] + g[0]] + g[1..];
    assert QuotedMatches(s) == QuotedMatches(rest);
    InterleaveCons(s[0], g, QuotedMatches(rest));
    assert s == [s[0]] + rest;
  }

  /** The matches are disjoint pieces of `s` in left-to-right order: putting them back between
      the unmatched pieces rebuilds `s`. */
  lemma {:induction false} MatchesPartition(s: string)
    ensures Interleave(Unmatched(s), QuotedMatches(s)) == s
    decreases |s|
  {
    if s != [] {
      if MatchAt(s) > 0 {
        MatchesPartition(s[MatchAt(s)..]);
        PartitionAfterMatch(s);
      } else {
        MatchesPartition(s[1..]);
        PartitionAfterChar(s);
      }
    }
  }

  /** `s` contains a quoted run somewhere. */
  predicate HasQuotedRun(s: string)
  {
    exists i, j :: 0 <= i < j <= |s| && IsQuotedRun(s[i..j])
  }

  /** The first match is a quoted run of `s`. */
  lemma {:induction false} QuotedMatchWitness(s: string) returns (i: nat, j: nat)
    requires QuotedMatches(s) != []
    ensures i < j <= |s| && IsQuotedRun(s[i..j])
    decreases |s|
  {
    var n := MatchAt(s);
    if n > 0 {
      MatchAtSound(s);
      i, j := 0, n;
      assert s[i..j] == s[..n];
    } else {
      assert QuotedMatches(s) == QuotedMatches(s[1..]);
      var i', j' := QuotedMatchWitness(s[1..]);
      i, j := i' + 1, j' + 1;
      ShiftSlice(s, i, j);
    }
  }

  lemma ShiftSlice(s: string, i: nat, j: nat)
    requires 0 < i <= j <= |s|
    ensures s[i..j] == s[1..][i - 1..j - 1]
  {
    var t := s[1..];
    assert |t[i - 1..j - 1]| == j - i;
    forall k | 0 <= k < j - i
      ensures s[i..j][k] == t[i - 1..j - 1][k]
    {
      assert t[i - 1..j - 1][k] == t[i - 1 + k] == s[i + k];
    }
  }

  /** Any quoted run of `s` makes the search find at least one match. */
  lemma {:induction false} QuotedRunFound(s: string, i: nat, j: nat)
    requires i < j <= |s| && IsQuotedRun(s[i..j])
    ensures QuotedMatches(s) != []
    decreases i
  {
    if i == 0 {
      assert s[..j] == s[i..j];
      MatchAtComplete(s, j);
    } else if MatchAt(s) == 0 {
      ShiftSlice(s, i, j);
      QuotedRunFound(s[1..], i - 1, j - 1);
    }
  }

  /** The quoted mode is taken exactly when the buffer contains a quote, at least one other
      character and a closing quote. */
  lemma QuotedMatchesIff(s: string)
    ensures QuotedMatches(s) != [] <==> HasQuotedRun(s)
  {
    if QuotedMatches(s) != [] {
      var i, j := QuotedMatchWitness(s);
    }
    if HasQuotedRun(s) {
      var i, j :| 0 <= i < j <= |s| && IsQuotedRun(s[i..j]);
      QuotedRunFound(s, i, j);
    }
  }

  /** `q.replace(/"/g, "").trim()`: the text a quoted match becomes. */
  function MatchText(q: string): (r: string)
    ensures |r| <= |q|
  {
    Trim(RemoveAll(q, '"'))
  }

  /** A match becomes the text between its quotes, trimmed. */
  lemma MatchTextIsInner(q: string)
    requires IsQuotedRun(q)
    ensures MatchText(q) == Trim(q[1..|q| - 1])
  {
    var inner := q[1..|q| - 1];
    var quote: string := ['"'];
    assert q == quote + inner + quote;
    assert RemoveAll(quote, '"') == [];
    RemoveAllDrops(inner, '"');
    RemoveAllConcat(quote + inner, quote, '"');
    RemoveAllConcat(quote, inner, '"');
    assert RemoveAll(q, '"') == inner;
  }

  /** A quoted run of nothing but whitespace becomes an empty text: quoted mode does not
      guarantee non-empty criteria. */
  lemma QuotedSpacesGiveEmptyText(q: string)
    requires IsQuotedRun(q) && AllSpace(q[1..|q| - 1])
    ensures MatchText(q) == []
  {
    MatchTextIsInner(q);
    TrimBlank(q[1..|q| - 1]);
  }

  /** No match of the pattern begins at any of the first `p` positions of `s`. */
  predicate NoMatchBefore(s: string, p: nat)
    requires p <= |s|
  {
    forall q {:trigger MatchAt(s[q..])} :: 0 <= q < p ==> MatchAt(s[q..]) == 0
  }

  lemma NoMatchShift(s: string, p: nat)
    requires s != [] && 0 < p <= |s| && MatchAt(s) == 0 && NoMatchBefore(s[1..], p - 1)
    ensures NoMatchBefore(s, p)
  {
    forall q | 0 <= q < p ensures MatchAt(s[q..]) == 0 {
      if q > 0 {
        assert s[q..] == s[1..][q - 1..];
      }
    }
  }

  /** The first match is the leftmost one: no match of the pattern begins before position `p`,
      one begins at `p`, and the scan of `s` is the scan from `p` on. */
  lemma {:induction false} FirstMatch(s: string) returns (p: nat)
    requires QuotedMatches(s) != []
    ensures p < |s| && NoMatchBefore(s, p) && MatchAt(s[p..]) > 0
    ensures QuotedMatches(s) == QuotedMatches(s[p..])
    decreases |s|
  {
    if MatchAt(s) > 0 {
      p := 0;
      assert s[0..] == s;
    } else {
      var t := s[1..];
      assert QuotedMatches(s) == QuotedMatches(t);
      var p' := FirstMatch(t);
      p := p' + 1;
      NoMatchShift(s, p);
      assert s[p..] == t[p'..];
    }
  }

  /** An empty result means no match of the pattern begins anywhere in `s`. */
  lemma {:induction false} NoMatchesAnywhere(s: string)
    requires QuotedMatches(s) == []
    ensures NoMatchBefore(s, |s|)
    decreases |s|
  {
    if s != [] {
      if MatchAt(s) > 0 {
        UnfoldAtMatch(s);
      } else {
        assert QuotedMatches(s) == QuotedMatches(s[1..]);
        NoMatchesAnywhere(s[1..]);
        NoMatchShift(s, |s|);
      }
    }
  }

  /** The scan of `s` starts with a match at `p`, the leftmost position where the pattern
      matches, and continues with the scan of the text after that match. */
  predicate StartsWithLeftmostAt(s: string, p: nat)
  {
    && p < |s| && NoMatchBefore(s, p) && MatchAt(s[p..]) > 0 && p + MatchAt(s[p..]) <= |s|
    && QuotedMatches(s) == [s[p..p + MatchAt(s[p..])]] + QuotedMatches(s[p + MatchAt(s[p..])..])
  }

  lemma LeftmostAt(s: string) returns (p: nat)
    requires QuotedMatches(s) != []
    ensures StartsWithLeftmostAt(s, p)
  {
    p := FirstMatch(s);
    UnfoldAtMatch(s[p..]);
    SuffixSlices(s, p, MatchAt(s[p..]));
  }

  lemma SuffixSlices(s: string, p: nat, n: nat)
    requires p + n <= |s|
    ensures s[p..][..n] == s[p..p + n] && s[p..][n..] == s[p + n..]
  {
  }

  /** The global scan misses no match: it is empty exactly when the pattern matches at no
      position, and otherwise it starts with the leftmost match and continues with the scan of
      the text after it. */
  lemma QuotedMatchesLeftmost(s: string)
    ensures QuotedMatches(s) == [] <==> NoMatchBefore(s, |s|)
    ensures QuotedMatches(s) != [] ==> exists p: nat :: StartsWithLeftmostAt(s, p)
  {
    if QuotedMatches(s) == [] {
      NoMatchesAnywhere(s);
    } else {
      var p := LeftmostAt(s);
    }
  }

  /** A text without a double quote has no match. */
  lemma {:induction false} NoQuoteNoMatch(s: string)
    requires NoQuote(s)
    ensures QuotedMatches(s) == []
    decreases |s|
  {
    if s != [] {
      assert s[0] in s;
      assert NoQuote(s[1..]) by {
        forall k | 0 <= k < |s| - 1 ensures s[1..][k] != '"' {
          assert s[1..][k] == s[k + 1] && s[k + 1] in s;
        }
      }
      NoQuoteNoMatch(s[1..]);
    }
  }

  /** Leading whitespace is never part of a match. */
  lemma {:induction false} QuotedMatchesTrimStart(s: string)
    ensures QuotedMatches(TrimStart(s)) == QuotedMatches(s)
    decreases |s|
  {
    if s != [] && IsSpace(s[0]) {
      assert MatchAt(s) == 0;
      QuotedMatchesTrimStart(s[1..]);
    }
  }

  /** Extending text with quote-free characters extends its quote-free prefix only when that
      prefix was the whole text. */
  lemma {:induction false} QuoteFreeRunAppend(a: string, w: string)
    requires NoQuote(w)
    ensures QuoteFreeRun(a + w) == if QuoteFreeRun(a) < |a| then QuoteFreeRun(a) else |a| + QuoteFreeRun(w)
  {
    if a == [] {
      assert a + w == w;
    } else {
      assert (a + w)[0] == a[0];
      assert (a + w)[1..] == a[1..] + w;
      if a[0] != '"' {
        QuoteFreeRunAppend(a[1..], w);
      }
    }
  }

  lemma QuoteFreeRunOfNoQuote(w: string)
    requires NoQuote(w)
    ensures QuoteFreeRun(w) == |w|
  {
  }

  /** Quote-free text after `t` does not change what is matched at the start of `t`. */
  lemma MatchAtAppend(t: string, w: string)
    requires t != [] && NoQuote(w)
    ensures MatchAt(t + w) == MatchAt(t)
  {
    var x := t + w;
    assert x[0] == t[0];
    if t[0] == '"' {
      assert x[1..] == t[1..] + w;
      QuoteFreeRunAppend(t[1..], w);
      QuoteFreeRunOfNoQuote(w);
    }
  }

  lemma UnfoldNoMatch(s: string)
    requires s != [] && MatchAt(s) == 0
    ensures QuotedMatches(s) == QuotedMatches(s[1..])
  {
  }

  lemma ConcatSlices(t: string, w: string, n: nat)
    requires n <= |t|
    ensures (t + w)[..n] == t[..n] && (t + w)[n..] == t[n..] + w
  {
  }

  lemma AppendAtMatch(t: string, w: string)
    requires t != [] && NoQuote(w) && MatchAt(t) > 0
    requires QuotedMatches(t[MatchAt(t)..] + w) == QuotedMatches(t[MatchAt(t)..])
    ensures QuotedMatches(t + w) == QuotedMatches(t)
  {
    MatchAtAppend(t, w);
    UnfoldAtMatch(t);
    UnfoldAtMatch(t + w);
    ConcatSlices(t, w, MatchAt(t));
  }

  lemma AppendNoMatch(t: string, w: string)
    requires t != [] && NoQuote(w) && MatchAt(t) == 0
    requires QuotedMatches(t[1..] + w) == QuotedMatches(t[1..])
    ensures QuotedMatches(t + w) == QuotedMatches(t)
  {
    MatchAtAppend(t, w);
    UnfoldNoMatch(t);
    UnfoldNoMatch(t + w);
    ConcatSlices(t, w, 1);
  }

  /** Trailing quote-free text is never part of a match. */
  lemma {:induction false} QuotedMatchesAppend(t: string, w: string)
    requires NoQuote(w)
    ensures QuotedMatches(t + w) == QuotedMatches(t)
    decreases |t|
  {
    if t == [] {
      assert t + w == w;
      NoQuoteNoMatch(w);
    } else if MatchAt(t) > 0 {
      QuotedMatchesAppend(t[MatchAt(t)..], w);
      AppendAtMatch(t, w);
    } else {
      QuotedMatchesAppend(t[1..], w);
      AppendNoMatch(t, w);
    }
  }

  lemma SpacesHaveNoQuote(w: string)
    requires AllSpace(w)
    ensures NoQuote(w)
  {
    forall k | 0 <= k < |w| ensures w[k] != '"' {
      assert IsSpace(w[k]);
    }
  }

  /** Scanning the trimmed buffer finds the same matches as scanning the buffer itself. */
  lemma QuotedMatchesOfTrim(s: string)
    ensures QuotedMatches(Trim(s)) == QuotedMatches(s)
  {
    var t := TrimStart(s);
    QuotedMatchesTrimStart(s);
    TrimEndDropsSpaces(t);
    var k := |TrimEnd(t)|;
    SpacesHaveNoQuote(t[k..]);
    QuotedMatchesAppend(TrimEnd(t), t[k..]);
  }
}
