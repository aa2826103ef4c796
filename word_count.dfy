/** The word counter of the criteria editor: `text.trim().split(/\s+/).filter(w => w.length > 0).length`. */
module WordCount {
  import opened JsString
  import opened JsArray

  /** `s.split(/\s+/)`: the pieces between the maximal runs of whitespace, with an empty piece
      before a leading run and after a trailing one (`"".split(/\s+/)` is `[""]`). */
  function SplitOnSpaces(s: string): (r: seq<string>)
    ensures |r| >= 1
    ensures r[0] == [] <==> s == [] || IsSpace(s[0])
    decreases |s|
  {
    if s == [] then [[]]
    else if IsSpace(s[0]) then
      if |s| > 1 && IsSpace(s[1]) then SplitOnSpaces(s[1..]) else [[]] + SplitOnSpaces(s[1..])
    else
      var rest := SplitOnSpaces(s[1..]);
      [[s[0]] + rest[0]] + rest[1..]
  }

  /** `word => word.length > 0` */
  function IsWord(w: string): bool
  {
    |w| > 0
  }

  /** `countWords`: the number of maximal runs of non-whitespace characters in `text`. */
  function CountWords(text: string): (n: nat)
    ensures n == RunCount(text, false)
  {
    SplitWordsAreRuns(text);
    |Filter(SplitOnSpaces(Trim(text)), IsWord)|
  }

  /** Reference count of the maximal runs of non-whitespace in `s`, read left to right:
      a run begins at every non-whitespace character that is not preceded by one.
      `inWord` says whether the character just before `s` was non-whitespace. */
  function RunCount(s: string, inWord: bool): nat
  {
    if s == [] then 0
    else if IsSpace(s[0]) then RunCount(s[1..], false)
    else (if inWord then 0 else 1) + RunCount(s[1..], true)
  }

  lemma {:induction false} RunCountSkipsSpaces(s: string)
    ensures RunCount(TrimStart(s), false) == RunCount(s, false)
  {
    if s != [] && IsSpace(s[0]) {
      RunCountSkipsSpaces(s[1..]);
    }
  }

  lemma {:induction false} RunCountOfSpaces(s: string, inWord: bool)
    requires AllSpace(s)
    ensures RunCount(s, inWord) == 0
  {
    if s != [] {
      RunCountOfSpaces(s[1..], false);
    }
  }

  lemma {:induction false} RunCountTrailingSpaces(a: string, b: string, inWord: bool)
    requires AllSpace(b)
    ensures RunCount(a + b, inWord) == RunCount(a, inWord)
  {
    if a == [] {
      assert a + b == b;
      RunCountOfSpaces(b, inWord);
    } else {
      assert (a + b)[1..] == a[1..] + b;
      RunCountTrailingSpaces(a[1..], b, !IsSpace(a[0]));
    }
  }

  /** Trimming does not change the number of runs. */
  lemma RunCountTrimmed(s: string)
    ensures RunCount(Trim(s), false) == RunCount(s, false)
  {
    var t := TrimStart(s);
    var r := TrimEnd(t);
    TrimEndDropsSpaces(t);
    RunCountTrailingSpaces(r, t[|r|..], false);
    RunCountSkipsSpaces(s);
  }

  /** The non-empty pieces of `s.split(/\s+/)` are the runs of `s`; the first piece is a run
      that began before `s` when `inWord` holds. */
  lemma {:induction false} SplitCount(s: string, inWord: bool)
    ensures var pieces := SplitOnSpaces(s);
      RunCount(s, inWord) == |Filter(pieces[1..], IsWord)| + (if !inWord && pieces[0] != [] then 1 else 0)
    decreases |s|
  {
    if s == [] {
    } else if IsSpace(s[0]) {
      var p := SplitOnSpaces(s[1..]);
      SplitCount(s[1..], false);
      if |s| > 1 && IsSpace(s[1]) {
        assert p[0] == [];
      } else {
        assert SplitOnSpaces(s)[1..] == p;
        assert p == [p[0]] + p[1..];
        FilterConcat([p[0]], p[1..], IsWord);
      }
    } else {
      SplitCount(s[1..], true);
      var rest := SplitOnSpaces(s[1..]);
      assert SplitOnSpaces(s)[1..] == rest[1..];
    }
  }

  /** Trimming, splitting on whitespace and dropping empty pieces leaves one piece per run. */
  lemma SplitWordsAreRuns(text: string)
    ensures |Filter(SplitOnSpaces(Trim(text)), IsWord)| == RunCount(text, false)
  {
    var t := Trim(text);
    var p := SplitOnSpaces(t);
    SplitCount(t, false);
    assert p == [p[0]] + p[1..];
    FilterConcat([p[0]], p[1..], IsWord);
    RunCountTrimmed(text);
  }

  lemma {:induction false} RunCountZero(s: string)
    ensures RunCount(s, false) == 0 <==> AllSpace(s)
  {
    if s != [] {
      RunCountZero(s[1..]);
      if IsSpace(s[0]) {
        assert AllSpace(s) <==> AllSpace(s[1..]) by {
          if AllSpace(s[1..]) {
            assert s == [s[0]] + s[1..];
            AllSpaceConcat([s[0]], s[1..]);
          }
        }
      }
    }
  }

  /** Blank or whitespace-only text counts no word, and any other text counts at least one. */
  lemma CountWordsZero(text: string)
    ensures CountWords(text) == 0 <==> AllSpace(text)
  {
    RunCountZero(text);
  }

  /** Runs of several spaces, and spaces at either end, separate words without adding any. */
  lemma CountWordsExample()
    ensures CountWords("  a  b   c ") == 3
  {
    RunCountExample();
  }

  lemma RunCountExample()
    ensures RunCount("  a  b   c ", false) == 3
  {
    assert RunCount(" ", true) == 0;
    assert RunCount("c ", false) == 1;
    assert RunCount("   c ", true) == 1;
    assert RunCount("b   c ", false) == 2;
    assert RunCount("  b   c ", true) == 2;
    assert RunCount("a  b   c ", false) == 3;
  }
}
