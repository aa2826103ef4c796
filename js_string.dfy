/** The few ECMAScript string primitives the components rely on: the whitespace class `\s`,
    `String.prototype.trim`, and `replace` of every occurrence of one character. */
module JsString {

  /** A character matched by `\s` in an ECMAScript regular expression. `trim` strips exactly
      the same characters (the WhiteSpace and LineTerminator productions). */
  predicate IsSpace(c: char)
  {
    || c == '\t' || c == '\n' || c == '\U{B}' || c == '\U{C}' || c == '\r' || c == ' '
    || c == '\U{A0}' || c == '\U{1680}' || ('\U{2000}' <= c <= '\U{200A}')
    || c == '\U{2028}' || c == '\U{2029}' || c == '\U{202F}' || c == '\U{205F}'
    || c == '\U{3000}' || c == '\U{FEFF}'
  }

  predicate AllSpace(s: string)
  {
    forall i :: 0 <= i < |s| ==> IsSpace(s[i])
  }

  /** `s` with its leading whitespace dropped: it does not start with whitespace, and
      TrimStartDropsSpaces shows it is a suffix of `s` after nothing but whitespace. */
  function TrimStart(s: string): (r: string)
    ensures |r| <= |s|
    ensures r == [] || !IsSpace(r[0])
  {
    if s != [] && IsSpace(s[0]) then TrimStart(s[1..]) else s
  }

  lemma {:induction false} TrimStartDropsSpaces(s: string)
    ensures var k := |s| - |TrimStart(s)|; s == s[..k] + TrimStart(s) && AllSpace(s[..k])
  {
    if s != [] && IsSpace(s[0]) {
      var t := s[1..];
      var r := TrimStart(t);
      var k := |s| - |r|;
      TrimStartDropsSpaces(t);
      assert s[..k] == [s[0]] + t[..k - 1];
      assert s == [s[0]] + t;
      AllSpaceConcat([s[0]], t[..k - 1]);
    } else {
      assert s[..0] == [];
    }
  }

  /** `s` with its trailing whitespace dropped: it does not end with whitespace, and
      TrimEndDropsSpaces shows it is a prefix of `s` before nothing but whitespace. */
  function TrimEnd(s: string): (r: string)
    ensures |r| <= |s|
    ensures r == [] || !IsSpace(r[|r| - 1])
  {
    if s != [] && IsSpace(s[|s| - 1]) then TrimEnd(s[..|s| - 1]) else s
  }

  lemma {:induction false} TrimEndDropsSpaces(s: string)
    ensures var k := |TrimEnd(s)|; s == TrimEnd(s) + s[k..] && AllSpace(s[k..])
  {
    if s != [] && IsSpace(s[|s| - 1]) {
      var t := s[..|s| - 1];
      var r := TrimEnd(t);
      TrimEndDropsSpaces(t);
      assert s[|r|..] == t[|r|..] + [s[|s| - 1]];
      assert s == t + [s[|s| - 1]];
      AllSpaceConcat(t[|r|..], [s[|s| - 1]]);
    } else {
      assert s[|s|..] == [];
    }
  }

  /** `s.trim()`: the part of `s` left between its leading and its trailing whitespace;
      TrimBlank shows it is empty exactly when `s` is all whitespace. */
  function Trim(s: string): (r: string)
    ensures |r| <= |s|
    ensures r == [] || (!IsSpace(r[0]) && !IsSpace(r[|r| - 1]))
  {
    var t := TrimStart(s);
    TrimEndDropsSpaces(t);
    assert TrimEnd(t) == [] || TrimEnd(t)[0] == (TrimEnd(t) + t[|TrimEnd(t)|..])[0] == t[0];
    TrimEnd(t)
  }

  /** `trim` yields nothing exactly when `s` is all whitespace. */
  lemma TrimBlank(s: string)
    ensures AllSpace(s) <==> Trim(s) == []
  {
    var t := TrimStart(s);
    var i := |s| - |t|;
    if AllSpace(s) {
      TrimStartOfSpaces(s);
    }
    if TrimEnd(t) == [] {
      TrimStartDropsSpaces(s);
      TrimEndDropsSpaces(t);
      assert t[0..] == t;
      AllSpaceConcat(s[..i], t);
    }
  }

  lemma {:induction false} TrimStartOfSpaces(s: string)
    requires AllSpace(s)
    ensures TrimStart(s) == []
  {
    if s != [] {
      assert AllSpace(s[1..]) by {
        forall k | 0 <= k < |s| - 1 ensures IsSpace(s[1..][k]) {
          assert s[1..][k] == s[k + 1];
        }
      }
      TrimStartOfSpaces(s[1..]);
    }
  }

  /** Text that neither starts nor ends with whitespace is its own trim. */
  lemma TrimUnpadded(s: string)
    requires s != [] && !IsSpace(s[0]) && !IsSpace(s[|s| - 1])
    ensures Trim(s) == s
  {
    assert TrimStart(s) == s;
    assert TrimEnd(s) == s;
  }

  lemma AllSpaceConcat(a: string, b: string)
    requires AllSpace(a) && AllSpace(b)
    ensures AllSpace(a + b)
  {
  }

  /** `s.replace(/c/g, "")`: `s` with every occurrence of `c` removed, the rest kept in order. */
  function RemoveAll(s: string, c: char): (r: string)
    ensures |r| <= |s|
  {
    if s == [] then [] else (if s[0] == c then [] else [s[0]]) + RemoveAll(s[1..], c)
  }

  /** No `c` is left, and a string without `c` is returned as it is. */
  lemma {:induction false} RemoveAllDrops(s: string, c: char)
    ensures c !in RemoveAll(s, c)
    ensures c !in s ==> RemoveAll(s, c) == s
  {
    if s != [] {
      RemoveAllDrops(s[1..], c);
      assert s == [s[0]] + s[1..];
    }
  }

  lemma {:induction false} RemoveAllConcat(a: string, b: string, c: char)
    ensures RemoveAll(a + b, c) == RemoveAll(a, c) + RemoveAll(b, c)
  {
    if a == [] {
      assert a + b == b;
    } else {
      var ab := a + b;
      var head: string := if a[0] == c then [] else [a[0]];
      assert ab[0] == a[0];
      assert ab[1..] == a[1..] + b;
      RemoveAllConcat(a[1..], b, c);
      calc {
        RemoveAll(ab, c);
        head + RemoveAll(ab[1..], c);
        head + (RemoveAll(a[1..], c) + RemoveAll(b, c));
        (head + RemoveAll(a[1..], c)) + RemoveAll(b, c);
        RemoveAll(a, c) + RemoveAll(b, c);
      }
    }
  }
}
