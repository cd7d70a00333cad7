/** The string primitives the components rely on: `trim`, ASCII case mapping
    (`toLowerCase`/`toUpperCase`) and `split`/`join` on a one-character separator. */
module Strings {

  /** The characters `String.prototype.trim` removes: the ECMAScript WhiteSpace set
      (TAB, VT, FF, ZWNBSP and every space separator of category Zs) together with
      the LineTerminator set (LF, CR, LS, PS). */
  const SpaceChars: set<char> := {
    '\t', '\n', '\U{000B}', '\U{000C}', '\r', ' ', '\U{00A0}', '\U{1680}',
    '\U{2000}', '\U{2001}', '\U{2002}', '\U{2003}', '\U{2004}', '\U{2005}',
    '\U{2006}', '\U{2007}', '\U{2008}', '\U{2009}', '\U{200A}',
    '\U{2028}', '\U{2029}', '\U{202F}', '\U{205F}', '\U{3000}', '\U{FEFF}'
  }

  predicate IsSpace(c: char) {
    c in SpaceChars
  }

  predicate AllSpace(s: string) {
    forall i :: 0 <= i < |s| ==> IsSpace(s[i])
  }

  /** Neither end of `s` is white space. */
  predicate IsTrimmed(s: string) {
    s == [] || (!IsSpace(s[0]) && !IsSpace(s[|s| - 1]))
  }

  function TrimStart(s: string): (r: string)
    ensures |r| <= |s| && r == s[|s| - |r|..]
    ensures r == [] || !IsSpace(r[0])
  {
    if |s| > 0 && IsSpace(s[0]) then TrimStart(s[1..]) else s
  }

  function TrimEnd(s: string): (r: string)
    ensures |r| <= |s| && r == s[..|r|]
    ensures r == [] || !IsSpace(r[|r| - 1])
  {
    if |s| > 0 && IsSpace(s[|s| - 1]) then TrimEnd(s[..|s| - 1]) else s
  }

  /** What `TrimStart` cuts off is white space. */
  lemma {:induction false} TrimStartCutsSpace(s: string)
    ensures AllSpace(s[..|s| - |TrimStart(s)|])
  {
    if |s| > 0 && IsSpace(s[0]) {
      TrimStartCutsSpace(s[1..]);
      var k := |s| - |TrimStart(s)|;
      forall i | 0 <= i < k
        ensures IsSpace(s[i])
      {
        if i > 0 {
          assert s[i] == s[1..][..k - 1][i - 1];
        }
      }
    }
  }

  /** What `TrimEnd` cuts off is white space. */
  lemma {:induction false} TrimEndCutsSpace(s: string)
    ensures AllSpace(s[|TrimEnd(s)|..])
  {
    if |s| > 0 && IsSpace(s[|s| - 1]) {
      var init := s[..|s| - 1];
      TrimEndCutsSpace(init);
      var n := |TrimEnd(s)|;
      forall i | n <= i < |s|
        ensures IsSpace(s[i])
      {
        if i < |s| - 1 {
          assert s[i] == init[n..][i - n];
        }
      }
    }
  }

  /** `String.prototype.trim`: the result neither starts nor ends with white space;
      `TrimSplits` states what was cut off. */
  function Trim(s: string): (r: string)
    ensures IsTrimmed(r)
  {
    var t := TrimStart(s);
    var r := TrimEnd(t);
    assert r != [] ==> r[0] == t[0];
    r
  }

  /** The white space `Trim` cuts from the front of `s`. */
  function Leading(s: string): string {
    s[..|s| - |TrimStart(s)|]
  }

  /** The white space `Trim` cuts from the back of `s`. */
  function Trailing(s: string): string {
    TrimStart(s)[|Trim(s)|..]
  }

  /** `s` is white space, then `Trim(s)`, then white space. */
  lemma TrimSplits(s: string)
    ensures s == Leading(s) + Trim(s) + Trailing(s)
    ensures AllSpace(Leading(s)) && AllSpace(Trailing(s))
  {
    TrimSplitsShape(s);
    TrimStartCutsSpace(s);
    TrimEndCutsSpace(TrimStart(s));
  }

  lemma TrimSplitsShape(s: string)
    ensures s == Leading(s) + Trim(s) + Trailing(s)
  {
    var t := TrimStart(s);
    assert Trim(s) == TrimEnd(t);
    Sandwich(s, t, Trim(s));
  }

  /** A suffix `t` of `s` with a prefix `r` of `t` cuts `s` into three pieces. */
  lemma Sandwich(s: string, t: string, r: string)
    requires |t| <= |s| && t == s[|s| - |t|..]
    requires |r| <= |t| && r == t[..|r|]
    ensures s == s[..|s| - |t|] + r + t[|r|..]
  {
    assert t == r + t[|r|..];
    Associate(s[..|s| - |t|], r, t[|r|..]);
  }

  lemma Associate(x: string, y: string, z: string)
    ensures x + (y + z) == x + y + z
  {
  }

  /** JavaScript's `!s.trim()`: the trimmed string is empty, hence falsy. */
  predicate IsBlank(s: string) {
    Trim(s) == []
  }

  lemma {:induction false} TrimStartSkipsSpace(a: string, x: string)
    requires AllSpace(a)
    ensures TrimStart(a + x) == TrimStart(x)
    decreases |a|
  {
    if a != [] {
      assert (a + x)[0] == a[0];
      assert (a + x)[1..] == a[1..] + x;
      assert TrimStart(a + x) == TrimStart(a[1..] + x);
      TrimStartSkipsSpace(a[1..], x);
    } else {
      assert a + x == x;
    }
  }

  lemma {:induction false} TrimEndSkipsSpace(x: string, b: string)
    requires AllSpace(b)
    ensures TrimEnd(x + b) == TrimEnd(x)
    decreases |b|
  {
    if b != [] {
      assert (x + b)[|x + b| - 1] == b[|b| - 1];
      assert (x + b)[..|x + b| - 1] == x + b[..|b| - 1];
      assert TrimEnd(x + b) == TrimEnd(x + b[..|b| - 1]);
      TrimEndSkipsSpace(x, b[..|b| - 1]);
    } else {
      assert x + b == x;
    }
  }

  lemma {:induction false} TrimStartAllSpace(s: string)
    requires AllSpace(s)
    ensures TrimStart(s) == []
    decreases |s|
  {
    if s != [] {
      TrimStartAllSpace(s[1..]);
    }
  }

  lemma AllSpaceConcat(x: string, y: string)
    requires AllSpace(x) && AllSpace(y)
    ensures AllSpace(x + y)
  {
  }

  /** The decomposition in `Trim`'s contract is unique: padding a trimmed string
      with white space on both sides and trimming gives the string back. */
  lemma TrimOfPadded(a: string, m: string, b: string)
    requires AllSpace(a) && AllSpace(b) && IsTrimmed(m)
    ensures Trim(a + m + b) == m
  {
    assert a + m + b == a + (m + b);
    TrimStartSkipsSpace(a, m + b);
    if m == [] {
      assert m + b == b;
      TrimStartAllSpace(b);
    } else {
      assert TrimStart(m + b) == m + b;
      TrimEndSkipsSpace(m, b);
    }
  }

  /** White space added at either end never changes what `trim` returns. */
  lemma TrimAbsorbsPadding(a: string, s: string, b: string)
    requires AllSpace(a) && AllSpace(b)
    ensures Trim(a + s + b) == Trim(s)
  {
    var t := Trim(s);
    var a', b' := Leading(s), Trailing(s);
    TrimSplits(s);
    Regroup(a, a', t, b', b);
    AllSpaceConcat(a, a');
    AllSpaceConcat(b', b);
    TrimOfPadded(a + a', t, b' + b);
  }

  lemma Regroup(a: string, a': string, t: string, b': string, b: string)
    ensures a + (a' + t + b') + b == (a + a') + t + (b' + b)
  {
  }

  /** Strings with a common suffix are equal exactly when the rest is. */
  lemma SuffixCancel(x: string, y: string, t: string)
    requires x + t == y + t
    ensures x == y
  {
    assert x == (x + t)[..|x|];
    assert y == (y + t)[..|y|];
  }

  function LowerChar(c: char): char {
    if 'A' <= c <= 'Z' then (c as int + 32) as char else c
  }

  function UpperChar(c: char): char {
    if 'a' <= c <= 'z' then (c as int - 32) as char else c
  }

  /** `toLowerCase`, restricted to the ASCII letters. */
  function ToLower(s: string): (r: string)
    ensures |r| == |s| && forall i :: 0 <= i < |s| ==> r[i] == LowerChar(s[i])
  {
    if s == [] then [] else [LowerChar(s[0])] + ToLower(s[1..])
  }

  /** `toUpperCase`, restricted to the ASCII letters. */
  function ToUpper(s: string): (r: string)
    ensures |r| == |s| && forall i :: 0 <= i < |s| ==> r[i] == UpperChar(s[i])
  {
    if s == [] then [] else [UpperChar(s[0])] + ToUpper(s[1..])
  }

  /** `s.split(sep)` for a one-character separator: the (possibly empty) pieces
      between separators, always at least one of them. */
  function Split(s: string, sep: char): (r: seq<string>)
    ensures |r| >= 1
    ensures forall i :: 0 <= i < |r| ==> sep !in r[i]
  {
    if s == [] then [[]]
    else
      var rest := Split(s[1..], sep);
      if s[0] == sep then [[]] + rest else [[s[0]] + rest[0]] + rest[1..]
  }

  /** `parts.join(sep)`. */
  function Join(parts: seq<string>, sep: char): string {
    if |parts| == 0 then []
    else if |parts| == 1 then parts[0]
    else parts[0] + [sep] + Join(parts[1..], sep)
  }

  /** Joining the pieces of a split with the same separator restores the string. */
  lemma {:induction false} JoinSplit(s: string, sep: char)
    ensures Join(Split(s, sep), sep) == s
  {
    if s != [] {
      var rest := Split(s[1..], sep);
      JoinSplit(s[1..], sep);
      if s[0] == sep {
        assert Split(s, sep) == [[]] + rest;
        assert ([[]] + rest)[1..] == rest;
      } else {
        var parts := [[s[0]] + rest[0]] + rest[1..];
        assert parts[1..] == rest[1..];
        if |rest| > 1 {
          assert Join(rest, sep) == rest[0] + [sep] + Join(rest[1..], sep);
        }
      }
    }
  }

  /** The first piece of a split is the text before the first separator, or the
      whole string when there is no separator. */
  lemma {:induction false} SplitHead(s: string, sep: char)
    ensures var p := Split(s, sep)[0];
      && |p| <= |s|
      && p == s[..|p|]
      && sep !in p
      && (|p| == |s| || s[|p|] == sep)
  {
    if s != [] && s[0] != sep {
      SplitHead(s[1..], sep);
    }
  }
}
