/** String operations of the JavaScript runtime that the handlers and the views rely on:
    the whitespace class used by `trim` and by `\s`, `trim`, `join`, `split` on a
    one-character separator, a global one-character `replace`, ASCII lower-casing and the
    decimal rendering of an integer. Strings are sequences of characters. */
module Text {

  /** The WhiteSpace and LineTerminator code points of ECMAScript: what `trim` strips and
      what `\s` matches. */
  predicate IsSpace(c: char) {
    || c == '\t' || c == '\n' || c == '\U{B}' || c == '\U{C}' || c == '\r' || c == ' '
    || c == '\U{A0}' || c == '\U{1680}' || ('\U{2000}' <= c <= '\U{200A}')
    || c == '\U{2028}' || c == '\U{2029}' || c == '\U{202F}' || c == '\U{205F}'
    || c == '\U{3000}' || c == '\U{FEFF}'
  }

  predicate AllSpace(s: string) {
    forall i :: 0 <= i < |s| ==> IsSpace(s[i])
  }

  /** `s` occurs somewhere inside `t`. */
  predicate Contains(t: string, s: string) {
    exists i :: 0 <= i <= |t| && s <= t[i..]
  }

  predicate EndsWith(t: string, s: string) {
    |s| <= |t| && t[|t| - |s|..] == s
  }

  /** Drops the leading whitespace: the result is a suffix of `s`, everything dropped is
      whitespace, and the result does not start with whitespace. */
  function TrimStart(s: string): (r: string)
    ensures |r| <= |s| && r == s[|s| - |r|..]
    ensures forall i :: 0 <= i < |s| - |r| ==> IsSpace(s[i])
    ensures r == [] || !IsSpace(r[0])
  {
    if |s| > 0 && IsSpace(s[0]) then TrimStart(s[1..]) else s
  }

  /** Drops the trailing whitespace: the result is a prefix of `s`. */
  function TrimEnd(s: string): (r: string)
    ensures |r| <= |s| && r == s[..|r|]
    ensures forall i :: |r| <= i < |s| ==> IsSpace(s[i])
    ensures r == [] || !IsSpace(r[|r| - 1])
  {
    if |s| > 0 && IsSpace(s[|s| - 1]) then TrimEnd(s[..|s| - 1]) else s
  }

  /** `String.prototype.trim`. */
  function Trim(s: string): (r: string)
    ensures |r| <= |s|
    ensures r == [] <==> AllSpace(s)
    ensures r != [] ==> !IsSpace(r[0]) && !IsSpace(r[|r| - 1])
  {
    var t := TrimStart(s);
    var r := TrimEnd(t);
    assert r == [] ==> t == t[|r|..];
    r
  }

  /** A string that neither starts nor ends with whitespace is its own trim. */
  lemma TrimUntrimmed(s: string)
    requires s != [] && !IsSpace(s[0]) && !IsSpace(s[|s| - 1])
    ensures Trim(s) == s
  {
  }

  lemma {:induction false} TrimStartPadded(a: string, y: string)
    requires AllSpace(a) && y != [] && !IsSpace(y[0])
    ensures TrimStart(a + y) == y
  {
    if a != [] {
      assert (a + y)[1..] == a[1..] + y;
      TrimStartPadded(a[1..], y);
    } else {
      assert a + y == y;
    }
  }

  lemma {:induction false} TrimEndPadded(y: string, b: string)
    requires AllSpace(b) && y != [] && !IsSpace(y[|y| - 1])
    ensures TrimEnd(y + b) == y
  {
    if b != [] {
      assert (y + b)[..|y + b| - 1] == y + b[..|b| - 1];
      TrimEndPadded(y, b[..|b| - 1]);
    } else {
      assert y + b == y;
    }
  }

  /** Whitespace around a string whose ends are not whitespace is exactly what `trim`
      removes. */
  lemma TrimPadded(a: string, x: string, b: string)
    requires AllSpace(a) && AllSpace(b)
    requires x != [] && !IsSpace(x[0]) && !IsSpace(x[|x| - 1])
    ensures Trim(a + x + b) == x
  {
    assert a + x + b == a + (x + b);
    TrimStartPadded(a, x + b);
    TrimEndPadded(x, b);
  }

  /** A string opened and closed by a line break, whose text starts with a non-space
      character, trims to its text with only the trailing whitespace removed. */
  lemma TrimFramed(x: string)
    requires x != [] && !IsSpace(x[0])
    ensures Trim("\n" + x + "\n") == TrimEnd(x)
  {
    var s := "\n" + x + "\n";
    assert s == "\n" + (x + "\n");
    TrimStartPadded("\n", x + "\n");
    assert (x + "\n")[..|x|] == x;
  }

  /** The same when the text is a front part with non-space ends followed by any rest: the
      front part survives whole. */
  lemma TrimFramedFront(p: string, q: string)
    requires p != [] && !IsSpace(p[0]) && !IsSpace(p[|p| - 1])
    ensures Trim("\n" + p + q + "\n") == TrimEnd(p + q)
    ensures p <= TrimEnd(p + q)
  {
    var x := p + q;
    assert "\n" + p + q + "\n" == "\n" + x + "\n";
    assert x[0] == p[0] && x[|p| - 1] == p[|p| - 1];
    TrimFramed(x);
    TrimEndKeeps(x, |p| - 1);
    assert x[..|p|] == p;
  }

  /** Trailing whitespace lies after the last non-space character: text in front of a part
      that starts with a non-space character is kept whole. */
  lemma {:induction false} TrimEndAppend(x: string, y: string)
    requires y != [] && !IsSpace(y[0])
    ensures TrimEnd(x + y) == x + TrimEnd(y)
    decreases |y|
  {
    var s := x + y;
    if IsSpace(y[|y| - 1]) {
      assert |y| > 1;
      assert s[..|s| - 1] == x + y[..|y| - 1];
      TrimEndAppend(x, y[..|y| - 1]);
    }
  }

  /** A non-space character survives `trimEnd`, and so does everything before it. */
  lemma TrimEndKeeps(s: string, k: int)
    requires 0 <= k < |s| && !IsSpace(s[k])
    ensures s[..k + 1] <= TrimEnd(s)
  {
  }

  lemma ContainsMiddle(a: string, b: string, c: string)
    ensures Contains(a + b + c, b)
  {
    assert b <= (a + b + c)[|a|..];
  }

  lemma EndsWithAppend(a: string, b: string)
    ensures EndsWith(a + b, b)
  {
    assert (a + b)[|a + b| - |b|..] == b;
  }

  /** A text assembled from five pieces starts with the first two, contains the fourth and
      ends with the fifth. */
  lemma Pieces(a: string, b: string, c: string, d: string, e: string)
    ensures a + b <= a + b + c + d + e
    ensures Contains(a + b + c + d + e, d)
    ensures EndsWith(a + b + c + d + e, e)
  {
    assert a + b + c + d + e == (a + b) + (c + d + e);
    ContainsMiddle(a + b + c, d, e);
    EndsWithAppend(a + b + c + d, e);
  }

  lemma EndsWithTrans(t: string, u: string, v: string)
    requires EndsWith(t, u) && EndsWith(u, v)
    ensures EndsWith(t, v)
  {
    assert t[|t| - |v|..] == t[|t| - |u|..][|u| - |v|..];
  }

  /** `Array.prototype.join(sep)` over strings. */
  function Join(parts: seq<string>, sep: string): string
  {
    if |parts| == 0 then ""
    else if |parts| == 1 then parts[0]
    else parts[0] + sep + Join(parts[1..], sep)
  }

  /** Joining one more part appends the separator and that part. */
  lemma {:induction false} JoinSnoc(parts: seq<string>, x: string, sep: string)
    ensures Join(parts + [x], sep) == if parts == [] then x else Join(parts, sep) + sep + x
  {
    if |parts| >= 2 {
      assert (parts + [x])[1..] == parts[1..] + [x];
      JoinSnoc(parts[1..], x, sep);
    } else if |parts| == 1 {
      assert (parts + [x])[1..] == [x];
    }
  }

  /** Position of the first occurrence of `c` in `s`. */
  function IndexOf(s: string, c: char): (i: nat)
    requires c in s
    ensures i < |s| && s[i] == c && c !in s[..i]
  {
    if s[0] == c then 0
    else
      var i := IndexOf(s[1..], c);
      assert s[..i + 1] == [s[0]] + s[1..][..i];
      1 + i
  }

  /** `String.prototype.split(c)` for a one-character separator: never empty, no part
      holds the separator, and joining the parts back with it gives `s` again. */
  function Split(s: string, c: char): (parts: seq<string>)
    ensures |parts| >= 1
    ensures forall k :: 0 <= k < |parts| ==> c !in parts[k]
    ensures Join(parts, [c]) == s
    decreases |s|
  {
    if c !in s then [s]
    else
      var i := IndexOf(s, c);
      var rest := Split(s[i + 1..], c);
      var parts := [s[..i]] + rest;
      assert parts[1..] == rest;
      assert s == s[..i] + [c] + s[i + 1..];
      parts
  }

  /** The other half of the round trip: splitting a join of separator-free parts gives the
      parts back. */
  lemma {:induction false} SplitJoin(parts: seq<string>, c: char)
    requires |parts| >= 1
    requires forall k :: 0 <= k < |parts| ==> c !in parts[k]
    ensures Split(Join(parts, [c]), c) == parts
  {
    if |parts| > 1 {
      var s := Join(parts, [c]);
      var rest := Join(parts[1..], [c]);
      assert s == parts[0] + [c] + rest;
      assert s[|parts[0]|] == c;
      assert s[..|parts[0]|] == parts[0];
      var i := IndexOf(s, c);
      assert forall j :: 0 <= j < |parts[0]| ==> s[j] == parts[0][j];
      assert s[..i] == parts[0];
      assert s[i + 1..] == rest;
      SplitJoin(parts[1..], c);
    }
  }

  /** A global replacement of one character by another, as `s.replace(/x/g, y)` does. */
  function ReplaceChar(s: string, from: char, to: char): (r: string)
    ensures |r| == |s|
    ensures forall i :: 0 <= i < |s| ==> r[i] == (if s[i] == from then to else s[i])
  {
    if s == [] then []
    else [if s[0] == from then to else s[0]] + ReplaceChar(s[1..], from, to)
  }

  /** `toLowerCase` on one character, for the ASCII letters. */
  function LowerChar(c: char): (d: char)
    ensures IsSpace(d) <==> IsSpace(c)
  {
    if 'A' <= c <= 'Z' then (c as int + 32) as char else c
  }

  function Lower(s: string): (r: string)
    ensures |r| == |s|
    ensures forall i :: 0 <= i < |s| ==> r[i] == LowerChar(s[i])
  {
    seq(|s|, i requires 0 <= i < |s| => LowerChar(s[i]))
  }

  function DigitChar(d: nat): char
    requires d < 10
  {
    ('0' as int + d) as char
  }

  predicate IsDigits(s: string) {
    forall i :: 0 <= i < |s| ==> '0' <= s[i] <= '9'
  }

  /** The number a string of decimal digits denotes. */
  function DigitsValue(s: string): nat
    requires IsDigits(s)
  {
    if s == [] then 0 else DigitsValue(s[..|s| - 1]) * 10 + (s[|s| - 1] as int - '0' as int)
  }

  /** The decimal numeral of `n`, without leading zeros. */
  function NatToString(n: nat): (r: string)
    ensures r != [] && IsDigits(r)
    ensures |r| > 1 ==> r[0] != '0'
  {
    if n < 10 then [DigitChar(n)] else NatToString(n / 10) + [DigitChar(n % 10)]
  }

  /** Reading the numeral back gives the number. */
  lemma {:induction false} NatToStringValue(n: nat)
    ensures DigitsValue(NatToString(n)) == n
  {
    if n >= 10 {
      var s := NatToString(n);
      assert s[..|s| - 1] == NatToString(n / 10);
      NatToStringValue(n / 10);
    }
  }

  /** The way a template literal renders an integral number. */
  function IntToString(n: int): string {
    if n < 0 then "-" + NatToString(-n) else NatToString(n)
  }
}
