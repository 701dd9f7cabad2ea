/**
  The string primitives the client leans on: the white-space class shared by
  the regular-expression escape `\s` and `String.prototype.trim`,
  `trim` itself, ASCII lower-casing, and decimal rendering of a status code.
*/
module Strings {

  /** The code points ECMAScript counts as WhiteSpace or LineTerminator. */
  predicate IsWhitespace(c: char) {
    || c == ' ' || c == '\t' || c == '\n' || c == '\U{B}' || c == '\U{C}' || c == '\r'
    || c == '\U{A0}' || c == '\U{1680}' || ('\U{2000}' <= c <= '\U{200A}')
    || c == '\U{2028}' || c == '\U{2029}' || c == '\U{202F}' || c == '\U{205F}'
    || c == '\U{3000}' || c == '\U{FEFF}'
  }

  predicate AllWhitespace(s: string) {
    forall i :: 0 <= i < |s| ==> IsWhitespace(s[i])
  }

  /** Neither end of `s` is white space. */
  predicate Trimmed(s: string) {
    s == [] || (!IsWhitespace(s[0]) && !IsWhitespace(s[|s| - 1]))
  }

  /** Drops leading white space: everything dropped was white space, and what is left does not
      start with any (`TrimStartSuffix`: it is a suffix of `s`). */
  function TrimStart(s: string): (r: string)
    ensures |r| <= |s|
    ensures AllWhitespace(s[..|s| - |r|])
    ensures r == [] || !IsWhitespace(r[0])
  {
    if s != [] && IsWhitespace(s[0]) then TrimStart(s[1..]) else s
  }

  /** What `TrimStart` leaves is the suffix of `s` after what it dropped. */
  lemma {:induction false} TrimStartSuffix(s: string)
    ensures TrimStart(s) == s[|s| - |TrimStart(s)|..]
    decreases |s|
  {
    if s != [] && IsWhitespace(s[0]) {
      TrimStartSuffix(s[1..]);
      assert s[1..][|s| - 1 - |TrimStart(s)|..] == s[|s| - |TrimStart(s)|..];
    }
  }

  /** Drops trailing white space: the result is a prefix of `s` and everything dropped was white space. */
  function TrimEnd(s: string): (r: string)
    ensures |r| <= |s| && r == s[..|r|]
    ensures AllWhitespace(s[|r|..])
    ensures r == [] || !IsWhitespace(r[|r| - 1])
  {
    if s != [] && IsWhitespace(s[|s| - 1]) then TrimEnd(s[..|s| - 1]) else s
  }

  /** `s.trim()`: a contiguous part of `s` with white space at neither end, empty exactly when
      `s` is all white space. */
  function Trim(s: string): (r: string)
    ensures Trimmed(r) && |r| <= |s|
    ensures r == [] <==> AllWhitespace(s)
  {
    var a := TrimStart(s);
    var r := TrimEnd(a);
    TrimStartSuffix(s);
    assert r != [] ==> r[0] == a[0];
    if r == [] then
      assert a == [] by {
        assert a[|r|..] == a;
      }
      assert s[..|s| - |a|] == s;
      r
    else
      r
  }

  /** `trim` keeps a contiguous middle of `s`, removes only white space around it,
      and leaves neither end white. */
  lemma TrimShape(s: string)
    ensures Trimmed(Trim(s))
    ensures exists i, j :: 0 <= i <= j <= |s| && Trim(s) == s[i..j]
                           && AllWhitespace(s[..i]) && AllWhitespace(s[j..])
  {
    var a := TrimStart(s);
    TrimStartSuffix(s);
    var i := |s| - |a|;
    var j := i + |TrimEnd(a)|;
    assert Trim(s) == s[i..j];
    assert s[j..] == a[|TrimEnd(a)|..];
  }

  /** Any split of `s` into white space, a trimmed middle and white space has `trim(s)` as its middle. */
  lemma TrimUnique(pre: string, mid: string, post: string)
    requires AllWhitespace(pre) && AllWhitespace(post) && Trimmed(mid)
    ensures Trim(pre + mid + post) == mid
  {
    var s := pre + mid + post;
    assert s == pre + (mid + post);
    TrimStartDropsPrefix(pre, mid + post);
    assert TrimStart(s) == TrimStart(mid + post);
    TrimStartStopsAt(mid, post);
    if mid == [] {
      assert TrimStart(s) == [];
      assert Trim(s) == TrimEnd([]);
    } else {
      assert TrimStart(s) == mid + post;
      TrimEndDropsSuffix(mid, post);
      assert Trim(s) == TrimEnd(mid + post);
    }
  }

  lemma {:induction false} TrimStartDropsPrefix(pre: string, rest: string)
    requires AllWhitespace(pre)
    ensures TrimStart(pre + rest) == TrimStart(rest)
    decreases |pre|
  {
    if pre != [] {
      assert (pre + rest)[1..] == pre[1..] + rest;
      TrimStartDropsPrefix(pre[1..], rest);
    } else {
      assert pre + rest == rest;
    }
  }

  lemma TrimStartStopsAt(mid: string, post: string)
    requires Trimmed(mid) && AllWhitespace(post)
    ensures mid != [] ==> TrimStart(mid + post) == mid + post
    ensures mid == [] ==> TrimStart(mid + post) == []
  {
    if mid == [] {
      assert mid + post == post;
      AllWhitespaceTrimStart(post);
    } else {
      var s := mid + post;
      assert s[0] == mid[0];
      assert !IsWhitespace(s[0]);
    }
  }

  lemma {:induction false} AllWhitespaceTrimStart(s: string)
    requires AllWhitespace(s)
    ensures TrimStart(s) == []
    decreases |s|
  {
    if s != [] {
      AllWhitespaceTrimStart(s[1..]);
    }
  }

  lemma {:induction false} TrimEndDropsSuffix(mid: string, post: string)
    requires Trimmed(mid) && AllWhitespace(post)
    ensures TrimEnd(mid + post) == mid
    decreases |post|
  {
    if post == [] {
      assert mid + post == mid;
    } else {
      var s := mid + post;
      assert s[|s| - 1] == post[|post| - 1];
      assert s[..|s| - 1] == mid + post[..|post| - 1];
      TrimEndDropsSuffix(mid, post[..|post| - 1]);
    }
  }

  /** Trimming twice is trimming once. */
  lemma TrimIdempotent(s: string)
    ensures Trim(Trim(s)) == Trim(s)
  {
    TrimShape(s);
    var t := Trim(s);
    assert [] + t + [] == t;
    TrimUnique([], t, []);
  }

  /** ASCII upper-case letters. */
  predicate IsUpper(c: char) {
    'A' <= c <= 'Z'
  }

  function LowerChar(c: char): char {
    if IsUpper(c) then (c as int + 32) as char else c
  }

  /** `s.toLowerCase()` on the ASCII letters. */
  function Lower(s: string): (r: string)
    ensures |r| == |s|
    ensures forall i :: 0 <= i < |s| ==> r[i] == LowerChar(s[i])
  {
    seq(|s|, i requires 0 <= i < |s| => LowerChar(s[i]))
  }

  /** Lower-cased text has no upper-case letter left, and lower-casing it again changes nothing. */
  lemma LowerNormalises(s: string)
    ensures forall i :: 0 <= i < |s| ==> !IsUpper(Lower(s)[i])
    ensures Lower(Lower(s)) == Lower(s)
  {
  }

  function DigitChar(d: nat): char
    requires d < 10
  {
    "0123456789"[d]
  }

  predicate IsDigit(c: char) {
    '0' <= c <= '9'
  }

  /** Decimal rendering of a natural number, as template interpolation writes an HTTP status. */
  function Decimal(n: nat): (r: string)
    ensures |r| > 0
    ensures forall i :: 0 <= i < |r| ==> IsDigit(r[i])
    ensures n > 0 ==> r[0] != '0'
    decreases n
  {
    if n < 10 then [DigitChar(n)] else Decimal(n / 10) + [DigitChar(n % 10)]
  }

  function DigitValue(c: char): nat
    requires IsDigit(c)
  {
    c as int - '0' as int
  }

  /** The number a string of decimal digits denotes. */
  function DecimalValue(s: string): nat
    requires forall i :: 0 <= i < |s| ==> IsDigit(s[i])
    decreases |s|
  {
    if s == [] then 0 else 10 * DecimalValue(s[..|s| - 1]) + DigitValue(s[|s| - 1])
  }

  /** Reading back the rendered digits gives the number. */
  lemma {:induction false} DecimalRoundTrip(n: nat)
    ensures DecimalValue(Decimal(n)) == n
    decreases n
  {
    if n >= 10 {
      DecimalRoundTrip(n / 10);
      var r := Decimal(n);
      assert r[..|r| - 1] == Decimal(n / 10);
    }
  }
}
