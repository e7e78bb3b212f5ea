/** Decimal text: printing a number, and scanning one off the front of a string. */
module Decimals {
  import opened Options

  const UINT64_LIMIT: nat := 0x1_0000_0000_0000_0000
  const INT64_LIMIT: int := 0x8000_0000_0000_0000

  predicate IsDigit(c: char) {
    '0' <= c <= '9'
  }

  predicate AllDigits(s: string) {
    forall i :: 0 <= i < |s| ==> IsDigit(s[i])
  }

  function DigitOf(n: nat): (c: char)
    requires n < 10
    ensures IsDigit(c)
  {
    '0' + n as char
  }

  function ValueOf(c: char): (n: nat)
    requires IsDigit(c)
    ensures n < 10
  {
    c as int - '0' as int
  }

  /** The number a digit string denotes. */
  function Decimal(s: string): nat
    requires AllDigits(s)
  {
    if s == "" then 0 else 10 * Decimal(s[..|s| - 1]) + ValueOf(s[|s| - 1])
  }

  // ----- Scanning -----

  /** Space characters other than the line feed. */
  predicate IsBlank(c: char) {
    var n := c as int;
    || n in {0x09, 0x0B, 0x0C, 0x0D, 0x20, 0x85, 0xA0, 0x1680}
    || 0x2000 <= n <= 0x200A
    || n in {0x2028, 0x2029, 0x202F, 0x205F, 0x3000}
  }

  function SkipBlanks(s: string): string {
    if s != "" && IsBlank(s[0]) then SkipBlanks(s[1..]) else s
  }

  /** The leading digits. */
  function DigitToken(s: string): (t: string)
    ensures AllDigits(t)
  {
    if s != "" && IsDigit(s[0]) then [s[0]] + DigitToken(s[1..]) else ""
  }

  /** Scans an unsigned 64-bit number; nothing when there is no digit or the value is too large. */
  function ScanUnsigned(s: string): (n: Option<nat>)
    ensures n.Some? ==> n.value < UINT64_LIMIT
  {
    var token := DigitToken(SkipBlanks(s));
    if token != "" && Decimal(token) < UINT64_LIMIT then Some(Decimal(token)) else None
  }

  /** Scans a signed 64-bit number, which may have a sign. */
  function ScanSigned(s: string): (n: Option<int>)
    ensures n.Some? ==> -INT64_LIMIT <= n.value < INT64_LIMIT
  {
    var t := SkipBlanks(s);
    var signed := t != "" && (t[0] == '+' || t[0] == '-');
    var token := DigitToken(if signed then t[1..] else t);
    if token == "" then None
    else
      var value: int := if signed && t[0] == '-' then 0 - Decimal(token) else Decimal(token);
      if -INT64_LIMIT <= value < INT64_LIMIT then Some(value) else None
  }

  // ----- Printing -----

  function Digits(n: nat): (s: string)
    ensures AllDigits(s) && |s| > 0
  {
    if n < 10 then [DigitOf(n)] else Digits(n / 10) + [DigitOf(n % 10)]
  }

  // ----- Scanning inverts printing -----

  /** The token ends where the digits do. */
  lemma {:induction false} TokenOfDigits(s: string, rest: string)
    requires AllDigits(s) && (rest == "" || !IsDigit(rest[0]))
    ensures DigitToken(s + rest) == s
    ensures s != "" ==> SkipBlanks(s + rest) == s + rest
  {
    if s == "" {
      assert s + rest == rest;
    } else {
      TokenOfDigits(s[1..], rest);
      assert (s + rest)[1..] == s[1..] + rest;
      assert s == [s[0]] + s[1..];
    }
  }

  lemma {:induction false} ScanDigits(s: string, rest: string)
    requires AllDigits(s) && s != "" && (rest == "" || !IsDigit(rest[0]))
    ensures ScanUnsigned(s + rest) == if Decimal(s) < UINT64_LIMIT then Some(Decimal(s)) else None
    ensures ScanSigned(s + rest) == if Decimal(s) < INT64_LIMIT then Some(Decimal(s)) else None
  {
    TokenOfDigits(s, rest);
    assert (s + rest)[0] == s[0];
  }

  function Pow10(k: nat): (r: nat)
    ensures r > 0
  {
    if k == 0 then 1 else 10 * Pow10(k - 1)
  }

  lemma {:induction false} DecimalBound(s: string)
    requires AllDigits(s)
    ensures Decimal(s) < Pow10(|s|)
    ensures s != "" && s[0] != '0' ==> Decimal(s) >= Pow10(|s| - 1)
  {
    if s != "" {
      DecimalBound(s[..|s| - 1]);
      if |s| == 1 && s[0] != '0' {
        assert ValueOf(s[0]) >= 1;
      }
    }
  }

  lemma {:induction false} DigitsBound(n: nat)
    ensures Decimal(Digits(n)) == n
    ensures Digits(n)[0] == '0' ==> n == 0 && |Digits(n)| == 1
  {
    if n < 10 {
      assert Digits(n)[..0] == "";
    } else {
      DigitsBound(n / 10);
      assert Digits(n)[..|Digits(n)| - 1] == Digits(n / 10);
      assert Digits(n)[0] == Digits(n / 10)[0];
    }
  }

  lemma SameDigits(a: nat, x: nat, b: nat, y: nat)
    requires 10 * a + x == 10 * b + y && x < 10 && y < 10
    ensures a == b && x == y
  {
  }

  lemma SameDigitChar(c: char, d: char)
    requires IsDigit(c) && IsDigit(d) && ValueOf(c) == ValueOf(d)
    ensures c == d
  {
  }

  lemma SnocEqual(s: string, t: string)
    requires |s| == |t| > 0 && s[..|s| - 1] == t[..|s| - 1] && s[|s| - 1] == t[|s| - 1]
    ensures s == t
  {
    assert s == s[..|s| - 1] + [s[|s| - 1]];
    assert t == t[..|s| - 1] + [t[|s| - 1]];
  }

  /** Two digit strings of one length and one value are equal. */
  lemma {:induction false} SameDecimal(s: string, t: string)
    requires AllDigits(s) && AllDigits(t) && |s| == |t| && Decimal(s) == Decimal(t)
    ensures s == t
  {
    if s != "" {
      var n := |s| - 1;
      SameDigits(Decimal(s[..n]), ValueOf(s[n]), Decimal(t[..n]), ValueOf(t[n]));
      SameDigitChar(s[n], t[n]);
      SameDecimal(s[..n], t[..n]);
      SnocEqual(s, t);
    }
  }

  lemma {:induction false} PowersGrow(i: nat, j: nat)
    requires i <= j
    ensures Pow10(i) <= Pow10(j)
  {
    if i < j {
      PowersGrow(i, j - 1);
    }
  }

  lemma NotMoreDigits(n: nat, m: nat)
    requires n < Pow10(m) && m > 0
    ensures |Digits(n)| <= m
  {
    var d := Digits(n);
    DigitsBound(n);
    DecimalBound(d);
    if |d| > m {
      PowersGrow(m, |d| - 1);
    }
  }

  lemma NotFewerDigits(n: nat, m: nat)
    requires m > 0 && n >= Pow10(m - 1)
    ensures |Digits(n)| >= m
  {
    var d := Digits(n);
    DigitsBound(n);
    DecimalBound(d);
    if |d| < m {
      PowersGrow(|d|, m - 1);
    }
  }
}
