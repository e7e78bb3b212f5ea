/** A device identity as the decimal text a caller gives, the number the wire carries,
    and the fifteen-digit text a receiver prints. */
module Imei {
  import opened Decimals

  const DIGITS_PRINTED: nat := 15

  /** The number sent for an identity.  A failed scan leaves the variable at zero. */
  function Scan(s: string): (n: nat)
    ensures n < UINT64_LIMIT
  {
    match ScanUnsigned(s)
    case Some(n) => n
    case None => 0
  }

  function Zeroes(k: nat): (s: string)
    ensures |s| == k && AllDigits(s)
  {
    seq(k, i => '0')
  }

  /** Decimal text of at least `k` digits, padded with zeros on the left. */
  function Padded(n: nat, k: nat): (s: string)
    ensures AllDigits(s) && |s| >= k
  {
    if |Digits(n)| < k then Zeroes(k - |Digits(n)|) + Digits(n) else Digits(n)
  }

  lemma {:induction false} LeadingZeroes(k: nat, s: string)
    requires AllDigits(s)
    ensures Decimal(Zeroes(k) + s) == Decimal(s)
  {
    if s == "" {
      assert Zeroes(k) + s == Zeroes(k);
      if k > 0 {
        assert Zeroes(k)[..k - 1] == Zeroes(k - 1) + "";
        LeadingZeroes(k - 1, "");
      }
    } else {
      var n := |s| - 1;
      assert (Zeroes(k) + s)[..k + n] == Zeroes(k) + s[..n];
      LeadingZeroes(k, s[..n]);
    }
  }

  lemma PaddedValue(n: nat, k: nat)
    ensures Decimal(Padded(n, k)) == n
  {
    var digits := Digits(n);
    DigitsBound(n);
    if |digits| < k {
      LeadingZeroes(k - |digits|, digits);
      assert Padded(n, k) == Zeroes(k - |digits|) + digits;
    }
  }

  /** A number of at most `m` digits prints in exactly `m` characters. */
  lemma PaddedLength(n: nat, k: nat, m: nat)
    requires 0 < k <= m && n < Pow10(m) && (m > k ==> n >= Pow10(m - 1))
    ensures |Padded(n, k)| == m
  {
    NotMoreDigits(n, m);
    if m > k {
      NotFewerDigits(n, m);
    }
  }

  lemma FifteenDigitsFit()
    ensures Pow10(DIGITS_PRINTED) < UINT64_LIMIT
  {
    assert Pow10(5) == 100_000;
    assert Pow10(10) == 10_000_000_000;
  }

  lemma PrintedBack(s: string, k: nat)
    requires AllDigits(s) && 0 < k <= |s| && (|s| > k ==> s[0] != '0')
    ensures Padded(Decimal(s), k) == s
  {
    DecimalBound(s);
    PaddedLength(Decimal(s), k, |s|);
    PaddedValue(Decimal(s), k);
    SameDecimal(Padded(Decimal(s), k), s);
  }

  lemma NotPrintedBack(s: string, n: nat, k: nat)
    requires AllDigits(s) && |s| > k > 0 && (n == Decimal(s) ==> s[0] == '0')
    ensures Padded(n, k) != s
  {
    if Padded(n, k) == s {
      PaddedValue(n, k);
      DigitsBound(n);
    }
  }

  /** The identities that come back as they were given: fifteen digits, or more without a
      leading zero and within 64 bits. */
  predicate Survives(s: string) {
    AllDigits(s)
    && (|s| == DIGITS_PRINTED || (|s| > DIGITS_PRINTED && s[0] != '0' && Decimal(s) < UINT64_LIMIT))
  }

  lemma DigitsRoundTrip(s: string, k: nat)
    requires AllDigits(s) && k == DIGITS_PRINTED
    ensures Padded(Scan(s), k) == s
            <==> |s| == k || (|s| > k && s[0] != '0' && Decimal(s) < UINT64_LIMIT)
  {
    if |s| >= k {
      ScanDigits(s, "");
      assert s + "" == s;
      if |s| == k {
        DecimalBound(s);
        FifteenDigitsFit();
        PrintedBack(s, k);
      } else if s[0] != '0' && Decimal(s) < UINT64_LIMIT {
        PrintedBack(s, k);
      } else {
        NotPrintedBack(s, Scan(s), k);
      }
    }
  }

  /** Any string survives the trip as a number exactly when it is of this kind. */
  lemma {:induction false} IdentityRoundTrip(s: string)
    ensures Padded(Scan(s), DIGITS_PRINTED) == s <==> Survives(s)
  {
    if AllDigits(s) {
      DigitsRoundTrip(s, DIGITS_PRINTED);
    }
  }
}
