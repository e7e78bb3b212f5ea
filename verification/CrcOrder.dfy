/** The register returns to a nonzero state after exactly 32767 empty shifts, for both
    generators.  Powers of x are computed by squaring, and 32767 = 7 * 31 * 151. */
module CrcOrder {
  import opened Word16
  import opened Crc16

  // The register that stands for the constant polynomial 1.
  const UNIT: Word := 0x8000

  const PERIOD: nat := 32767

  // ----- Shifting is invertible -----

  lemma HalfIsNoGenerator(c: Word)
    ensures !IsGenerator(Half(c))
  {
  }

  lemma EvenHalfZero(c: Word)
    ensures !Odd(c) && Half(c) == 0 ==> c == 0
  {
  }

  lemma StepKernel(p: Word, c: Word)
    requires IsGenerator(p) && Step(p, c) == 0
    ensures c == 0
  {
    XorZeroEqual(Half(c), p);
    HalfIsNoGenerator(c);
    EvenHalfZero(c);
  }

  lemma {:induction false} ShiftOfZero(p: Word, n: nat)
    ensures Shift(p, 0, n) == 0
  {
    if n > 0 {
      ShiftOfZero(p, n - 1);
    }
  }

  lemma {:induction false} ShiftKernel(p: Word, c: Word, n: nat)
    requires IsGenerator(p) && Shift(p, c, n) == 0
    ensures c == 0
  {
    if n > 0 {
      StepKernel(p, Shift(p, c, n - 1));
      ShiftKernel(p, c, n - 1);
    }
  }

  lemma {:induction false} ShiftInjective(p: Word, a: Word, b: Word, n: nat)
    requires IsGenerator(p) && Shift(p, a, n) == Shift(p, b, n)
    ensures a == b
  {
    ShiftLinear(p, a, b, n);
    XorSelf(Shift(p, a, n));
    ShiftKernel(p, Xor(a, b), n);
    XorZeroEqual(a, b);
  }

  // ----- Multiplication of registers -----

  /** The product of the lowest `n` coefficients of `a` with `y`, by Horner's rule. */
  function Horner(p: Word, a: Word, y: Word, n: nat): Word {
    if n == 0 then 0 else Xor(Step(p, Horner(p, a, y, n - 1)), Mask(Bit(a, n - 1), y))
  }

  function HornerStep(p: Word, v: Word, y: Word, acc: Word): Word {
    Xor(Step(p, acc), Mask(Odd(v), y))
  }

  function HornerFour(p: Word, v: Word, y: Word, acc: Word): Word {
    HornerStep(p, v >> 3, y, HornerStep(p, v >> 2, y, HornerStep(p, v >> 1, y, HornerStep(p, v, y, acc))))
  }

  /** All sixteen steps of Horner's rule, written out. */
  function Times(p: Word, a: Word, y: Word): Word {
    HornerFour(p, a >> 12, y, HornerFour(p, a >> 8, y, HornerFour(p, a >> 4, y, HornerFour(p, a, y, 0))))
  }

  lemma HalvesAreShifts(v: Word)
    ensures Half(v) == v >> 1 && Half(Half(v)) == v >> 2 && Half(Half(Half(v))) == v >> 3
    ensures v >> 4 >> 4 == v >> 8 && v >> 8 >> 4 == v >> 12
  {
  }

  lemma HornerOne(p: Word, a: Word, y: Word, n: nat, v: Word)
    requires v == Drop(a, n)
    ensures Horner(p, a, y, n + 1) == HornerStep(p, v, y, Horner(p, a, y, n))
    ensures Drop(a, n + 1) == Half(v)
  {
  }

  lemma HornerByFour(p: Word, a: Word, y: Word, n: nat, v: Word)
    requires v == Drop(a, n)
    ensures Horner(p, a, y, n + 4) == HornerFour(p, v, y, Horner(p, a, y, n))
    ensures Drop(a, n + 4) == v >> 4
  {
    HornerOne(p, a, y, n, v);
    HornerOne(p, a, y, n + 1, Half(v));
    HornerOne(p, a, y, n + 2, Half(Half(v)));
    HornerOne(p, a, y, n + 3, Half(Half(Half(v))));
    HalvesAreShifts(v);
    HalfFour(v);
  }

  lemma DropShifts(a: Word, n: nat)
    requires n == 0
    ensures Drop(a, n) == a && Drop(a, n + 4) == a >> 4
    ensures Drop(a, n + 8) == a >> 8 && Drop(a, n + 12) == a >> 12
  {
    DropFour(a, n);
    DropFour(a, n + 4);
    DropFour(a, n + 8);
    HalfFour(a);
    HalfFour(a >> 4);
    HalfFour(a >> 8);
    HalvesAreShifts(a);
  }

  lemma HornerQuarter(p: Word, a: Word, y: Word, n: nat, v: Word, h: Word, h': Word)
    requires v == Drop(a, n) && h == Horner(p, a, y, n) && h' == Horner(p, a, y, n + 4)
    ensures h' == HornerFour(p, v, y, h)
  {
    HornerByFour(p, a, y, n, v);
  }

  lemma TimesInQuarters(p: Word, a: Word, y: Word, h4: Word, h8: Word, h12: Word, h16: Word)
    requires h4 == HornerFour(p, a, y, 0) && h8 == HornerFour(p, a >> 4, y, h4)
    requires h12 == HornerFour(p, a >> 8, y, h8) && h16 == HornerFour(p, a >> 12, y, h12)
    ensures Times(p, a, y) == h16
  {
  }

  lemma TimesIsHorner(p: Word, a: Word, y: Word, n: nat)
    requires n == 0
    ensures Times(p, a, y) == Horner(p, a, y, n + 16)
  {
    var h4, h8 := Horner(p, a, y, n + 4), Horner(p, a, y, n + 8);
    var h12, h16 := Horner(p, a, y, n + 12), Horner(p, a, y, n + 16);
    DropShifts(a, n);
    HornerQuarter(p, a, y, n, a, 0, h4);
    HornerQuarter(p, a, y, n + 4, a >> 4, h4, h8);
    HornerQuarter(p, a, y, n + 8, a >> 8, h8, h12);
    HornerQuarter(p, a, y, n + 12, a >> 12, h12, h16);
    TimesInQuarters(p, a, y, h4, h8, h12, h16);
  }

  lemma {:induction false} HornerShift(p: Word, a: Word, y: Word, k: nat, n: nat)
    ensures Shift(p, Horner(p, a, y, k), n) == Horner(p, a, Shift(p, y, n), k)
  {
    if k == 0 {
      ShiftOfZero(p, n);
    } else {
      var h := Horner(p, a, y, k - 1);
      HornerShift(p, a, y, k - 1, n);
      ShiftLinear(p, Step(p, h), Mask(Bit(a, k - 1), y), n);
      assert Shift(p, h, 1) == Step(p, Shift(p, h, 0));
      ShiftAdds(p, h, 1, n);
      ShiftOfZero(p, n);
    }
  }

  lemma UnitBit(j: nat)
    requires j < 16
    ensures Bit(UNIT, j) == (j == 15)
  {
    UnitDrops(j);
  }

  lemma {:induction false} UnitDrops(j: nat)
    requires j < 16
    ensures Odd(Drop(UNIT, j)) == (j == 15)
  {
    assert Drop(UNIT, 1) == 0x4000;
    assert Drop(UNIT, 2) == 0x2000;
    assert Drop(UNIT, 3) == 0x1000;
    assert Drop(UNIT, 4) == 0x0800;
    assert Drop(UNIT, 5) == 0x0400;
    assert Drop(UNIT, 6) == 0x0200;
    assert Drop(UNIT, 7) == 0x0100;
    assert Drop(UNIT, 8) == 0x0080;
    assert Drop(UNIT, 9) == 0x0040;
    assert Drop(UNIT, 10) == 0x0020;
    assert Drop(UNIT, 11) == 0x0010;
    assert Drop(UNIT, 12) == 0x0008;
    assert Drop(UNIT, 13) == 0x0004;
    assert Drop(UNIT, 14) == 0x0002;
    assert Drop(UNIT, 15) == 0x0001;
  }

  lemma {:induction false} HornerUnitBits(p: Word, b: Word, k: nat, j: nat)
    requires k <= 16 && j < 16
    ensures Bit(Horner(p, b, UNIT, k), j) == (j + k >= 16 && Bit(b, j + k - 16))
  {
    if k == 0 {
      DropOfZero(j);
    } else {
      var h := Horner(p, b, UNIT, k - 1);
      XorBit(Step(p, h), Mask(Bit(b, k - 1), UNIT), j);
      MaskBit(Bit(b, k - 1), UNIT, j);
      UnitBit(j);
      StepBit(p, h, j);
      HornerUnitBits(p, b, k - 1, 0);
      assert Drop(h, 0) == h;
      if j < 15 {
        HornerUnitBits(p, b, k - 1, j + 1);
      } else {
        BitBeyond(h, j + 1);
      }
    }
  }

  lemma HornerUnit(p: Word, b: Word, n: nat)
    requires n == 16
    ensures Horner(p, b, UNIT, n) == b
  {
    var h := Horner(p, b, UNIT, n);
    forall j | 0 <= j < 16 ensures WordBits(h, 16)[j] == WordBits(b, 16)[j] {
      HornerUnitBits(p, b, n, j);
    }
    BitsDetermine(h, b);
  }

  // ----- Powers of x -----

  /** `c` stands for x^n. */
  ghost predicate Power(p: Word, n: nat, c: Word) {
    Shift(p, UNIT, n) == c
  }

  lemma ShiftIsHorner(p: Word, a: Word, y: Word, n: nat, sixteen: nat)
    requires sixteen == 16 && y == Shift(p, UNIT, n)
    ensures Shift(p, a, n) == Horner(p, a, y, sixteen)
  {
    HornerShift(p, a, UNIT, sixteen, n);
    HornerUnit(p, a, sixteen);
  }

  lemma ShiftIsTimes(p: Word, a: Word, y: Word, n: nat, zero: nat)
    requires zero == 0 && y == Shift(p, UNIT, n)
    ensures Shift(p, a, n) == Times(p, a, y)
  {
    ShiftIsHorner(p, a, y, n, zero + 16);
    TimesIsHorner(p, a, y, zero);
  }

  /** Exponents add where registers multiply. */
  lemma Multiply(p: Word, m: nat, n: nat, a: Word, b: Word, c: Word)
    requires Power(p, m, a) && Power(p, n, b) && Times(p, a, b) == c
    ensures Power(p, m + n, c)
  {
    ShiftIsTimes(p, a, b, n, 0);
    ShiftAdds(p, UNIT, m, n);
  }

  lemma IbmLowSquares()
    ensures Power(IBM, 1, 0x4000)
    ensures Power(IBM, 2, 0x2000)
    ensures Power(IBM, 4, 0x0800)
    ensures Power(IBM, 8, 0x0080)
    ensures Power(IBM, 16, 0xA001)
    ensures Power(IBM, 32, 0xE801)
    ensures Power(IBM, 64, 0xC881)
    ensures Power(IBM, 128, 0x6080)
    ensures Power(IBM, 256, 0x8801)
  {
    assert Shift(IBM, UNIT, 0) == UNIT;
    assert Power(IBM, 1, 0x4000);
    Multiply(IBM, 1, 1, 0x4000, 0x4000, 0x2000);
    Multiply(IBM, 2, 2, 0x2000, 0x2000, 0x0800);
    Multiply(IBM, 4, 4, 0x0800, 0x0800, 0x0080);
    Multiply(IBM, 8, 8, 0x0080, 0x0080, 0xA001);
    Multiply(IBM, 16, 16, 0xA001, 0xA001, 0xE801);
    Multiply(IBM, 32, 32, 0xE801, 0xE801, 0xC881);
    Multiply(IBM, 64, 64, 0xC881, 0xC881, 0x6080);
    Multiply(IBM, 128, 128, 0x6080, 0x6080, 0x8801);
  }

  lemma IbmHighSquares()
    ensures Power(IBM, 512, 0xE081)
    ensures Power(IBM, 1024, 0x6800)
    ensures Power(IBM, 4096, 0xA881)
    ensures Power(IBM, 32768, 0x4000)
  {
    IbmLowSquares();
    Multiply(IBM, 256, 256, 0x8801, 0x8801, 0xE081);
    Multiply(IBM, 512, 512, 0xE081, 0xE081, 0x6800);
    Multiply(IBM, 1024, 1024, 0x6800, 0x6800, 0x2880);
    Multiply(IBM, 2048, 2048, 0x2880, 0x2880, 0xA881);
    Multiply(IBM, 4096, 4096, 0xA881, 0xA881, 0x4880);
    Multiply(IBM, 8192, 8192, 0x4880, 0x4880, 0x8081);
    Multiply(IBM, 16384, 16384, 0x8081, 0x8081, 0x4000);
  }

  lemma IbmPower217()
    ensures Power(IBM, 217, 0x3E55)
  {
    IbmLowSquares();
    Multiply(IBM, 8, 16, 0x0080, 0xA001, 0xC061);
    Multiply(IBM, 64, 24, 0xC881, 0xC061, 0xE807);
    Multiply(IBM, 128, 88, 0x6080, 0xE807, 0x7CAA);
    Multiply(IBM, 216, 1, 0x7CAA, 0x4000, 0x3E55);
  }

  lemma IbmPower1057()
    ensures Power(IBM, 1057, 0xCE41)
  {
    IbmLowSquares();
    IbmHighSquares();
    Multiply(IBM, 1024, 32, 0x6800, 0xE801, 0xDC81);
    Multiply(IBM, 1056, 1, 0xDC81, 0x4000, 0xCE41);
  }

  lemma IbmPower4681()
    ensures Power(IBM, 4681, 0x8C69)
  {
    IbmLowSquares();
    IbmHighSquares();
    Multiply(IBM, 8, 1, 0x0080, 0x4000, 0x0040);
    Multiply(IBM, 64, 9, 0xC881, 0x0040, 0x3004);
    Multiply(IBM, 512, 73, 0xE081, 0x3004, 0x0F31);
    Multiply(IBM, 4096, 585, 0xA881, 0x0F31, 0x8C69);
  }

  lemma KermitLowSquares()
    ensures Power(KERMIT, 1, 0x4000)
    ensures Power(KERMIT, 2, 0x2000)
    ensures Power(KERMIT, 4, 0x0800)
    ensures Power(KERMIT, 8, 0x0080)
    ensures Power(KERMIT, 16, 0x8408)
    ensures Power(KERMIT, 32, 0x0CEC)
    ensures Power(KERMIT, 64, 0x861D)
    ensures Power(KERMIT, 128, 0x3F75)
    ensures Power(KERMIT, 256, 0x9471)
  {
    assert Shift(KERMIT, UNIT, 0) == UNIT;
    assert Power(KERMIT, 1, 0x4000);
    Multiply(KERMIT, 1, 1, 0x4000, 0x4000, 0x2000);
    Multiply(KERMIT, 2, 2, 0x2000, 0x2000, 0x0800);
    Multiply(KERMIT, 4, 4, 0x0800, 0x0800, 0x0080);
    Multiply(KERMIT, 8, 8, 0x0080, 0x0080, 0x8408);
    Multiply(KERMIT, 16, 16, 0x8408, 0x8408, 0x0CEC);
    Multiply(KERMIT, 32, 32, 0x0CEC, 0x0CEC, 0x861D);
    Multiply(KERMIT, 64, 64, 0x861D, 0x861D, 0x3F75);
    Multiply(KERMIT, 128, 128, 0x3F75, 0x3F75, 0x9471);
  }

  lemma KermitHighSquares()
    ensures Power(KERMIT, 512, 0x3FC8)
    ensures Power(KERMIT, 1024, 0x236C)
    ensures Power(KERMIT, 4096, 0x7955)
    ensures Power(KERMIT, 32768, 0x4000)
  {
    KermitLowSquares();
    Multiply(KERMIT, 256, 256, 0x9471, 0x9471, 0x3FC8);
    Multiply(KERMIT, 512, 512, 0x3FC8, 0x3FC8, 0x236C);
    Multiply(KERMIT, 1024, 1024, 0x236C, 0x236C, 0x0ABF);
    Multiply(KERMIT, 2048, 2048, 0x0ABF, 0x0ABF, 0x7955);
    Multiply(KERMIT, 4096, 4096, 0x7955, 0x7955, 0x3811);
    Multiply(KERMIT, 8192, 8192, 0x3811, 0x3811, 0x1A22);
    Multiply(KERMIT, 16384, 16384, 0x1A22, 0x1A22, 0x4000);
  }

  lemma KermitPower217()
    ensures Power(KERMIT, 217, 0xC712)
  {
    KermitLowSquares();
    Multiply(KERMIT, 8, 16, 0x0080, 0x8408, 0x8CCC);
    Multiply(KERMIT, 64, 24, 0x861D, 0x8CCC, 0xA2F6);
    Multiply(KERMIT, 128, 88, 0x3F75, 0xA2F6, 0x8635);
    Multiply(KERMIT, 216, 1, 0x8635, 0x4000, 0xC712);
  }

  lemma KermitPower1057()
    ensures Power(KERMIT, 1057, 0xF54F)
  {
    KermitLowSquares();
    KermitHighSquares();
    Multiply(KERMIT, 1024, 32, 0x236C, 0x0CEC, 0xE28F);
    Multiply(KERMIT, 1056, 1, 0xE28F, 0x4000, 0xF54F);
  }

  lemma KermitPower4681()
    ensures Power(KERMIT, 4681, 0x4234)
  {
    KermitLowSquares();
    KermitHighSquares();
    Multiply(KERMIT, 8, 1, 0x0080, 0x4000, 0x0040);
    Multiply(KERMIT, 64, 9, 0x861D, 0x0040, 0x65F1);
    Multiply(KERMIT, 512, 73, 0x3FC8, 0x65F1, 0x00A2);
    Multiply(KERMIT, 4096, 585, 0x7955, 0x00A2, 0x4234);
  }

  // ----- The order of x -----

  ghost predicate Returns(p: Word, n: nat) {
    Shift(p, UNIT, n) == UNIT
  }

  lemma ReturnsAtPeriod(p: Word)
    requires IsGenerator(p)
    ensures Returns(p, PERIOD)
  {
    if p == IBM {
      IbmLowSquares();
      IbmHighSquares();
    } else {
      KermitLowSquares();
      KermitHighSquares();
    }
    var n := PERIOD;
    ShiftAdds(p, UNIT, n, 1);
    ShiftInjective(p, Shift(p, UNIT, n), UNIT, 1);
  }

  lemma NoReturnAtCofactors(p: Word)
    requires IsGenerator(p)
    ensures !Returns(p, 217) && !Returns(p, 1057) && !Returns(p, 4681)
  {
    if p == IBM {
      IbmPower217();
      IbmPower1057();
      IbmPower4681();
    } else {
      KermitPower217();
      KermitPower1057();
      KermitPower4681();
    }
  }

  lemma {:induction false} ReturnsMultiple(p: Word, n: nat, m: nat)
    requires Returns(p, n)
    ensures n * m >= 0 && Returns(p, n * m)
  {
    if m > 0 {
      ReturnsMultiple(p, n, m - 1);
      ShiftAdds(p, UNIT, n * (m - 1), n);
      assert n * (m - 1) + n == n * m;
    }
  }

  lemma ReturnsDifference(p: Word, m: nat, n: nat)
    requires m <= n && Returns(p, m) && Returns(p, n)
    ensures Returns(p, n - m)
  {
    ShiftAdds(p, UNIT, m, n - m);
  }

  lemma ScaledDifference(p: Word, s: nat, a: nat, b: nat)
    requires a <= b && Returns(p, s * a) && Returns(p, s * b)
    ensures s * (b - a) >= 0 && Returns(p, s * (b - a))
  {
    assert s * b - s * a == s * (b - a);
    ReturnsDifference(p, s * a, s * b);
  }

  lemma Distribute(g: nat, x: nat, y: nat)
    ensures g * x + g * y == g * (x + y)
  {
  }

  /** Euclid's algorithm on exponents, all scaled by `s`. */
  lemma {:induction false} ReturnsAtCommonDivisor(p: Word, s: nat, a: nat, b: nat) returns (g: nat, x: nat, y: nat)
    requires a > 0 && b > 0 && Returns(p, s * a) && Returns(p, s * b)
    ensures g > 0 && a == g * x && b == g * y && Returns(p, s * g)
    decreases a + b
  {
    if a == b {
      g, x, y := a, 1, 1;
    } else if a < b {
      ScaledDifference(p, s, a, b);
      g, x, y := ReturnsAtCommonDivisor(p, s, a, b - a);
      Distribute(g, x, y);
      y := x + y;
    } else {
      ScaledDifference(p, s, b, a);
      g, x, y := ReturnsAtCommonDivisor(p, s, a - b, b);
      Distribute(g, x, y);
      x := x + y;
    }
  }

  lemma ProductAtLeast(g: nat, y: nat)
    requires g >= 13 && y >= 13
    ensures g * y >= 13 * 13
  {
  }

  lemma PrimeDivisor(q: nat, g: nat, y: nat)
    requires q in {7, 31, 151} && q == g * y
    ensures g == 1 || g == q
  {
    if g < 13 {
      assert g in {0, 1, 2, 3, 4, 5, 6, 7, 8, 9, 10, 11, 12};
    } else if y < 13 {
      assert y in {0, 1, 2, 3, 4, 5, 6, 7, 8, 9, 10, 11, 12};
    } else {
      ProductAtLeast(g, y);
    }
  }

  lemma MultipleOf7(x: nat)
    ensures (7 * x) % 7 == 0
  {
  }

  lemma MultipleOf31(x: nat)
    ensures (31 * x) % 31 == 0
  {
  }

  lemma MultipleOf151(x: nat)
    ensures (151 * x) % 151 == 0
  {
  }

  lemma MultipleHasNoRest(q: nat, x: nat)
    requires q in {7, 31, 151}
    ensures (q * x) % q == 0
  {
    MultipleOf7(x);
    MultipleOf31(x);
    MultipleOf151(x);
  }

  lemma PrimeFactorDividesScaled(p: Word, k: nat, q: nat, s: nat)
    requires k > 0 && q in {7, 31, 151} && s * q == PERIOD
    requires Returns(p, k) && Returns(p, PERIOD) && !Returns(p, s)
    ensures k % q == 0
  {
    ReturnsMultiple(p, k, s);
    assert k * s == s * k;
    var g, x, y := ReturnsAtCommonDivisor(p, s, k, q);
    PrimeDivisor(q, g, y);
    assert g == 1 ==> s * g == s;
    MultipleHasNoRest(q, x);
  }

  /** A return at `k` forces every prime factor of the period to divide `k`. */
  lemma PrimeFactorsDivide(p: Word, k: nat)
    requires IsGenerator(p) && k > 0 && Returns(p, k)
    ensures k % 7 == 0 && k % 31 == 0 && k % 151 == 0
  {
    ReturnsAtPeriod(p);
    NoReturnAtCofactors(p);
    PrimeFactorDividesScaled(p, k, 7, 4681);
    PrimeFactorDividesScaled(p, k, 31, 1057);
    PrimeFactorDividesScaled(p, k, 151, 217);
  }

  /** A common multiple of 7, 31 and 151 is one of their product. */
  lemma CommonMultiple(k: nat, a: nat, b: nat, c: nat) returns (e: int)
    requires k == 7 * a && k == 31 * b && k == 151 * c
    ensures k == PERIOD * e
  {
    var d := 9 * b - 2 * a;
    assert k == 217 * d;
    e := 23 * d - 16 * c;
  }

  lemma PeriodHasNoRest(e: int)
    ensures (PERIOD * e) % PERIOD == 0
  {
  }

  lemma FactorsMultiply(k: nat)
    requires k % 7 == 0 && k % 31 == 0 && k % 151 == 0
    ensures k % PERIOD == 0
  {
    var e := CommonMultiple(k, k / 7, k / 31, k / 151);
    PeriodHasNoRest(e);
  }

  /** Modulo either generator, x^k is 1 exactly when 32767 divides k. */
  lemma OrderOfX(p: Word, k: nat)
    requires IsGenerator(p)
    ensures Shift(p, UNIT, k) == UNIT <==> k % PERIOD == 0
  {
    if k > 0 && Returns(p, k) {
      PrimeFactorsDivide(p, k);
      FactorsMultiply(k);
    }
    if k % PERIOD == 0 {
      ReturnsAtPeriod(p);
      ReturnsMultiple(p, PERIOD, k / PERIOD);
      assert PERIOD * (k / PERIOD) == k;
    }
  }
}
