/** The checksum as a polynomial remainder: for a message polynomial M and a generator
    G of degree 16, the register ends as M * x^16 modulo G, with its bits reversed. */
module CrcRemainder {
  import opened BitString
  import opened Word16
  import opened Crc16
  import opened Gf2

  /** A register read as a polynomial of degree below 16: bit 15 is the constant term. */
  function RegisterPoly(c: Word): (r: Poly)
    ensures |r| == 16
  {
    seq(16, i requires 0 <= i < 16 => Bit(c, 15 - i))
  }

  /** The generator whose reflected low coefficients are `p`. */
  function Generator(p: Word): (g: Poly)
    ensures |g| == 17 && Monic(g)
  {
    RegisterPoly(p) + [true]
  }

  /** The first bit sent is the leading coefficient. */
  function MessagePoly(data: seq<Byte>): (m: Poly)
    ensures |m| == 8 * |data|
  {
    Reversed(DataBits(data))
  }

  /** The message polynomial times x^16. */
  function Dividend(data: seq<Byte>): Poly {
    Zeros(16) + MessagePoly(data)
  }

  lemma ReflectedBits(p: Word, i: nat)
    requires IsGenerator(p) && i < 16
    ensures Bit(p, i) == if p == IBM then i in {0, 13, 15} else i in {3, 10, 15}
  {
    assert Drop(p, 1) == Half(p);
    assert Drop(p, 2) == Half(Drop(p, 1));
    assert Drop(p, 3) == Half(Drop(p, 2));
    assert Drop(p, 4) == Half(Drop(p, 3));
    assert Drop(p, 5) == Half(Drop(p, 4));
    assert Drop(p, 6) == Half(Drop(p, 5));
    assert Drop(p, 7) == Half(Drop(p, 6));
    assert Drop(p, 8) == Half(Drop(p, 7));
    assert Drop(p, 9) == Half(Drop(p, 8));
    assert Drop(p, 10) == Half(Drop(p, 9));
    assert Drop(p, 11) == Half(Drop(p, 10));
    assert Drop(p, 12) == Half(Drop(p, 11));
    assert Drop(p, 13) == Half(Drop(p, 12));
    assert Drop(p, 14) == Half(Drop(p, 13));
    assert Drop(p, 15) == Half(Drop(p, 14));
  }

  /** The two constants are x^16 + x^15 + x^2 + 1 and x^16 + x^12 + x^5 + 1. */
  lemma GeneratorTerms(p: Word, k: nat)
    requires IsGenerator(p)
    ensures Coef(Generator(p), k) <==> if p == IBM then k in {0, 2, 15, 16} else k in {0, 5, 12, 16}
  {
    if k < 16 {
      ReflectedBits(p, 15 - k);
    }
  }

  lemma LowMaskBit(b: bool, j: nat)
    ensures !Bit(Mask(b, 1), j + 1)
  {
    DropHalf(Mask(b, 1), j);
    assert Half(Mask(b, 1)) == 0;
    DropOfZero(j);
  }

  lemma FeedBit(p: Word, c: Word, b: bool, j: nat)
    ensures Bit(Feed(p, c, b), j) == (Bit(c, j + 1) != ((Odd(c) != b) && Bit(p, j)))
  {
    var m := Mask(b, 1);
    OddXor(c, m);
    StepBit(p, Xor(c, m), j);
    XorBit(c, m, j + 1);
    LowMaskBit(b, j);
  }

  lemma RegisterTop(c: Word, n: nat)
    requires n == 15
    ensures RegisterPoly(c)[n] == Odd(c)
  {
    assert Drop(c, 15 - n) == c;
  }

  /** Feeding one bit moves every coefficient up by one and reduces by the generator. */
  lemma RegisterStep(p: Word, c: Word, b: bool, i: nat)
    requires i < 16
    ensures RegisterPoly(Feed(p, c, b))[i]
         == (Coef(RegisterPoly(c), i - 1) != ((Odd(c) != b) && Generator(p)[i]))
  {
    var fed := Feed(p, c, b);
    FeedBit(p, c, b, 15 - i);
    assert RegisterPoly(fed)[i] == Bit(fed, 15 - i);
    if i == 0 {
      BitBeyond(c, 16 - i);
    } else {
      assert RegisterPoly(c)[i - 1] == Bit(c, 16 - i);
    }
  }

  lemma RegisterDivisionStep(p: Word, c: Word, m: Poly, q: Poly, b: bool)
    requires IsDivision(Zeros(16) + m, Generator(p), q, RegisterPoly(c))
    ensures IsDivision(Zeros(16) + ([b] + m), Generator(p), [Odd(c) != b] + q, RegisterPoly(Feed(p, c, b)))
  {
    var r, r' := RegisterPoly(c), RegisterPoly(Feed(p, c, b));
    RegisterTop(c, 15);
    forall i | 0 <= i < 16
      ensures r'[i] == (Coef(r, i - 1) != ((r[15] != b) && Generator(p)[i]))
    {
      RegisterStep(p, c, b, i);
    }
    DivisionStep(m, Generator(p), q, r, b, r');
  }

  /** The quotient of the division the register performs. */
  ghost function Quotient(p: Word, bits: seq<bool>): (q: Poly)
    ensures |q| == |bits|
  {
    if bits == [] then []
    else
      var n := |bits| - 1;
      [Odd(Run(p, 0, bits[..n])) != bits[n]] + Quotient(p, bits[..n])
  }

  lemma {:induction false} RunDivides(p: Word, bits: seq<bool>)
    ensures IsDivision(Zeros(16) + Reversed(bits), Generator(p), Quotient(p, bits), RegisterPoly(Run(p, 0, bits)))
  {
    if bits == [] {
      forall i | 0 <= i < 16 ensures !RegisterPoly(0)[i] {
        DropOfZero(15 - i);
      }
    } else {
      var n := |bits| - 1;
      RunDivides(p, bits[..n]);
      RegisterDivisionStep(p, Run(p, 0, bits[..n]), Reversed(bits[..n]), Quotient(p, bits[..n]), bits[n]);
      assert Reversed(bits) == [bits[n]] + Reversed(bits[..n]);
    }
  }

  /** The checksum is the remainder of M * x^16 by the generator, and no other
      polynomial of degree below 16 is. */
  lemma CrcIsRemainder(p: Word, data: seq<Byte>)
    ensures exists q :: IsDivision(Dividend(data), Generator(p), q, RegisterPoly(Crc(p, data)))
    ensures forall q, r :: IsDivision(Dividend(data), Generator(p), q, r) ==> r == RegisterPoly(Crc(p, data))
  {
    var bits := DataBits(data);
    var quotient, remainder := Quotient(p, bits), RegisterPoly(Crc(p, data));
    RunDivides(p, bits);
    assert IsDivision(Dividend(data), Generator(p), quotient, remainder);
    forall q, r | IsDivision(Dividend(data), Generator(p), q, r) ensures r == remainder {
      DivisionUnique(Dividend(data), Generator(p), q, r, quotient, remainder);
    }
  }
}
