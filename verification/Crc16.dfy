/** The two bit-serial checksums of the device protocols.  Both shift a sixteen-bit
    register right one bit at a time from a zero seed, and neither inverts the result. */
module Crc16 {
  import opened BitString
  import opened Word16

  // x^16 + x^15 + x^2 + 1, reflected (Teltonika)
  const IBM: Word := 0xA001
  // x^16 + x^12 + x^5 + 1, reflected (Ruptela)
  const KERMIT: Word := 0x8408

  predicate IsGenerator(p: Word) {
    p == IBM || p == KERMIT
  }

  /** One shift of the register with no input. */
  function Step(p: Word, c: Word): Word {
    if Odd(c) then Xor(Half(c), p) else Half(c)
  }

  /** `n` shifts of the register with no input. */
  function Shift(p: Word, c: Word, n: nat): Word {
    if n == 0 then c else Step(p, Shift(p, c, n - 1))
  }

  /** One shift of the register after adding one input bit at its low end. */
  function Feed(p: Word, c: Word, bit: bool): Word {
    Step(p, Xor(c, Mask(bit, 1)))
  }

  /** The register after a string of input bits: the serial specification of the checksum. */
  function Run(p: Word, c: Word, bits: seq<bool>): Word {
    if bits == [] then c else Feed(p, Run(p, c, bits[..|bits| - 1]), bits[|bits| - 1])
  }

  function ByteBits(b: Byte): (bits: seq<bool>)
    ensures |bits| == 8
  {
    WordBits(b as Word, 8)
  }

  /** The bits of a message in transmission order: byte by byte, least significant bit first. */
  function DataBits(data: seq<Byte>): (bits: seq<bool>)
    ensures |bits| == 8 * |data|
  {
    if data == [] then [] else DataBits(data[..|data| - 1]) + ByteBits(data[|data| - 1])
  }

  function Crc(p: Word, data: seq<Byte>): Word {
    Run(p, 0, DataBits(data))
  }

  // ----- The register is a linear machine -----

  lemma StepIsMasked(p: Word, c: Word)
    ensures Step(p, c) == Xor(Half(c), Mask(Odd(c), p))
  {
    XorZero(Half(c));
  }

  lemma StepBit(p: Word, x: Word, j: nat)
    ensures Bit(Step(p, x), j) == (Bit(x, j + 1) != (Odd(x) && Bit(p, j)))
  {
    StepIsMasked(p, x);
    XorBit(Half(x), Mask(Odd(x), p), j);
    HalfBit(x, j);
    MaskBit(Odd(x), p, j);
  }

  lemma StepLinear(p: Word, a: Word, b: Word)
    ensures Step(p, Xor(a, b)) == Xor(Step(p, a), Step(p, b))
  {
    StepIsMasked(p, a);
    StepIsMasked(p, b);
    StepIsMasked(p, Xor(a, b));
    OddXor(a, b);
    HalfXor(a, b);
    MaskXor(Odd(a), Odd(b), p);
    XorFour(Half(a), Mask(Odd(a), p), Half(b), Mask(Odd(b), p));
  }

  lemma FeedLinear(p: Word, a: Word, b: Word, s: bool, t: bool)
    ensures Feed(p, Xor(a, b), s != t) == Xor(Feed(p, a, s), Feed(p, b, t))
  {
    MaskXor(s, t, 1);
    XorFour(a, b, Mask(s, 1), Mask(t, 1));
    StepLinear(p, Xor(a, Mask(s, 1)), Xor(b, Mask(t, 1)));
  }

  lemma {:induction false} ShiftLinear(p: Word, a: Word, b: Word, n: nat)
    ensures Shift(p, Xor(a, b), n) == Xor(Shift(p, a, n), Shift(p, b, n))
  {
    if n > 0 {
      ShiftLinear(p, a, b, n - 1);
      StepLinear(p, Shift(p, a, n - 1), Shift(p, b, n - 1));
    }
  }

  lemma {:induction false} RunLinear(p: Word, a: Word, b: Word, x: seq<bool>, y: seq<bool>)
    requires |x| == |y|
    ensures Run(p, Xor(a, b), XorBits(x, y)) == Xor(Run(p, a, x), Run(p, b, y))
  {
    if x != [] {
      var n := |x| - 1;
      RunLinear(p, a, b, x[..n], y[..n]);
      assert XorBits(x, y)[..n] == XorBits(x[..n], y[..n]);
      FeedLinear(p, Run(p, a, x[..n]), Run(p, b, y[..n]), x[n], y[n]);
    }
  }

  lemma {:induction false} ShiftAdds(p: Word, c: Word, m: nat, n: nat)
    ensures Shift(p, Shift(p, c, m), n) == Shift(p, c, m + n)
  {
    if n > 0 {
      ShiftAdds(p, c, m, n - 1);
    }
  }

  lemma {:induction false} RunConcat(p: Word, c: Word, x: seq<bool>, y: seq<bool>)
    ensures Run(p, c, x + y) == Run(p, Run(p, c, x), y)
  {
    if y == [] {
      assert x + y == x;
    } else {
      var n := |y| - 1;
      RunConcat(p, c, x, y[..n]);
      assert (x + y)[..|x + y| - 1] == x + y[..n];
    }
  }

  /** Four shifts with no input. */
  function FourSteps(p: Word, c: Word): Word {
    Step(p, Step(p, Step(p, Step(p, c))))
  }

  lemma ShiftFour(p: Word, c: Word, n: nat)
    ensures Shift(p, c, n + 4) == FourSteps(p, Shift(p, c, n))
  {
    assert Shift(p, c, n + 2) == Step(p, Step(p, Shift(p, c, n)));
  }

  // ----- Whole bytes and words of input at once -----

  lemma SplitLowBit(v: Word)
    ensures Xor(Mask(Odd(v), 1), v & 0xFFFE) == v
    ensures !Odd(v & 0xFFFE) && Half(v & 0xFFFE) == Half(v)
  {
  }

  /** Adding a word to the register at once and shifting feeds the word's low bit. */
  lemma StepFeedsLowBit(p: Word, c: Word, v: Word)
    ensures Step(p, Xor(c, v)) == Xor(Feed(p, c, Odd(v)), Half(v))
  {
    var m, h := Mask(Odd(v), 1), v & 0xFFFE;
    SplitLowBit(v);
    XorAssociates(c, m, h);
    StepLinear(p, Xor(c, m), h);
  }

  /** After `i` shifts, what is still to be fed of `w` sits in the register. */
  lemma {:induction false} ShiftFeedsBits(p: Word, c: Word, w: Word, i: nat)
    ensures Shift(p, Xor(c, w), i) == Xor(Run(p, c, WordBits(w, i)), Drop(w, i))
  {
    if i > 0 {
      ShiftFeedsBits(p, c, w, i - 1);
      StepFeedsLowBit(p, Run(p, c, WordBits(w, i - 1)), Drop(w, i - 1));
      assert WordBits(w, i)[..i - 1] == WordBits(w, i - 1);
    }
  }

  lemma RunByte(p: Word, c: Word, b: Byte)
    ensures Run(p, c, ByteBits(b)) == Shift(p, Xor(c, b as Word), 8)
  {
    ShiftFeedsBits(p, c, b as Word, 8);
    DropByte(b);
    XorZero(Run(p, c, ByteBits(b)));
  }

  lemma CrcAppend(p: Word, data: seq<Byte>, b: Byte)
    ensures Crc(p, data + [b]) == Shift(p, Xor(Crc(p, data), b as Word), 8)
  {
    assert (data + [b])[..|data|] == data;
    RunConcat(p, 0, DataBits(data), ByteBits(b));
    RunByte(p, Crc(p, data), b);
  }

  lemma StepAsCoded(p: Word, c: Word)
    ensures c & 1 != 0 ==> (c >> 1) ^ p == Step(p, c)
    ensures c & 1 == 0 ==> c >> 1 == Step(p, c)
  {
  }

  // ----- The two loops -----

  method Crc16Ibm(data: seq<Byte>) returns (crc: Word)
    ensures crc == Crc(IBM, data)
  {
    crc := 0;
    for k := 0 to |data|
      invariant crc == Crc(IBM, data[..k])
    {
      crc := crc ^ (data[k] as Word);
      ghost var start := Xor(Crc(IBM, data[..k]), data[k] as Word);
      for i := 0 to 8
        invariant crc == Shift(IBM, start, i)
      {
        StepAsCoded(IBM, crc);
        if crc & 1 != 0 {
          crc := (crc >> 1) ^ 0xA001;
        } else {
          crc := crc >> 1;
        }
      }
      CrcAppend(IBM, data[..k], data[k]);
      assert data[..k + 1] == data[..k] + [data[k]];
    }
    assert data[..|data|] == data;
  }

  method Crc16Kermit(data: seq<Byte>) returns (crc: Word)
    ensures crc == Crc(KERMIT, data)
  {
    var poly := KERMIT;
    crc := 0;
    for k := 0 to |data|
      invariant crc == Crc(poly, data[..k])
    {
      crc := crc ^ (data[k] as Word);
      ghost var start := Xor(Crc(poly, data[..k]), data[k] as Word);
      for i := 0 to 8
        invariant crc == Shift(poly, start, i)
      {
        StepAsCoded(poly, crc);
        if crc & 1 != 0 {
          crc := (crc >> 1) ^ poly;
        } else {
          crc := crc >> 1;
        }
      }
      CrcAppend(poly, data[..k], data[k]);
      assert data[..k + 1] == data[..k] + [data[k]];
    }
    assert data[..|data|] == data;
  }
}
