/** Linearity, residue and parity of the two checksums. */
module CrcDetection {
  import opened BitString
  import opened Word16
  import opened Crc16
  import opened CrcOrder
  import opened CrcRemainder

  /** The number of bits in which two registers differ. */
  function WordDistance(a: Word, b: Word): nat {
    Weight(XorBits(WordBits(a, 16), WordBits(b, 16)))
  }

  /** The number of bits in which two messages differ. */
  function DataDistance(a: seq<Byte>, b: seq<Byte>): nat
    requires |a| == |b|
  {
    Weight(XorBits(DataBits(a), DataBits(b)))
  }

  function WordWeight(w: Word): nat {
    Weight(WordBits(w, 16))
  }

  lemma WordDistanceIsWeight(a: Word, b: Word)
    ensures WordDistance(a, b) == WordWeight(Xor(a, b))
  {
    XorWordBits(a, b, 16);
  }

  // ----- Messages and their bits -----

  lemma SameByteBits(x: Byte, y: Byte)
    requires ByteBits(x) == ByteBits(y)
    ensures x == y
  {
    var a, b := x as Word, y as Word;
    forall i | 0 <= i < 8 ensures Bit(a, i) == Bit(b, i) {
      assert ByteBits(x)[i] == ByteBits(y)[i];
    }
    DropByte(x);
    DropByte(y);
    BitsAndDropDetermine(a, b, 8);
  }

  /** A message is determined by its bits. */
  lemma {:induction false} SameDataBits(a: seq<Byte>, b: seq<Byte>)
    requires |a| == |b| && DataBits(a) == DataBits(b)
    ensures a == b
  {
    if a != [] {
      var n := |a| - 1;
      var x, y := DataBits(a[..n]), DataBits(b[..n]);
      assert x == (x + ByteBits(a[n]))[..8 * n] == (y + ByteBits(b[n]))[..8 * n] == y;
      assert ByteBits(a[n]) == (x + ByteBits(a[n]))[8 * n..] == (y + ByteBits(b[n]))[8 * n..] == ByteBits(b[n]);
      SameByteBits(a[n], b[n]);
      SameDataBits(a[..n], b[..n]);
      assert a == a[..n] + [a[n]] && b == b[..n] + [b[n]];
    }
  }

  lemma DistanceZero(a: seq<Byte>, b: seq<Byte>)
    requires |a| == |b|
    ensures DataDistance(a, b) == 0 <==> a == b
  {
    var e := XorBits(DataBits(a), DataBits(b));
    WeightZero(e);
    if e == Zeros(|e|) {
      forall i | 0 <= i < |e| ensures DataBits(a)[i] == DataBits(b)[i] {
        assert e[i] == Zeros(|e|)[i];
      }
      SameDataBits(a, b);
    }
  }

  /** The checksums of two messages differ by the checksum of their difference. */
  lemma CrcOfDifference(p: Word, a: seq<Byte>, b: seq<Byte>)
    requires |a| == |b|
    ensures Run(p, 0, XorBits(DataBits(a), DataBits(b))) == Xor(Crc(p, a), Crc(p, b))
  {
    XorZero(0);
    RunLinear(p, 0, 0, DataBits(a), DataBits(b));
  }

  function XorByte(x: Byte, y: Byte): Byte {
    x ^ y
  }

  function XorBytes(a: seq<Byte>, b: seq<Byte>): (r: seq<Byte>)
    requires |a| == |b|
    ensures |r| == |a|
  {
    seq(|a|, i requires 0 <= i < |a| => XorByte(a[i], b[i]))
  }

  lemma XorByteBits(x: Byte, y: Byte)
    ensures ByteBits(XorByte(x, y)) == XorBits(ByteBits(x), ByteBits(y))
  {
    assert XorByte(x, y) as Word == Xor(x as Word, y as Word);
    XorWordBits(x as Word, y as Word, 8);
  }

  lemma {:induction false} XorDataBits(a: seq<Byte>, b: seq<Byte>)
    requires |a| == |b|
    ensures DataBits(XorBytes(a, b)) == XorBits(DataBits(a), DataBits(b))
  {
    if a != [] {
      var n := |a| - 1;
      XorDataBits(a[..n], b[..n]);
      XorByteBits(a[n], b[n]);
      XorBitsConcat(DataBits(a[..n]), DataBits(b[..n]), ByteBits(a[n]), ByteBits(b[n]));
      var x := XorBytes(a, b);
      assert x[..n] == XorBytes(a[..n], b[..n]);
      assert x[n] == XorByte(a[n], b[n]);
    }
  }

  /** The checksum is linear in the message. */
  lemma CrcLinear(p: Word, a: seq<Byte>, b: seq<Byte>)
    requires |a| == |b|
    ensures Crc(p, XorBytes(a, b)) == Xor(Crc(p, a), Crc(p, b))
  {
    XorDataBits(a, b);
    CrcOfDifference(p, a, b);
  }

  lemma {:induction false} DataBitsConcat(a: seq<Byte>, b: seq<Byte>)
    ensures DataBits(a + b) == DataBits(a) + DataBits(b)
  {
    if b == [] {
      assert a + b == a;
    } else {
      var n := |b| - 1;
      assert (a + b)[..|a + b| - 1] == a + b[..n];
      DataBitsConcat(a, b[..n]);
    }
  }

  /** The checksum of a concatenation continues from the checksum of its first part. */
  lemma CrcConcat(p: Word, a: seq<Byte>, b: seq<Byte>)
    ensures Crc(p, a + b) == Run(p, Crc(p, a), DataBits(b))
  {
    DataBitsConcat(a, b);
    RunConcat(p, 0, DataBits(a), DataBits(b));
  }

  // ----- Residue -----

  function LowByte(c: Word): Byte {
    (c & 0xFF) as Byte
  }

  function HighByte(c: Word): Byte {
    (c >> 8) as Byte
  }

  function Join(lo: Byte, hi: Byte): Word {
    Xor(lo as Word, (hi as Word) << 8)
  }

  lemma JoinSplit(c: Word)
    ensures Join(LowByte(c), HighByte(c)) == c
  {
  }

  lemma SplitJoin(lo: Byte, hi: Byte)
    ensures LowByte(Join(lo, hi)) == lo && HighByte(Join(lo, hi)) == hi
  {
  }

  lemma JoinInverse(c: Word, lo: Byte, hi: Byte)
    ensures c == Join(lo, hi) <==> lo == LowByte(c) && hi == HighByte(c)
  {
    if c == Join(lo, hi) {
      SplitJoin(lo, hi);
    } else {
      JoinSplit(c);
    }
  }

  lemma HighBytes(h: Word)
    requires h < 0x100
    ensures !Odd(h << 8) && Half(h << 8) == h << 7
    ensures !Odd(h << 7) && Half(h << 7) == h << 6
    ensures !Odd(h << 6) && Half(h << 6) == h << 5
    ensures !Odd(h << 5) && Half(h << 5) == h << 4
    ensures !Odd(h << 4) && Half(h << 4) == h << 3
    ensures !Odd(h << 3) && Half(h << 3) == h << 2
    ensures !Odd(h << 2) && Half(h << 2) == h << 1
    ensures !Odd(h << 1) && Half(h << 1) == h
  {
  }

  /** A register whose low `n` bits are clear only moves down in `n` shifts. */
  lemma {:induction false} ShiftIsDrop(p: Word, c: Word, n: nat)
    requires forall i :: 0 <= i < n ==> !Bit(c, i)
    ensures Shift(p, c, n) == Drop(c, n)
  {
    if n > 0 {
      ShiftIsDrop(p, c, n - 1);
      assert !Bit(c, n - 1);
    }
  }

  lemma HighByteBits(hi: Byte, zero: nat, i: nat)
    requires zero == 0 && i < 8
    ensures !Bit((hi as Word) << 8, i)
    ensures Drop((hi as Word) << 8, zero + 8) == hi as Word
  {
    var h := hi as Word;
    HighBytes(h);
    var w := h << 8;
    assert Drop(w, zero + 1) == h << 7;
    assert Drop(w, zero + 2) == h << 6;
    assert Drop(w, zero + 3) == h << 5;
    assert Drop(w, zero + 4) == h << 4;
    assert Drop(w, zero + 5) == h << 3;
    assert Drop(w, zero + 6) == h << 2;
    assert Drop(w, zero + 7) == h << 1;
  }

  lemma ShiftHighByte(p: Word, hi: Byte, zero: nat)
    requires zero == 0
    ensures Shift(p, (hi as Word) << 8, zero + 8) == hi as Word
  {
    var w := (hi as Word) << 8;
    forall i | 0 <= i < zero + 8 ensures !Bit(w, i) {
      HighByteBits(hi, zero, i);
    }
    HighByteBits(hi, zero, 0);
    ShiftIsDrop(p, w, zero + 8);
  }

  lemma CrcAppendTwo(p: Word, data: seq<Byte>, lo: Byte, hi: Byte)
    ensures Crc(p, data + [lo, hi]) == Shift(p, Xor(Crc(p, data), Join(lo, hi)), 16)
  {
    var c, l, h := Crc(p, data), lo as Word, (hi as Word) << 8;
    assert data + [lo, hi] == (data + [lo]) + [hi];
    CrcAppend(p, data, lo);
    CrcAppend(p, data + [lo], hi);
    ShiftHighByte(p, hi, 0);
    ShiftLinear(p, Xor(c, l), h, 8);
    XorAssociates(c, l, h);
    ShiftAdds(p, Xor(c, Join(lo, hi)), 8, 8);
  }

  lemma ShiftZero(p: Word, c: Word, n: nat)
    requires IsGenerator(p)
    ensures Shift(p, c, n) == 0 <==> c == 0
  {
    ShiftOfZero(p, n);
    if Shift(p, c, n) == 0 {
      ShiftKernel(p, c, n);
    }
  }

  /** Appending two bytes brings the register to zero exactly when they are the
      checksum, low byte first. */
  lemma Residue(p: Word, data: seq<Byte>, lo: Byte, hi: Byte)
    requires IsGenerator(p)
    ensures Crc(p, data + [lo, hi]) == 0 <==> lo == LowByte(Crc(p, data)) && hi == HighByte(Crc(p, data))
  {
    var c, w := Crc(p, data), Join(lo, hi);
    CrcAppendTwo(p, data, lo, hi);
    ShiftZero(p, Xor(c, w), 16);
    XorZeroEqual(c, w);
    JoinInverse(c, lo, hi);
  }

  /** The trailer with its bytes swapped verifies to zero; as sent, high byte first, it does
      so only when its two bytes agree. */
  lemma BigEndianResidue(p: Word, data: seq<Byte>)
    requires IsGenerator(p)
    ensures var c := Crc(p, data);
            && Crc(p, data + [LowByte(c), HighByte(c)]) == 0
            && (Crc(p, data + [HighByte(c), LowByte(c)]) == 0 <==> HighByte(c) == LowByte(c))
  {
    Residue(p, data, LowByte(Crc(p, data)), HighByte(Crc(p, data)));
    Residue(p, data, HighByte(Crc(p, data)), LowByte(Crc(p, data)));
  }

  // ----- Parity -----

  lemma {:induction false} WeightXorParity(x: seq<bool>, y: seq<bool>)
    requires |x| == |y|
    ensures (Weight(XorBits(x, y)) + Weight(x) + Weight(y)) % 2 == 0
  {
    if x != [] {
      var n := |x| - 1;
      WeightXorParity(x[..n], y[..n]);
      assert XorBits(x, y)[..n] == XorBits(x[..n], y[..n]);
    }
  }

  lemma XorParity(a: Word, b: Word)
    ensures (WordWeight(Xor(a, b)) + WordWeight(a) + WordWeight(b)) % 2 == 0
  {
    XorWordBits(a, b, 16);
    WeightXorParity(WordBits(a, 16), WordBits(b, 16));
  }

  lemma HalfWeight(c: Word, n: nat)
    requires n == 16
    ensures Weight(WordBits(c, n)) == Weight(WordBits(Half(c), n)) + if Odd(c) then 1 else 0
  {
    var tail := WordBits(Half(c), n - 1);
    assert WordBits(c, n) == [Odd(c)] + tail by {
      forall i | 1 <= i < n ensures Bit(c, i) == Bit(Half(c), i - 1) {
        HalfBit(c, i - 1);
      }
      assert Drop(c, 0) == c;
    }
    assert WordBits(Half(c), n) == tail + [false] by {
      HalfBit(c, n - 1);
      BitBeyond(c, n);
    }
    WeightConcat([Odd(c)], tail);
    WeightConcat(tail, [false]);
  }

  lemma {:induction false} GeneratorPrefixWeight(p: Word, n: nat)
    requires IsGenerator(p) && n <= 16
    ensures Weight(WordBits(p, n)) ==
            (if n > (if p == IBM then 0 else 3) then 1 else 0)
            + (if n > (if p == IBM then 13 else 10) then 1 else 0)
            + (if n > 15 then 1 else 0)
  {
    if n > 0 {
      GeneratorPrefixWeight(p, n - 1);
      ReflectedBits(p, n - 1);
      assert WordBits(p, n)[..n - 1] == WordBits(p, n - 1);
    }
  }

  lemma {:induction false} InputWeight(b: bool, n: nat)
    requires n > 0
    ensures Weight(WordBits(Mask(b, 1), n)) == if b then 1 else 0
  {
    var w := Mask(b, 1);
    assert WordBits(w, n)[..n - 1] == WordBits(w, n - 1);
    if n == 1 {
      assert Drop(w, 0) == w;
    } else {
      LowMaskBit(b, n - 2);
      InputWeight(b, n - 1);
    }
  }

  lemma StepParity(p: Word, c: Word)
    requires IsGenerator(p)
    ensures (WordWeight(Step(p, c)) + WordWeight(c)) % 2 == 0
  {
    HalfWeight(c, 16);
    GeneratorPrefixWeight(p, 16);
    XorParity(Half(c), p);
  }

  lemma FeedParity(p: Word, c: Word, b: bool)
    requires IsGenerator(p)
    ensures (WordWeight(Feed(p, c, b)) + WordWeight(c) + if b then 1 else 0) % 2 == 0
  {
    var m := Mask(b, 1);
    InputWeight(b, 16);
    XorParity(c, m);
    StepParity(p, Xor(c, m));
  }

  lemma {:induction false} RunParity(p: Word, bits: seq<bool>)
    requires IsGenerator(p)
    ensures (WordWeight(Run(p, 0, bits)) + Weight(bits)) % 2 == 0
  {
    if bits == [] {
      assert Mask(false, 1) == 0;
      InputWeight(false, 16);
    } else {
      var n := |bits| - 1;
      RunParity(p, bits[..n]);
      FeedParity(p, Run(p, 0, bits[..n]), bits[n]);
    }
  }

  /** The checksum has as many set bits as the message, modulo two. */
  lemma CrcParity(p: Word, data: seq<Byte>)
    requires IsGenerator(p)
    ensures WordWeight(Crc(p, data)) % 2 == Weight(DataBits(data)) % 2
  {
    RunParity(p, DataBits(data));
  }

  /** Every change of an odd number of message bits changes the checksum. */
  lemma OddErrorsDetected(p: Word, a: seq<Byte>, b: seq<Byte>)
    requires IsGenerator(p) && |a| == |b| && DataDistance(a, b) % 2 == 1
    ensures Crc(p, a) != Crc(p, b)
  {
    WeightXorParity(DataBits(a), DataBits(b));
    CrcParity(p, a);
    CrcParity(p, b);
  }
}
