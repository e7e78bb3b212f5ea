/** What the two checksums detect: every burst confined to sixteen bits, and up to 4093
    bytes every change of at most three bits in a message and its checksum together,
    which is exactly as far as that guarantee reaches. */
module CrcDistance {
  import opened BitString
  import opened Word16
  import opened Crc16
  import opened CrcOrder
  import opened CrcRemainder
  import opened CrcDetection

  /** The longest message, in bytes, on which message and checksum have minimum distance 4. */
  const MAX_GUARDED: nat := 4093

  lemma {:induction false} RunZeros(p: Word, c: Word, n: nat)
    ensures Run(p, c, Zeros(n)) == Shift(p, c, n)
  {
    if n > 0 {
      RunZeros(p, c, n - 1);
      assert Zeros(n)[..n - 1] == Zeros(n - 1);
      XorZero(Shift(p, c, n - 1));
    }
  }

  lemma RunSnoc(p: Word, c: Word, x: seq<bool>, b: bool)
    ensures Run(p, c, x + [b]) == Feed(p, Run(p, c, x), b)
  {
    assert (x + [b])[..|x|] == x;
  }

  // ----- Bursts -----

  lemma {:induction false} DropAdds(w: Word, m: nat, n: nat)
    ensures Drop(Drop(w, m), n) == Drop(w, m + n)
  {
    if n > 0 {
      DropAdds(w, m, n - 1);
    }
  }

  lemma TopBit(p: Word, d: Word, n: nat)
    requires IsGenerator(p) && n <= 15 && Drop(d, n) == 0
    ensures !Bit(d, 15) && Bit(p, 15)
  {
    ReflectedBits(p, 15);
    DropAdds(d, n, 15 - n);
    DropOfZero(15 - n);
  }

  lemma FeedWithoutReduction(p: Word, c: Word, b: bool)
    requires Odd(c) == b
    ensures Feed(p, c, b) == Half(c)
  {
    var m := Mask(b, 1);
    OddXor(c, m);
    HalfXor(c, m);
    assert Odd(m) == b && Half(m) == 0;
    XorZero(Half(c));
  }

  lemma TopDecides(p: Word, c: Word, b: bool, top: nat)
    requires top == 15 && Bit(p, top) && !Bit(Feed(p, c, b), top)
    ensures Odd(c) == b
  {
    FeedBit(p, c, b, top);
    BitBeyond(c, top + 1);
  }

  lemma FeedIsHalf(p: Word, c: Word, b: bool, n: nat)
    requires IsGenerator(p) && n <= 15 && Drop(Feed(p, c, b), n) == 0
    ensures Odd(c) == b && Feed(p, c, b) == Half(c)
  {
    TopBit(p, Feed(p, c, b), n);
    TopDecides(p, c, b, 15);
    FeedWithoutReduction(p, c, b);
  }

  lemma PrependBit(c: Word, b: bool, d: Word, y: seq<bool>)
    requires Odd(c) == b && d == Half(c) && Drop(d, |y|) == 0
    requires forall i :: 0 <= i < |y| ==> Bit(d, i) == y[i]
    ensures Drop(c, |y| + 1) == 0
    ensures forall i :: 0 <= i < |y| + 1 ==> Bit(c, i) == ([b] + y)[i]
  {
    DropHalf(c, |y|);
    assert Drop(c, 0) == c;
    forall i | 1 <= i < |y| + 1 ensures Bit(c, i) == ([b] + y)[i] {
      HalfBit(c, i - 1);
      assert Bit(d, i - 1) == y[i - 1];
    }
  }

  /** If at most sixteen input bits bring the register to zero, it held exactly those bits. */
  lemma {:induction false} FedToZero(p: Word, c: Word, y: seq<bool>)
    requires IsGenerator(p) && |y| <= 16 && Run(p, c, y) == 0
    ensures Drop(c, |y|) == 0
    ensures forall i :: 0 <= i < |y| ==> Bit(c, i) == y[i]
    decreases |y|
  {
    if y != [] {
      var d, tail := Run(p, c, [y[0]]), y[1..];
      assert y == [y[0]] + tail;
      RunConcat(p, c, [y[0]], tail);
      FedToZero(p, d, tail);
      RunSnoc(p, c, [], y[0]);
      FeedIsHalf(p, c, y[0], |tail|);
      PrependBit(c, y[0], d, tail);
    }
  }

  lemma ShortBurst(p: Word, y: seq<bool>)
    requires IsGenerator(p) && |y| <= 16 && Run(p, 0, y) == 0
    ensures y == Zeros(|y|)
  {
    FedToZero(p, 0, y);
    forall i | 0 <= i < |y| ensures !y[i] {
      DropOfZero(i);
    }
  }

  lemma BurstRun(p: Word, i: nat, y: seq<bool>, k: nat)
    requires IsGenerator(p) && |y| <= 16 && y != Zeros(|y|)
    ensures Run(p, 0, Zeros(i) + y + Zeros(k)) != 0
  {
    RunConcat(p, 0, Zeros(i) + y, Zeros(k));
    RunConcat(p, 0, Zeros(i), y);
    RunZeros(p, 0, i);
    ShiftOfZero(p, i);
    RunZeros(p, Run(p, 0, y), k);
    ShiftZero(p, Run(p, 0, y), k);
    if Run(p, 0, y) == 0 {
      ShortBurst(p, y);
    }
  }

  lemma BurstAnywhere(p: Word, e: seq<bool>, i: nat)
    requires IsGenerator(p) && Weight(e) > 0
    requires forall k :: 0 <= k < |e| && e[k] ==> i <= k < i + 16
    ensures Run(p, 0, e) != 0
  {
    var k := LastSetBit(e);
    var top := if i + 16 < |e| then i + 16 else |e|;
    var y := e[i..top];
    assert e == Zeros(i) + y + Zeros(|e| - top);
    assert y[k - i] && !Zeros(|y|)[k - i];
    BurstRun(p, i, y, |e| - top);
  }

  /** Messages of any length that differ only within sixteen consecutive bits have
      different checksums. */
  lemma {:induction false} BurstDetected(p: Word, a: seq<Byte>, b: seq<Byte>, i: nat)
    requires IsGenerator(p) && |a| == |b| && a != b
    requires forall k :: 0 <= k < 8 * |a| && DataBits(a)[k] != DataBits(b)[k] ==> i <= k < i + 16
    ensures Crc(p, a) != Crc(p, b)
  {
    DistanceZero(a, b);
    BurstAnywhere(p, XorBits(DataBits(a), DataBits(b)), i);
    CrcOfDifference(p, a, b);
    XorZeroEqual(Crc(p, a), Crc(p, b));
  }

  // ----- Powers of x inside the register -----

  /** The register that stands for x^15: the one that receives an input bit. */
  lemma InputIsPower(p: Word, n: nat)
    requires n == 15
    ensures Shift(p, UNIT, n) == 1
  {
    forall i | 0 <= i < n ensures !Bit(UNIT, i) {
      UnitBit(i);
    }
    ShiftIsDrop(p, UNIT, n);
    UnitDrops(n);
  }

  lemma InputShifts(p: Word, k: nat)
    ensures Shift(p, 1, k) == Shift(p, UNIT, k + 15)
  {
    InputIsPower(p, 15);
    ShiftAdds(p, UNIT, 15, k);
  }

  /** A set bit followed by `k` clear ones leaves x^(k+16), plus what came before. */
  lemma LastBitRun(p: Word, e0: seq<bool>, k: nat)
    ensures Run(p, 0, e0 + [true] + Zeros(k)) == Shift(p, Xor(Run(p, 0, e0), 1), k + 1)
  {
    var c := Run(p, 0, e0);
    RunConcat(p, 0, e0 + [true], Zeros(k));
    RunSnoc(p, 0, e0, true);
    RunZeros(p, Feed(p, c, true), k);
    assert Shift(p, Xor(c, 1), 1) == Step(p, Shift(p, Xor(c, 1), 0));
    ShiftAdds(p, Xor(c, 1), 1, k);
  }

  lemma OneBitRun(p: Word, e: seq<bool>) returns (k: nat)
    requires Weight(e) == 1
    ensures k < |e| && Run(p, 0, e) == Shift(p, UNIT, k + 16)
  {
    var i := LastSetBit(e);
    k := |e| - i - 1;
    WeightZero(e[..i]);
    RunZeros(p, 0, i);
    ShiftOfZero(p, i);
    LastBitRun(p, e[..i], k);
    XorZero(1);
    InputShifts(p, k + 1);
  }

  lemma UnitDropBit(n: nat, i: nat)
    requires n <= 15 && i < 16
    ensures Bit(Drop(UNIT, n), i) == (n + i == 15)
  {
    DropAdds(UNIT, n, i);
    if n + i < 16 {
      UnitBit(n + i);
    } else {
      DropAll(UNIT);
      DropAdds(UNIT, 16, n + i - 16);
      DropOfZero(n + i - 16);
    }
  }

  /** A register with one set bit is a power of x of degree at most 15. */
  lemma OneBitWord(p: Word, c: Word) returns (n: nat)
    requires WordWeight(c) == 1
    ensures n <= 15 && c == Shift(p, UNIT, n)
  {
    var bits := WordBits(c, 16);
    var j := LastSetBit(bits);
    n := 15 - j;
    WeightZero(bits[..j]);
    var x := Drop(UNIT, n);
    forall i | 0 <= i < 16 ensures WordBits(x, 16)[i] == bits[i] {
      UnitDropBit(n, i);
      assert bits[i] == (bits[..j] + [true] + Zeros(n))[i];
    }
    BitsDetermine(x, c);
    forall i | 0 <= i < n ensures !Bit(UNIT, i) {
      UnitBit(i);
    }
    ShiftIsDrop(p, UNIT, n);
  }

  lemma NoEarlyReturn(p: Word, d: nat)
    requires IsGenerator(p) && 0 < d < PERIOD
    ensures Shift(p, UNIT, d) != UNIT
  {
    OrderOfX(p, d);
  }

  lemma CancelPower(p: Word, d: nat, m: nat)
    requires IsGenerator(p) && Shift(p, UNIT, d + m) == Shift(p, UNIT, m)
    ensures Shift(p, UNIT, d) == UNIT
  {
    ShiftAdds(p, UNIT, d, m);
    ShiftInjective(p, Shift(p, UNIT, d), UNIT, m);
  }

  /** Powers of x whose exponents differ by less than the period differ. */
  lemma PowersDiffer(p: Word, m: nat, d: nat)
    requires IsGenerator(p) && 0 < d < PERIOD
    ensures Shift(p, UNIT, d + m) != Shift(p, UNIT, m)
  {
    NoEarlyReturn(p, d);
    if Shift(p, UNIT, d + m) == Shift(p, UNIT, m) {
      CancelPower(p, d, m);
    }
  }

  // ----- Minimum distance -----

  lemma OneBitSeen(p: Word, e: seq<bool>)
    requires IsGenerator(p) && Weight(e) == 1 && |e| <= PERIOD - 16
    ensures WordWeight(Run(p, 0, e)) != 1
  {
    if WordWeight(Run(p, 0, e)) == 1 {
      var k := OneBitRun(p, e);
      var n := OneBitWord(p, Run(p, 0, e));
      PowersDiffer(p, n, k + 16 - n);
    }
  }

  lemma TwoBitsSeen(p: Word, e: seq<bool>)
    requires IsGenerator(p) && Weight(e) == 2 && |e| <= PERIOD
    ensures Run(p, 0, e) != 0
  {
    var i := LastSetBit(e);
    var k := OneBitRun(p, e[..i]);
    LastBitRun(p, e[..i], |e| - i - 1);
    InputIsPower(p, 15);
    PowersDiffer(p, 15, k + 1);
    XorZeroEqual(Run(p, 0, e[..i]), 1);
    ShiftZero(p, Xor(Run(p, 0, e[..i]), 1), |e| - i);
  }

  lemma ZeroWeightWord(c: Word)
    ensures WordWeight(c) == 0 <==> c == 0
  {
    WeightZero(WordBits(c, 16));
    forall i | 0 <= i < 16 ensures !WordBits(0, 16)[i] {
      DropOfZero(i);
    }
    assert WordBits(0, 16) == Zeros(16);
    if WordBits(c, 16) == Zeros(16) {
      BitsDetermine(c, 0);
    }
  }

  lemma ErrorSeen(p: Word, e: seq<bool>)
    requires IsGenerator(p) && Weight(e) > 0 && |e| <= PERIOD - 16
    ensures Weight(e) + WordWeight(Run(p, 0, e)) >= 4
  {
    RunParity(p, e);
    ZeroWeightWord(Run(p, 0, e));
    if Weight(e) == 1 {
      OneBitSeen(p, e);
    } else if Weight(e) == 2 {
      TwoBitsSeen(p, e);
    }
  }

  /** Distinct messages of one length, at most 4093 bytes, differ together with their
      checksums in at least four bits. */
  lemma MinimumDistance(p: Word, a: seq<Byte>, b: seq<Byte>)
    requires IsGenerator(p) && |a| == |b| <= MAX_GUARDED && a != b
    ensures DataDistance(a, b) + WordDistance(Crc(p, a), Crc(p, b)) >= 4
  {
    DistanceZero(a, b);
    ErrorSeen(p, XorBits(DataBits(a), DataBits(b)));
    CrcOfDifference(p, a, b);
    WordDistanceIsWeight(Crc(p, a), Crc(p, b));
  }

  lemma {:induction false} ZeroDataBits(n: nat)
    ensures DataBits(ZeroBytes(n)) == Zeros(8 * n)
  {
    if n > 0 {
      ZeroDataBits(n - 1);
      assert ZeroBytes(n)[..n - 1] == ZeroBytes(n - 1);
      forall i | 0 <= i < 8 ensures !ByteBits(0)[i] {
        DropOfZero(i);
      }
    }
  }

  lemma OneByteBits(n: nat)
    requires n == 8
    ensures WordBits(1, n) == [true] + Zeros(n - 1)
  {
    assert Mask(true, 1) == 1;
    assert Drop(1, 0) == 1;
    forall i | 1 <= i < n ensures !Bit(1, i) {
      LowMaskBit(true, i - 1);
    }
  }

  /** One set bit followed by 32751 clear ones. */
  lemma DistantBit(p: Word, n: nat) returns (b: seq<Byte>)
    requires n > MAX_GUARDED
    ensures |b| == n
    ensures DataBits(b) == Zeros(8 * (n - MAX_GUARDED - 1)) + [true] + Zeros(PERIOD - 16)
  {
    var before, after := n - MAX_GUARDED - 1, MAX_GUARDED;
    b := ZeroBytes(before) + [1] + ZeroBytes(after);
    DataBitsConcat(ZeroBytes(before) + [1], ZeroBytes(after));
    DataBitsConcat(ZeroBytes(before), [1]);
    ZeroDataBits(before);
    ZeroDataBits(after);
    OneByteBits(8);
    assert DataBits([1]) == [] + ByteBits(1);
    assert Zeros(7) + Zeros(8 * after) == Zeros(PERIOD - 16);
  }

  lemma XorWithZeros(e: seq<bool>)
    ensures XorBits(Zeros(|e|), e) == e
  {
  }

  lemma UnitWeight()
    ensures WordWeight(UNIT) == 1
  {
    var bits := WordBits(UNIT, 16);
    forall i | 0 <= i < 16 ensures bits[i] == (Zeros(15) + [true])[i] {
      UnitBit(i);
    }
    assert bits == Zeros(15) + [true];
    WeightZero(Zeros(15));
    assert (Zeros(15) + [true])[..15] == Zeros(15);
  }

  /** Distances from the all-zero message are weights. */
  lemma DistanceFromZeros(p: Word, b: seq<Byte>)
    ensures DataDistance(ZeroBytes(|b|), b) == Weight(DataBits(b))
    ensures WordDistance(Crc(p, ZeroBytes(|b|)), Crc(p, b)) == WordWeight(Crc(p, b))
  {
    var a := ZeroBytes(|b|);
    ZeroDataBits(|b|);
    XorWithZeros(DataBits(b));
    CrcOfDifference(p, a, b);
    WordDistanceIsWeight(Crc(p, a), Crc(p, b));
  }

  lemma OneBitWeight(m: nat, n: nat)
    ensures Weight(Zeros(m) + [true] + Zeros(n)) == 1
  {
    WeightZero(Zeros(m));
    WeightZero(Zeros(n));
    WeightConcat(Zeros(m) + [true], Zeros(n));
    WeightConcat(Zeros(m), [true]);
    assert Weight([true]) == 1;
  }

  /** Beyond 4093 bytes two messages can differ in one bit and their checksums in one more. */
  lemma CloseMessages(p: Word, n: nat) returns (a: seq<Byte>, b: seq<Byte>)
    requires IsGenerator(p) && n > MAX_GUARDED
    ensures |a| == |b| == n && a != b
    ensures DataDistance(a, b) + WordDistance(Crc(p, a), Crc(p, b)) == 2
  {
    a := ZeroBytes(n);
    b := DistantBit(p, n);
    DistanceFromZeros(p, b);
    OneBitWeight(8 * (n - MAX_GUARDED - 1), PERIOD - 16);
    DistanceZero(a, b);
    DistantBitRun(p, Zeros(8 * (n - MAX_GUARDED - 1)));
    UnitWeight();
  }

  lemma DistantBitRun(p: Word, before: seq<bool>)
    requires IsGenerator(p) && before == Zeros(|before|)
    ensures Run(p, 0, before + [true] + Zeros(PERIOD - 16)) == UNIT
  {
    RunZeros(p, 0, |before|);
    ShiftOfZero(p, |before|);
    LastBitRun(p, before, PERIOD - 16);
    XorZero(1);
    InputShifts(p, PERIOD - 15);
    OrderOfX(p, PERIOD);
  }

  /** Message and checksum have minimum distance 4 at exactly the lengths up to 4093 bytes. */
  lemma DistanceFourExactly(p: Word, n: nat)
    requires IsGenerator(p)
    ensures (forall a: seq<Byte>, b: seq<Byte> :: |a| == n && |b| == n && a != b ==>
               DataDistance(a, b) + WordDistance(Crc(p, a), Crc(p, b)) >= 4)
            <==> n <= MAX_GUARDED
  {
    if n <= MAX_GUARDED {
      forall a: seq<Byte>, b: seq<Byte> | |a| == n && |b| == n && a != b
        ensures DataDistance(a, b) + WordDistance(Crc(p, a), Crc(p, b)) >= 4
      {
        MinimumDistance(p, a, b);
      }
    } else {
      var a, b := CloseMessages(p, n);
    }
  }

  lemma TopByteBits(n: nat)
    requires n == 8
    ensures WordBits(0x80, n) == Zeros(n - 1) + [true]
  {
    assert Drop(0x80, 1) == 0x40;
    assert Drop(0x80, 2) == 0x20;
    assert Drop(0x80, 3) == 0x10;
    assert Drop(0x80, 4) == 0x08;
    assert Drop(0x80, 5) == 0x04;
    assert Drop(0x80, 6) == 0x02;
    assert Drop(0x80, 7) == 0x01;
    assert Drop(0x80, 0) == 0x80;
    forall i | 0 <= i < n ensures Bit(0x80, i) == (i == n - 1) {
    }
  }

  /** The message whose only set bit is the last one sent. */
  lemma LastBit(n: nat) returns (b: seq<Byte>)
    requires n > 0
    ensures |b| == n && DataBits(b) == Zeros(8 * n - 1) + [true] + Zeros(0)
  {
    b := ZeroBytes(n - 1) + [0x80];
    ZeroDataBits(n - 1);
    DataBitsConcat(ZeroBytes(n - 1), [0x80]);
    assert [0x80 as Byte][..0] == [];
    assert DataBits([0x80]) == [] + ByteBits(0x80);
    TopByteBits(8);
  }

  /** Distance 4 is attained at every length: the last bit alone changes three checksum bits. */
  lemma DistanceFourAttained(p: Word, n: nat) returns (a: seq<Byte>, b: seq<Byte>)
    requires IsGenerator(p) && n > 0
    ensures |a| == |b| == n && a != b
    ensures DataDistance(a, b) + WordDistance(Crc(p, a), Crc(p, b)) == 4
  {
    a := ZeroBytes(n);
    b := LastBit(n);
    LastBitDistances(p, n, b);
    DistanceZero(a, b);
  }

  lemma LastBitDistances(p: Word, n: nat, b: seq<Byte>)
    requires IsGenerator(p) && n > 0 && |b| == n && DataBits(b) == Zeros(8 * n - 1) + [true] + Zeros(0)
    ensures DataDistance(ZeroBytes(n), b) == 1 && WordDistance(Crc(p, ZeroBytes(n)), Crc(p, b)) == 3
  {
    DistanceFromZeros(p, b);
    OneBitWeight(8 * n - 1, 0);
    LastBitAlone(p, 8 * n - 1);
    GeneratorWeight(p);
  }

  lemma GeneratorWeight(p: Word)
    requires IsGenerator(p)
    ensures WordWeight(p) == 3
  {
    GeneratorPrefixWeight(p, 16);
  }

  lemma OneShift(p: Word)
    ensures Shift(p, 1, 1) == p
  {
    assert Half(1) == 0 && Odd(1);
    XorZero(p);
    assert Shift(p, 1, 1) == Step(p, Shift(p, 1, 0));
  }

  lemma LastBitAlone(p: Word, n: nat)
    ensures Run(p, 0, Zeros(n) + [true] + Zeros(0)) == p
  {
    RunZeros(p, 0, n);
    ShiftOfZero(p, n);
    LastBitRun(p, Zeros(n), 0);
    XorZero(1);
    OneShift(p);
  }

  /** On guarded lengths no change of one to three bits in a message and its checksum
      leaves them consistent. */
  lemma SmallErrorsDetected(p: Word, a: seq<Byte>, b: seq<Byte>, c: Word)
    requires IsGenerator(p) && |a| == |b| <= MAX_GUARDED
    requires 1 <= DataDistance(a, b) + WordDistance(Crc(p, a), c) <= 3
    ensures c != Crc(p, b)
  {
    if a == b {
      DistanceZero(a, b);
      WordDistanceIsWeight(c, c);
      XorSelf(c);
      ZeroWeightWord(0);
    } else {
      MinimumDistance(p, a, b);
    }
  }
}
