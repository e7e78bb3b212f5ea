/** Damaged frames: what the receiver is guaranteed to reject. */
module FrameErrors {
  import opened BitString
  import opened Word16
  import opened Crc16
  import opened CrcOrder
  import opened CrcDetection
  import opened CrcDistance
  import opened Wire
  import opened Framing

  // ----- The checksum field as bytes -----

  lemma WordSplits(c: Word)
    ensures c as int == 256 * ((c >> 8) as int) + ((c & 0xFF) as int)
  {
  }

  lemma HighByteValue(c: Word)
    ensures HighByte(c) as int == (c >> 8) as int
  {
  }

  lemma LowByteValue(c: Word)
    ensures LowByte(c) as int == (c & 0xFF) as int
  {
  }

  lemma WordValue(c: Word)
    ensures c as int == 256 * (HighByte(c) as int) + LowByte(c) as int
  {
    WordSplits(c);
    HighByteValue(c);
    LowByteValue(c);
  }

  lemma PutTwo(n: nat, h: Byte, l: Byte)
    requires n == 256 * (h as int) + l as int
    ensures Put(n, 2) == [h, l]
  {
    assert n / 256 == h as int && n % 256 == l as int;
    OneByte(n / 256, h);
    ValueByte(l);
  }

  lemma PutSmall(m: nat, k: nat)
    requires m < 256
    ensures Put(m, k + 1) == Put(0, k) + [ToByte(m)]
  {
    assert m / 256 == 0 && m % 256 == m;
  }

  lemma PutZeros()
    ensures Put(0, 2) == [0, 0]
  {
    OneByte(0, 0);
    PutSmall(0, 1);
    ValueByte(0);
  }

  lemma PutLast(n: nat, k: nat, h: nat, l: Byte)
    requires n == 256 * h + l as int
    ensures Put(n, k + 1) == Put(h, k) + [l]
  {
    assert n / 256 == h && n % 256 == l as int;
    ValueByte(l);
  }

  lemma PutThree(h: Byte, k: nat)
    requires k == 2
    ensures Put(h as int, k + 1) == [0, 0] + [h]
  {
    PutSmall(h as int, k);
    PutZeros();
    ValueByte(h);
  }

  lemma PutFour(n: nat, h: Byte, l: Byte, k: nat)
    requires n == 256 * (h as int) + l as int && k == 3
    ensures Put(n, k + 1) == [0, 0] + [h, l]
  {
    PutLast(n, k, h as int, l);
    PutThree(h, k - 1);
    assert [0, 0] + [h] + [l] == [0, 0] + [h, l];
  }

  lemma LowBits(c: Word, i: nat)
    requires i < 8
    ensures Bit(LowByte(c) as Word, i) == Bit(c, i)
  {
    JoinSplit(c);
    HighByteBits(HighByte(c), 0, i);
    XorBit(LowByte(c) as Word, (HighByte(c) as Word) << 8, i);
  }

  lemma HighIsDrop(c: Word, zero: nat)
    requires zero == 0
    ensures Drop(c, zero + 8) == HighByte(c) as Word
  {
    DropShifts(c, zero);
  }

  /** The register's bits are its low byte's, then its high byte's. */
  lemma WordBitsAreByteBits(c: Word, n: nat)
    requires n == 16
    ensures WordBits(c, n) == ByteBits(LowByte(c)) + ByteBits(HighByte(c))
  {
    HighIsDrop(c, 0);
    forall i | 0 <= i < n
      ensures WordBits(c, n)[i] == (ByteBits(LowByte(c)) + ByteBits(HighByte(c)))[i]
    {
      if i < 8 {
        LowBits(c, i);
      } else {
        DropAdds(c, 8, i - 8);
      }
    }
  }

  // ----- Distances -----

  lemma DistanceConcat(a: seq<Byte>, b: seq<Byte>, x: seq<Byte>, y: seq<Byte>)
    requires |a| == |b| && |x| == |y|
    ensures DataDistance(a + x, b + y) == DataDistance(a, b) + DataDistance(x, y)
  {
    DataBitsConcat(a, x);
    DataBitsConcat(b, y);
    XorBitsConcat(DataBits(a), DataBits(b), DataBits(x), DataBits(y));
    WeightConcat(XorBits(DataBits(a), DataBits(b)), XorBits(DataBits(x), DataBits(y)));
  }

  function ByteDistance(x: Byte, y: Byte): nat {
    Weight(XorBits(ByteBits(x), ByteBits(y)))
  }

  lemma TwoByteDistance(h: Byte, l: Byte, h': Byte, l': Byte)
    ensures DataDistance([h, l], [h', l']) == ByteDistance(h, h') + ByteDistance(l, l')
  {
    assert [h, l] == [h] + [l] && [h', l'] == [h'] + [l'];
    DistanceConcat([h], [h'], [l], [l']);
    OneByteDistance(h, h');
    OneByteDistance(l, l');
  }

  lemma OneByteDistance(x: Byte, y: Byte)
    ensures DataDistance([x], [y]) == ByteDistance(x, y)
  {
    assert [x][..0] == [] && [y][..0] == [];
    assert DataBits([x]) == [] + ByteBits(x) == ByteBits(x);
    assert DataBits([y]) == [] + ByteBits(y) == ByteBits(y);
  }

  lemma WordDistanceByBytes(c: Word, d: Word)
    ensures WordDistance(c, d)
         == ByteDistance(HighByte(c), HighByte(d)) + ByteDistance(LowByte(c), LowByte(d))
  {
    WordBitsAreByteBits(c, 16);
    WordBitsAreByteBits(d, 16);
    var l, h, l', h' := ByteBits(LowByte(c)), ByteBits(HighByte(c)), ByteBits(LowByte(d)), ByteBits(HighByte(d));
    XorBitsConcat(l, l', h, h');
    WeightConcat(XorBits(l, l'), XorBits(h, h'));
  }

  /** Two checksum fields differ in as many bits as the checksums they hold. */
  lemma FieldDistance(c: Word, d: Word, k: nat)
    requires k == 2 || k == 4
    ensures DataDistance(Put(c as int, k), Put(d as int, k)) == WordDistance(c, d)
  {
    WordValue(c);
    WordValue(d);
    WordDistanceByBytes(c, d);
    TwoByteDistance(HighByte(c), LowByte(c), HighByte(d), LowByte(d));
    if k == 2 {
      PutTwo(c as int, HighByte(c), LowByte(c));
      PutTwo(d as int, HighByte(d), LowByte(d));
    } else {
      PutFour(c as int, HighByte(c), LowByte(c), k - 1);
      PutFour(d as int, HighByte(d), LowByte(d), k - 1);
      DistanceConcat([0, 0], [0, 0], [HighByte(c), LowByte(c)], [HighByte(d), LowByte(d)]);
      DistanceZero([0, 0], [0, 0]);
    }
  }

  // ----- Damaged frames -----

  /** A payload and a checksum field that arrive changed in one to three bits do not match. */
  lemma DamagedBodyMismatches(f: Framing, p: seq<Byte>, p': seq<Byte>, field: seq<Byte>)
    requires IsGenerator(f.poly) && (f.checkBytes == 2 || f.checkBytes == 4)
    requires |p| == |p'| <= MAX_GUARDED && |field| == f.checkBytes
    requires 1 <= DataDistance(p, p') + DataDistance(Check(f, p), field) <= 3
    ensures field != Check(f, p')
  {
    if field == Check(f, p') {
      FieldDistance(Crc(f.poly, p), Crc(f.poly, p'), f.checkBytes);
      if p == p' {
        DistanceZero(p, p');
        DistanceZero(field, field);
      } else {
        MinimumDistance(f.poly, p, p');
      }
    }
  }

  /** A frame of at most 4093 payload bytes whose length field arrives intact is rejected
      whenever one to three of its other bits are changed, wherever they are. */
  lemma {:induction false} DamagedFrameRejected(f: Framing, p: seq<Byte>, g: seq<Byte>, rest: seq<Byte>)
    requires IsGenerator(f.poly) && (f.checkBytes == 2 || f.checkBytes == 4)
    requires Fits(f, p) && |p| <= MAX_GUARDED && |g| == |FrameOf(f, p)|
    requires g[f.preamble..f.HeaderBytes()] == Put(|p|, f.lengthBytes)
    requires 1 <= DataDistance(FrameOf(f, p), g) <= 3
    ensures NextFrame(f, g + rest) == Bad
  {
    var z, l, c := ZeroBytes(f.preamble), Put(|p|, f.lengthBytes), Check(f, p);
    var start, end := f.HeaderBytes(), f.HeaderBytes() + |p|;
    var z', p', c' := g[..f.preamble], g[start..end], g[end..];
    Rejoin(g, f.preamble, start);
    Rejoin(g, start, end);
    DistanceConcat(z + l + p, z' + l + p', c, c');
    DistanceConcat(z + l, z' + l, p, p');
    DistanceConcat(z, z', l, l);
    DistanceZero(l, l);
    if z' == z {
      DistanceZero(z, z');
      DamagedBodyMismatches(f, p, p', c');
      BodyRejected(f, |p|, g, rest);
    } else if PreambleSeen(f, g + rest) {
      PreambleIntact(f, g, rest);
    }
  }

  lemma PreambleIntact(f: Framing, g: seq<Byte>, rest: seq<Byte>)
    requires |g| >= f.preamble && PreambleSeen(f, g + rest)
    ensures g[..f.preamble] == ZeroBytes(f.preamble)
  {
    forall i | 0 <= i < f.preamble ensures g[i] == 0 {
      assert (g + rest)[i] == g[i];
    }
  }

  lemma BodyRejected(f: Framing, n: nat, g: seq<Byte>, rest: seq<Byte>)
    requires |g| == f.HeaderBytes() + n + f.checkBytes && n < Pow256(f.lengthBytes)
    requires g[f.preamble..f.HeaderBytes()] == Put(n, f.lengthBytes)
    requires g[f.HeaderBytes() + n..] != Check(f, g[f.HeaderBytes()..f.HeaderBytes() + n])
    ensures NextFrame(f, g + rest) == Bad
  {
    var end := f.HeaderBytes() + n;
    var field := g[f.preamble..f.HeaderBytes()];
    assert Get(field) == n by {
      GetPut(n, f.lengthBytes);
    }
    assert StatedLength(f, g) == n;
    assert |g| == end + f.checkBytes;
    assert g[end..|g|] == g[end..];
    RejectionStands(f, g, rest);
  }
}
