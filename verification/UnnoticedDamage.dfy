/** Damage that the receivers cannot notice, one example of each kind. */
module UnnoticedDamage {
  import opened BitString
  import opened Word16
  import opened Crc16
  import opened CrcDetection
  import CrcVectors
  import opened Wire
  import opened Framing
  import opened FrameErrors
  import opened FrameBursts
  import opened HiddenChanges
  import opened CommandBursts

  // ----- Bits of small messages -----

  lemma ByteBitIn(a: seq<Byte>, b: Byte, c: seq<Byte>, r: nat)
    requires r < 8
    ensures DataBits(a + [b] + c)[8 * |a| + r] == Bit(b as Word, r)
  {
    DataBitsConcat(a + [b], c);
    DataBitsConcat(a, [b]);
    assert [b][..0] == [];
  }

  lemma ThreeBytes(b: seq<Byte>, n: nat, r: nat)
    requires |b| == 3 && n < 3 && r < 8
    ensures DataBits(b)[8 * n + r] == Bit(b[n] as Word, r)
  {
    var before, after := b[..n], b[n + 1..];
    assert b == before + [b[n]] + after;
    ByteBitIn(before, b[n], after, r);
  }

  lemma UpperBitsClear(v: Word, r: nat, n: nat)
    requires n == 0 && v < 16 && r >= 4
    ensures !Bit(v, r)
  {
    QuarterBits(v, r - 4, n);
    DropOfZero(r - 4);
    assert v >> 4 == 0;
  }

  // ----- A burst of thirteen bits -----

  lemma ExampleBurst()
    ensures DifferWithin([0, 0, 0], [0x20, 0x21, 0x02], 5, 13)
  {
    var a: seq<Byte>, b: seq<Byte> := [0, 0, 0], [0x20, 0x21, 0x02];
    forall k | 0 <= k < 24 && !(5 <= k < 18) ensures DataBits(a)[k] == DataBits(b)[k] {
      ThreeBytes(a, k / 8, k % 8);
      ThreeBytes(b, k / 8, k % 8);
      DropOfZero(k % 8);
      if k < 4 {
        BitsOfQuarter(0x20);
      } else if k == 4 {
        QuarterBits(0x20, 0, 0);
        BitsOfQuarter(0x2);
      } else if k >= 20 {
        UpperBitsClear(0x02, k % 8, 0);
      } else {
        BitsOfQuarter(0x02);
      }
    }
  }

  lemma ExampleChecks()
    ensures Check(COMMAND, [0x00]) == [0, 0] && Check(COMMAND, [0x20]) == [0x21, 0x02]
  {
    CrcVectors.NextByte(KERMIT, [], 0x00, 0, 0, 0);
    CrcVectors.NextByte(KERMIT, [], 0x20, 0, 0x2102, 0);
    assert [] + [0x00 as Byte] == [0x00] && [] + [0x20 as Byte] == [0x20];
    CommandField(0);
    CommandField(0x2102);
  }

  /** A command frame accepts a burst of thirteen bits, so twelve is the most it always notices. */
  lemma {:induction false} ThirteenBitsAccepted(rest: seq<Byte>)
    ensures DifferWithin([0x00] + Check(COMMAND, [0x00]), [0x20] + [0x21, 0x02], 5, 13)
    ensures NextFrame(COMMAND, ZeroBytes(0) + Put(1, 2) + [0x20] + [0x21, 0x02] + rest) == Frame([0x20], rest)
  {
    ExampleBurst();
    ExampleChecks();
    assert [0x00 as Byte] + [0, 0] == [0, 0, 0] && [0x20 as Byte] + [0x21, 0x02] == [0x20, 0x21, 0x02];
    FieldDecides(COMMAND, [0x20], [0x21, 0x02], rest);
  }

  // ----- One bit of the length -----

  lemma OneBitApart(n: nat)
    requires n == 8
    ensures DataDistance([0], [1]) == 1
  {
    OneByteDistance(0, 1);
    InputWeight(true, n);
    assert XorBits(ByteBits(0), ByteBits(1)) == ByteBits(1) by {
      forall r | 0 <= r < 8 ensures !ByteBits(0)[r] {
        DropOfZero(r);
      }
    }
    assert 1 as Byte as Word == Mask(true, 1);
  }

  lemma LengthDistance()
    ensures DataDistance(Put(0, 4), Put(1, 4)) == 1
  {
    var zeros: seq<Byte> := [0, 0, 0];
    PutFour(0, 0, 0, 3);
    PutFour(1, 0, 1, 3);
    assert Put(0, 4) == zeros + [0] && Put(1, 4) == zeros + [1];
    OneBitApart(8);
    DistanceConcat(zeros, zeros, [0], [1]);
    DistanceZero(zeros, zeros);
  }

  lemma ChangedPart(z: seq<Byte>, l: seq<Byte>, l': seq<Byte>, c: seq<Byte>)
    requires |l| == |l'|
    ensures DataDistance(z + l + c, z + l' + c) == DataDistance(l, l')
  {
    DistanceConcat(z + l, z + l', c, c);
    DistanceConcat(z, z, l, l');
    DistanceZero(z, z);
    DistanceZero(c, c);
  }

  lemma Regroup(z: seq<Byte>, l: seq<Byte>, c: seq<Byte>)
    requires c == [0, 0, 0, 0]
    ensures z + l + c + [0] == z + l + [0] + c + []
  {
    assert c + [0] == [0] + c;
  }

  lemma ZeroChecks()
    ensures Check(PACKET, []) == [0, 0, 0, 0] && Check(PACKET, [0]) == [0, 0, 0, 0]
  {
    CrcVectors.SmallVectors();
    PacketField(0);
  }

  lemma EmptyFrame()
    ensures FrameOf(PACKET, []) == ZeroBytes(4) + Put(0, 4) + Check(PACKET, [])
  {
    var header := ZeroBytes(4) + Put(0, 4);
    assert header + [] == header;
  }

  /** One changed bit in the length field of an empty packet, and the zero byte with which the
      next packet begins, give a packet that is accepted. */
  lemma LengthDamageAccepted()
    ensures DataDistance(FrameOf(PACKET, []), ZeroBytes(4) + Put(1, 4) + Check(PACKET, [])) == 1
    ensures NextFrame(PACKET, ZeroBytes(4) + Put(1, 4) + Check(PACKET, []) + [0]) == Frame([0], [])
  {
    var z, c := ZeroBytes(4), Check(PACKET, []);
    EmptyFrame();
    LengthDistance();
    ChangedPart(z, Put(0, 4), Put(1, 4), c);
    ZeroChecks();
    Regroup(z, Put(1, 4), c);
    FieldDecides(PACKET, [0], c, []);
  }
}
