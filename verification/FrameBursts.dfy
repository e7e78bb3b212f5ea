/** Bursts in framed payloads.  The frames carry the register with its high byte first,
    although it is computed low byte first: a data packet rejects every sixteen-bit burst all
    the same, and a command frame misses exactly twelve. */
module FrameBursts {
  import opened Word16
  import opened Crc16
  import opened CrcDetection
  import opened CrcDistance
  import opened Wire
  import opened Framing
  import opened FrameErrors

  /** The two strings differ only within `width` consecutive bits, low bit first in each byte. */
  ghost predicate DifferWithin(a: seq<Byte>, b: seq<Byte>, i: nat, width: nat)
    requires |a| == |b|
  {
    forall k :: 0 <= k < 8 * |a| && DataBits(a)[k] != DataBits(b)[k] ==> i <= k < i + width
  }

  // ----- Parts of a burst -----

  lemma BitBefore(a: seq<Byte>, b: seq<Byte>, k: nat)
    requires k < 8 * |a|
    ensures DataBits(a + b)[k] == DataBits(a)[k]
  {
    DataBitsConcat(a, b);
  }

  lemma BitAfter(a: seq<Byte>, b: seq<Byte>, k: nat)
    requires k < 8 * |b|
    ensures DataBits(a + b)[8 * |a| + k] == DataBits(b)[k]
  {
    DataBitsConcat(a, b);
  }

  lemma FrontDiffers(a: seq<Byte>, a': seq<Byte>, b: seq<Byte>, b': seq<Byte>, i: nat, width: nat)
    requires |a| == |a'| && |b| == |b'| && DifferWithin(a + b, a' + b', i, width)
    ensures DifferWithin(a, a', i, width)
    ensures a != a' ==> i < 8 * |a|
  {
    forall k | 0 <= k < 8 * |a| && DataBits(a)[k] != DataBits(a')[k] ensures i <= k < i + width {
      BitBefore(a, b, k);
      BitBefore(a', b', k);
    }
    if a != a' {
      var k := DifferingBit(a, a');
    }
  }

  lemma BackDiffers(a: seq<Byte>, a': seq<Byte>, b: seq<Byte>, b': seq<Byte>, i: nat, width: nat, k: nat)
    requires |a| == |a'| && |b| == |b'| && DifferWithin(a + b, a' + b', i, width)
    requires k < 8 * |b| && DataBits(b)[k] != DataBits(b')[k]
    ensures i <= 8 * |a| + k < i + width
  {
    BitAfter(a, b, k);
    BitAfter(a', b', k);
    assert DataBits(a + b)[8 * |a| + k] != DataBits(a' + b')[8 * |a| + k];
  }

  lemma DifferingBit(a: seq<Byte>, b: seq<Byte>) returns (k: nat)
    requires |a| == |b| && a != b
    ensures k < 8 * |a| && DataBits(a)[k] != DataBits(b)[k]
  {
    if forall j :: 0 <= j < 8 * |a| ==> DataBits(a)[j] == DataBits(b)[j] {
      assert DataBits(a) == DataBits(b);
      SameDataBits(a, b);
    }
    k :| k < 8 * |a| && DataBits(a)[k] != DataBits(b)[k];
  }

  // ----- Data packets -----

  /** The four-byte field of a data packet. */
  lemma PacketField(c: Word)
    ensures Put(c as int, 4) == [0, 0] + [HighByte(c), LowByte(c)]
  {
    WordValue(c);
    PutFour(c as int, HighByte(c), LowByte(c), 3);
  }

  lemma SameRegister(c: Word, d: Word)
    requires HighByte(c) == HighByte(d) && LowByte(c) == LowByte(d)
    ensures c == d
  {
    JoinSplit(c);
    JoinSplit(d);
  }

  /** A packet's payload and field that arrive changed within sixteen consecutive bits, at any
      length, do not match: the two zero bytes keep payload and register apart. */
  lemma PacketBurstMismatches(p: seq<Byte>, p': seq<Byte>, field: seq<Byte>, i: nat)
    requires |p| == |p'| && |field| == 4 && !(p == p' && field == Check(PACKET, p))
    requires DifferWithin(p + Check(PACKET, p), p' + field, i, 16)
    ensures field != Check(PACKET, p')
  {
    if field == Check(PACKET, p') && p != p' {
      var c, c' := Crc(IBM, p), Crc(IBM, p');
      FrontDiffers(p, p', Check(PACKET, p), field, i, 16);
      BurstDetected(IBM, p, p', i);
      PacketField(c);
      PacketField(c');
      var tail, tail' := [HighByte(c), LowByte(c)], [HighByte(c'), LowByte(c')];
      Associates(p, [0, 0], tail);
      Associates(p', [0, 0], tail');
      if tail != tail' {
        var k := DifferingBit(tail, tail');
        BackDiffers(p + [0, 0], p' + [0, 0], tail, tail', i, 16, k);
      }
      assert tail[0] == tail'[0] && tail[1] == tail'[1];
      SameRegister(c, c');
    }
  }

  lemma PartsDecide(f: Framing, b: seq<Byte>, p: seq<Byte>, field: seq<Byte>, rest: seq<Byte>)
    requires |b| == f.HeaderBytes() + |p| + f.checkBytes + |rest|
    requires PreambleSeen(f, b) && StatedLength(f, b) == |p|
    requires var start, end := f.HeaderBytes(), f.HeaderBytes() + |p|;
             b[start..end] == p && b[end..end + f.checkBytes] == field && b[end + f.checkBytes..] == rest
    ensures NextFrame(f, b) == if field == Check(f, p) then Frame(p, rest) else Bad
  {
  }

  lemma FieldDecides(f: Framing, p: seq<Byte>, field: seq<Byte>, rest: seq<Byte>)
    requires Fits(f, p) && |field| == f.checkBytes
    ensures NextFrame(f, ZeroBytes(f.preamble) + Put(|p|, f.lengthBytes) + p + field + rest)
         == if field == Check(f, p) then Frame(p, rest) else Bad
  {
    var z, l := ZeroBytes(f.preamble), Put(|p|, f.lengthBytes);
    var b := z + l + p + field + rest;
    PartSlices(f, b, z, l, p, field, rest);
    GetPut(|p|, f.lengthBytes);
    PartsDecide(f, b, p, field, rest);
  }

  /** A data packet of any length whose payload and checksum field arrive changed within
      sixteen consecutive bits is rejected. */
  lemma PacketBurstRejected(p: seq<Byte>, p': seq<Byte>, field: seq<Byte>, i: nat, rest: seq<Byte>)
    requires Fits(PACKET, p) && |p| == |p'| && |field| == 4 && !(p == p' && field == Check(PACKET, p))
    requires DifferWithin(p + Check(PACKET, p), p' + field, i, 16)
    ensures NextFrame(PACKET, ZeroBytes(4) + Put(|p|, 4) + p' + field + rest) == Bad
  {
    PacketBurstMismatches(p, p', field, i);
    FieldDecides(PACKET, p', field, rest);
  }
}
