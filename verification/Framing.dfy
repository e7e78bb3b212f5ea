/** The three framings on the wire and a receiver that cuts a byte stream into frames. */
module Framing {
  import opened Word16
  import opened Crc16
  import opened Wire

  /** A frame is a run of zero bytes, a length, the payload and its checksum. */
  datatype Framing = Framing(preamble: nat, lengthBytes: nat, checkBytes: nat, poly: Word)
  {
    function HeaderBytes(): nat {
      preamble + lengthBytes
    }
  }

  // Teltonika data packets, Ruptela frames, and the Teltonika handshake (which has no checksum).
  const PACKET := Framing(4, 4, 4, IBM)
  const COMMAND := Framing(0, 2, 2, KERMIT)
  const HANDSHAKE := Framing(0, 2, 0, IBM)

  function Check(f: Framing, p: seq<Byte>): (r: seq<Byte>)
    ensures |r| == f.checkBytes
  {
    Put(Crc(f.poly, p) as int, f.checkBytes)
  }

  /** The bytes sent for a payload.  The length field keeps only its low bytes. */
  function FrameOf(f: Framing, p: seq<Byte>): (r: seq<Byte>)
    ensures |r| == f.HeaderBytes() + |p| + f.checkBytes
  {
    ZeroBytes(f.preamble) + Put(|p|, f.lengthBytes) + p + Check(f, p)
  }

  ghost predicate Fits(f: Framing, p: seq<Byte>) {
    |p| < Pow256(f.lengthBytes)
  }

  // ----- The three senders -----

  /** Overwrites `b` from `at` with `data`. */
  method Copy(b: array<Byte>, at: nat, data: seq<Byte>)
    requires at + |data| <= b.Length
    modifies b
    ensures b[..at + |data|] == old(b[..at]) + data
    ensures b[at + |data|..] == old(b[at + |data|..])
  {
    forall i | 0 <= i < |data| {
      b[at + i] := data[i];
    }
  }

  /** The packet that carries AVL data. */
  method SendPacket(avlData: seq<Byte>) returns (packet: array<Byte>)
    ensures fresh(packet) && packet[..] == FrameOf(PACKET, avlData)
  {
    var dataLen := |avlData|;
    packet := new Byte[4 + 4 + dataLen + 4](_ => 0);
    PutUint(packet, 4, 4, dataLen);
    ghost var header := ZeroBytes(4) + Put(dataLen, 4);
    assert packet[..8] == header by {
      assert packet[..4] == ZeroBytes(4);
      assert packet[..8] == packet[..4] + packet[4..8];
    }
    Copy(packet, 8, avlData);
    assert packet[..8 + dataLen] == header + avlData;
    var crc := Crc16Ibm(avlData);
    PutUint(packet, 8 + dataLen, 4, crc as int);
    Rejoin(packet[..], 8 + dataLen, packet.Length);
  }

  /** The frame that carries a command payload. */
  method SendRecord(payload: seq<Byte>) returns (frame: array<Byte>)
    ensures fresh(frame) && frame[..] == FrameOf(COMMAND, payload)
  {
    var n := |payload|;
    frame := new Byte[2 + n + 2](_ => 0);
    PutUint(frame, 0, 2, n);
    assert frame[..2] == ZeroBytes(0) + Put(n, 2);
    Copy(frame, 2, payload);
    var crc := Crc16Kermit(payload);
    PutUint(frame, 2 + n, 2, crc as int);
    assert frame[..] == frame[..2 + n] + frame[2 + n..2 + n + 2];
  }

  /** The opening bytes of a Teltonika session. */
  method Greet(imei: seq<Byte>) returns (handshake: array<Byte>)
    ensures fresh(handshake) && handshake[..] == FrameOf(HANDSHAKE, imei)
  {
    var n := |imei|;
    handshake := new Byte[2 + n](_ => 0);
    PutUint(handshake, 0, 2, n);
    assert handshake[..2] == ZeroBytes(0) + Put(n, 2);
    Copy(handshake, 2, imei);
    assert handshake[..] == handshake[..2 + n] + [];
  }

  // ----- Cutting one frame off a buffer -----

  datatype Next = More | Bad | Frame(payload: seq<Byte>, rest: seq<Byte>)

  predicate PreambleSeen(f: Framing, b: seq<Byte>) {
    forall i :: 0 <= i < |b| && i < f.preamble ==> b[i] == 0
  }

  function StatedLength(f: Framing, b: seq<Byte>): nat
    requires |b| >= f.HeaderBytes()
  {
    Get(b[f.preamble..f.HeaderBytes()])
  }

  /** Waits for more bytes, rejects the buffer, or takes the frame at its front. */
  function NextFrame(f: Framing, b: seq<Byte>): Next {
    if !PreambleSeen(f, b) then Bad
    else if |b| < f.HeaderBytes() then More
    else
      var start, n := f.HeaderBytes(), StatedLength(f, b);
      if |b| < start + n + f.checkBytes then More
      else
        var p := b[start..start + n];
        if b[start + n..start + n + f.checkBytes] == Check(f, p) then Frame(p, b[start + n + f.checkBytes..])
        else Bad
  }

  lemma PartSlices(f: Framing, b: seq<Byte>, z: seq<Byte>, l: seq<Byte>, p: seq<Byte>, c: seq<Byte>, rest: seq<Byte>)
    requires |z| == f.preamble && |l| == f.lengthBytes && |c| == f.checkBytes
    requires b == z + l + p + c + rest && forall i :: 0 <= i < |z| ==> z[i] == 0
    ensures var start, end := f.HeaderBytes(), f.HeaderBytes() + |p|;
            && PreambleSeen(f, b)
            && b[f.preamble..start] == l && b[start..end] == p
            && b[end..end + f.checkBytes] == c && b[end + f.checkBytes..] == rest
  {
    Slices(z, l, p, c, rest);
    forall i | 0 <= i < f.preamble ensures b[i] == 0 {
      FirstPart(z, l, p, c, rest, i);
    }
  }

  lemma FrameSlices(f: Framing, p: seq<Byte>, rest: seq<Byte>)
    ensures var b, start, end := FrameOf(f, p) + rest, f.HeaderBytes(), f.HeaderBytes() + |p|;
            && PreambleSeen(f, b)
            && b[f.preamble..start] == Put(|p|, f.lengthBytes)
            && b[start..end] == p
            && b[end..end + f.checkBytes] == Check(f, p)
            && b[end + f.checkBytes..] == rest
  {
    PartSlices(f, FrameOf(f, p) + rest, ZeroBytes(f.preamble), Put(|p|, f.lengthBytes), p, Check(f, p), rest);
  }

  lemma FrameDecodes(f: Framing, p: seq<Byte>, rest: seq<Byte>)
    requires Fits(f, p)
    ensures NextFrame(f, FrameOf(f, p) + rest) == Frame(p, rest)
  {
    var b := FrameOf(f, p) + rest;
    FrameSlices(f, p, rest);
    assert StatedLength(f, b) == |p| by {
      GetPut(|p|, f.lengthBytes);
    }
  }

  lemma FrameCanonical(f: Framing, b: seq<Byte>, p: seq<Byte>, rest: seq<Byte>)
    requires NextFrame(f, b) == Frame(p, rest)
    ensures Fits(f, p) && b == FrameOf(f, p) + rest
  {
    var start := f.HeaderBytes();
    var field := b[f.preamble..start];
    GetBound(field);
    PutGet(field);
    var end := start + |p|;
    assert b[..f.preamble] == ZeroBytes(f.preamble);
    Rejoin(b, f.preamble, start);
    Rejoin(b, start, end);
    Rejoin(b, end, end + f.checkBytes);
  }

  /** A frame is taken off a buffer exactly when the buffer starts with the one encoding
      of a payload short enough for the length field. */
  lemma FrameBijective(f: Framing, b: seq<Byte>, p: seq<Byte>, rest: seq<Byte>)
    ensures NextFrame(f, b) == Frame(p, rest) <==> Fits(f, p) && b == FrameOf(f, p) + rest
  {
    if NextFrame(f, b) == Frame(p, rest) {
      FrameCanonical(f, b, p, rest);
    }
    if Fits(f, p) {
      FrameDecodes(f, p, rest);
    }
  }

  /** `t` is a beginning of `b` but not all of it. */
  ghost predicate ProperPrefix(t: seq<Byte>, b: seq<Byte>) {
    t < b
  }

  lemma PartialFrameWaits(f: Framing, p: seq<Byte>, t: seq<Byte>)
    requires Fits(f, p) && ProperPrefix(t, FrameOf(f, p))
    ensures NextFrame(f, t) == More
  {
    var b := FrameOf(f, p);
    FrameSlices(f, p, []);
    assert b + [] == b;
    assert forall i :: 0 <= i < |t| ==> t[i] == b[i];
    if |t| >= f.HeaderBytes() {
      assert t[f.preamble..f.HeaderBytes()] == b[f.preamble..f.HeaderBytes()];
      GetPut(|p|, f.lengthBytes);
    }
  }

  lemma PreambleStands(f: Framing, a: seq<Byte>, b: seq<Byte>)
    ensures !PreambleSeen(f, a) ==> !PreambleSeen(f, a + b)
    ensures |a| >= f.preamble ==> PreambleSeen(f, a + b) == PreambleSeen(f, a)
  {
    assert forall i :: 0 <= i < |a| ==> (a + b)[i] == a[i];
  }

  lemma LengthStands(f: Framing, a: seq<Byte>, b: seq<Byte>)
    requires |a| >= f.HeaderBytes()
    ensures StatedLength(f, a + b) == StatedLength(f, a)
  {
    SliceBefore(a, b, f.preamble, f.HeaderBytes());
  }

  lemma MismatchStands(f: Framing, a: seq<Byte>, b: seq<Byte>, start: nat, end: nat)
    requires start <= end && end + f.checkBytes <= |a|
    requires a[end..end + f.checkBytes] != Check(f, a[start..end])
    ensures (a + b)[end..end + f.checkBytes] != Check(f, (a + b)[start..end])
  {
    SliceBefore(a, b, start, end);
    SliceBefore(a, b, end, end + f.checkBytes);
  }

  lemma RejectionStands(f: Framing, a: seq<Byte>, b: seq<Byte>)
    requires NextFrame(f, a) == Bad
    ensures NextFrame(f, a + b) == Bad
  {
    PreambleStands(f, a, b);
    if PreambleSeen(f, a) {
      LengthStands(f, a, b);
      MismatchStands(f, a, b, f.HeaderBytes(), f.HeaderBytes() + StatedLength(f, a));
    }
  }

  lemma FrameStands(f: Framing, a: seq<Byte>, b: seq<Byte>, p: seq<Byte>, rest: seq<Byte>)
    requires NextFrame(f, a) == Frame(p, rest)
    ensures NextFrame(f, a + b) == Frame(p, rest + b)
  {
    FrameCanonical(f, a, p, rest);
    Associates(FrameOf(f, p), rest, b);
    FrameDecodes(f, p, rest + b);
  }
}
