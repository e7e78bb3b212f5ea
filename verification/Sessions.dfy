/** A Teltonika connection: one handshake, then data packets. */
module Sessions {
  import opened Options
  import opened Word16
  import opened Framing
  import opened Streams

  /** The identity once the handshake is complete, and what has been received since. */
  datatype Session = Session(identity: Option<seq<Byte>>, stream: Received)

  const OPENED := Session(None, NOTHING)

  function Accept(b: seq<Byte>): Session {
    match NextFrame(HANDSHAKE, b)
    case More => Session(None, Received([], b, false))
    case Bad => Session(None, Received([], b, true))
    case Frame(identity, rest) => Session(Some(identity), Cut(PACKET, rest))
  }

  function Hear(st: Session, chunk: seq<Byte>): Session {
    if st.identity.Some? || st.stream.broken then st.(stream := Feed(PACKET, st.stream, chunk))
    else Accept(st.stream.pending + chunk)
  }

  function HearAll(chunks: seq<seq<Byte>>): Session {
    if chunks == [] then OPENED
    else Hear(HearAll(chunks[..|chunks| - 1]), chunks[|chunks| - 1])
  }

  lemma AcceptConcat(a: seq<Byte>, b: seq<Byte>)
    ensures Accept(a + b) == Hear(Accept(a), b)
  {
    match NextFrame(HANDSHAKE, a)
    case More =>
    case Bad =>
      RejectionStands(HANDSHAKE, a, b);
    case Frame(identity, rest) =>
      FrameStands(HANDSHAKE, a, b, identity, rest);
      CutConcat(PACKET, rest, b);
  }

  /** The session's state depends only on the bytes heard, not on their chunks. */
  lemma {:induction false} HearingIsAccepting(chunks: seq<seq<Byte>>)
    ensures HearAll(chunks) == Accept(Joined(chunks))
  {
    if chunks == [] {
      EmptyWaits(HANDSHAKE);
    } else {
      var n := |chunks| - 1;
      HearingIsAccepting(chunks[..n]);
      AcceptConcat(Joined(chunks[..n]), chunks[n]);
    }
  }

  /** Everything a device sends in one session. */
  function SentBytes(imei: seq<Byte>, ps: seq<seq<Byte>>): seq<Byte> {
    FrameOf(HANDSHAKE, imei) + StreamOf(PACKET, ps)
  }

  lemma HandshakeIncomplete(imei: seq<Byte>, ps: seq<seq<Byte>>, b: seq<Byte>)
    requires Fits(HANDSHAKE, imei) && b <= SentBytes(imei, ps) && |b| < |FrameOf(HANDSHAKE, imei)|
    ensures Accept(b) == Session(None, Received([], b, false))
  {
    assert b == SentBytes(imei, ps)[..|b|] == FrameOf(HANDSHAKE, imei)[..|b|];
    PartialFrameWaits(HANDSHAKE, imei, b);
  }

  lemma HandshakeComplete(imei: seq<Byte>, ps: seq<seq<Byte>>, b: seq<Byte>) returns (rest: seq<Byte>)
    requires Fits(HANDSHAKE, imei) && b <= SentBytes(imei, ps) && |b| >= |FrameOf(HANDSHAKE, imei)|
    ensures Accept(b) == Session(Some(imei), Cut(PACKET, rest))
    ensures rest <= StreamOf(PACKET, ps)
    ensures b == SentBytes(imei, ps) ==> rest == StreamOf(PACKET, ps)
  {
    var hello := FrameOf(HANDSHAKE, imei);
    rest := b[|hello|..];
    assert hello == SentBytes(imei, ps)[..|hello|];
    assert b == hello + rest;
    assert SentBytes(imei, ps)[|hello|..] == StreamOf(PACKET, ps);
    FrameDecodes(HANDSHAKE, imei, rest);
  }

  lemma PacketsCut(ps: seq<seq<Byte>>, rest: seq<Byte>) returns (k: nat, t: seq<Byte>)
    requires AllFit(PACKET, ps) && rest <= StreamOf(PACKET, ps)
    ensures k <= |ps| && PartOfNext(PACKET, ps, k, t) && Cut(PACKET, rest) == Received(ps[..k], t, false)
    ensures rest == StreamOf(PACKET, ps) ==> k == |ps| && t == []
  {
    assert Joined([rest]) == rest by {
      assert [rest][..0] == [];
      assert [] + rest == rest;
    }
    ChunkingIrrelevant(PACKET, [rest]);
    k, t := SegmentedDelivery(PACKET, ps, [rest]);
  }

  /** Heard in any chunks, a beginning of a session yields no identity while the handshake
      is incomplete, and otherwise the identity, the complete packets in order, and a
      proper part of the next packet. */
  lemma SessionDelivery(imei: seq<Byte>, ps: seq<seq<Byte>>, chunks: seq<seq<Byte>>)
    returns (k: nat, t: seq<Byte>)
    requires Fits(HANDSHAKE, imei) && AllFit(PACKET, ps) && Joined(chunks) <= SentBytes(imei, ps)
    ensures |Joined(chunks)| < |FrameOf(HANDSHAKE, imei)| ==>
              HearAll(chunks) == Session(None, Received([], Joined(chunks), false))
    ensures |Joined(chunks)| >= |FrameOf(HANDSHAKE, imei)| ==>
              && k <= |ps| && PartOfNext(PACKET, ps, k, t)
              && HearAll(chunks) == Session(Some(imei), Received(ps[..k], t, false))
    ensures Joined(chunks) == SentBytes(imei, ps) ==>
              HearAll(chunks) == Session(Some(imei), Received(ps, [], false))
  {
    HearingIsAccepting(chunks);
    if |Joined(chunks)| < |FrameOf(HANDSHAKE, imei)| {
      k, t := 0, [];
      HandshakeIncomplete(imei, ps, Joined(chunks));
    } else {
      var rest := HandshakeComplete(imei, ps, Joined(chunks));
      k, t := PacketsCut(ps, rest);
      assert k == |ps| ==> ps[..k] == ps;
    }
  }
}
