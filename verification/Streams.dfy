/** A receiver that is fed a byte stream in arbitrary chunks. */
module Streams {
  import opened Word16
  import opened Wire
  import opened Framing

  /** The frames cut so far, the bytes not yet cut, and whether the stream was rejected. */
  datatype Received = Received(frames: seq<seq<Byte>>, pending: seq<Byte>, broken: bool)

  const NOTHING := Received([], [], false)

  /** Cuts frames off the front of a buffer until it must wait or reject. */
  function Cut(f: Framing, b: seq<Byte>): Received
    requires f.lengthBytes > 0
    decreases |b|
  {
    match NextFrame(f, b)
    case More => Received([], b, false)
    case Bad => Received([], b, true)
    case Frame(p, rest) =>
      var r := Cut(f, rest);
      Received([p] + r.frames, r.pending, r.broken)
  }

  /** The receiver's step on one more chunk. */
  function Feed(f: Framing, st: Received, chunk: seq<Byte>): Received
    requires f.lengthBytes > 0
  {
    if st.broken then st.(pending := st.pending + chunk)
    else
      var r := Cut(f, st.pending + chunk);
      Received(st.frames + r.frames, r.pending, r.broken)
  }

  function FeedAll(f: Framing, chunks: seq<seq<Byte>>): Received
    requires f.lengthBytes > 0
  {
    if chunks == [] then NOTHING
    else Feed(f, FeedAll(f, chunks[..|chunks| - 1]), chunks[|chunks| - 1])
  }

  function Joined(parts: seq<seq<Byte>>): seq<Byte> {
    if parts == [] then [] else Joined(parts[..|parts| - 1]) + parts[|parts| - 1]
  }

  // ----- How the stream is chunked does not matter -----

  lemma FeedAfterFrame(f: Framing, p: seq<Byte>, r: Received, r': Received, b: seq<Byte>)
    requires f.lengthBytes > 0 && r' == Feed(f, r, b)
    ensures Feed(f, Received([p] + r.frames, r.pending, r.broken), b)
         == Received([p] + r'.frames, r'.pending, r'.broken)
  {
    if !r.broken {
      assert ([p] + r.frames) + Cut(f, r.pending + b).frames == [p] + (r.frames + Cut(f, r.pending + b).frames);
    }
  }

  lemma {:induction false} CutConcat(f: Framing, a: seq<Byte>, b: seq<Byte>)
    requires f.lengthBytes > 0
    ensures Cut(f, a + b) == Feed(f, Cut(f, a), b)
    decreases |a|
  {
    match NextFrame(f, a)
    case More =>
      assert [] + Cut(f, a + b).frames == Cut(f, a + b).frames;
    case Bad =>
      RejectionStands(f, a, b);
    case Frame(p, rest) =>
      FrameStands(f, a, b, p, rest);
      CutConcat(f, rest, b);
      FeedAfterFrame(f, p, Cut(f, rest), Cut(f, rest + b), b);
  }

  /** Whatever the bytes are, the receiver's state depends only on their concatenation. */
  lemma {:induction false} ChunkingIrrelevant(f: Framing, chunks: seq<seq<Byte>>)
    requires f.lengthBytes > 0
    ensures FeedAll(f, chunks) == Cut(f, Joined(chunks))
  {
    if chunks != [] {
      var n := |chunks| - 1;
      ChunkingIrrelevant(f, chunks[..n]);
      CutConcat(f, Joined(chunks[..n]), chunks[n]);
    }
  }

  // ----- What a sender's stream turns into -----

  ghost predicate AllFit(f: Framing, ps: seq<seq<Byte>>) {
    forall i :: 0 <= i < |ps| ==> Fits(f, ps[i])
  }

  function StreamOf(f: Framing, ps: seq<seq<Byte>>): seq<Byte> {
    if ps == [] then [] else FrameOf(f, ps[0]) + StreamOf(f, ps[1..])
  }

  /** `t` is the beginning of the frame that follows the first `k` of `ps`, or nothing
      when there is none. */
  ghost predicate PartOfNext(f: Framing, ps: seq<seq<Byte>>, k: nat, t: seq<Byte>)
    requires k <= |ps|
  {
    if k < |ps| then ProperPrefix(t, FrameOf(f, ps[k])) else t == []
  }

  lemma NothingYet(f: Framing, t: seq<Byte>)
    requires f.lengthBytes > 0 && NextFrame(f, t) == More
    ensures Cut(f, t) == Received([], t, false)
  {
  }

  lemma TailFits(f: Framing, ps: seq<seq<Byte>>)
    requires ps != [] && AllFit(f, ps)
    ensures Fits(f, ps[0]) && AllFit(f, ps[1..])
  {
    assert forall i :: 0 <= i < |ps[1..]| ==> ps[1..][i] == ps[i + 1];
  }

  lemma StreamCons(f: Framing, ps: seq<seq<Byte>>, t: seq<Byte>)
    requires ps != []
    ensures StreamOf(f, ps) + t == FrameOf(f, ps[0]) + (StreamOf(f, ps[1..]) + t)
  {
    Associates(FrameOf(f, ps[0]), StreamOf(f, ps[1..]), t);
  }

  lemma CutFirst(f: Framing, ps: seq<seq<Byte>>, b: seq<Byte>, t: seq<Byte>)
    requires f.lengthBytes > 0 && ps != [] && Fits(f, ps[0]) && Cut(f, b) == Received(ps[1..], t, false)
    ensures Cut(f, FrameOf(f, ps[0]) + b) == Received(ps, t, false)
  {
    FrameDecodes(f, ps[0], b);
    assert ps == [ps[0]] + ps[1..];
  }

  lemma {:induction false} CutFrames(f: Framing, ps: seq<seq<Byte>>, t: seq<Byte>)
    requires f.lengthBytes > 0 && AllFit(f, ps) && NextFrame(f, t) == More
    ensures Cut(f, StreamOf(f, ps) + t) == Received(ps, t, false)
  {
    if ps == [] {
      assert StreamOf(f, ps) + t == t;
      NothingYet(f, t);
    } else {
      TailFits(f, ps);
      CutFrames(f, ps[1..], t);
      CutFirst(f, ps, StreamOf(f, ps[1..]) + t, t);
      StreamCons(f, ps, t);
    }
  }

  /** Any beginning of a stream is some whole frames and a part of the next one. */
  lemma {:induction false} SplitStream(f: Framing, ps: seq<seq<Byte>>, b: seq<Byte>) returns (k: nat, t: seq<Byte>)
    requires b <= StreamOf(f, ps)
    ensures k <= |ps| && b == StreamOf(f, ps[..k]) + t && PartOfNext(f, ps, k, t)
  {
    if ps == [] {
      k, t := 0, [];
    } else {
      var head := FrameOf(f, ps[0]);
      if |b| < |head| {
        k, t := 0, b;
        assert b == StreamOf(f, ps)[..|b|] == head[..|b|];
      } else {
        assert head == StreamOf(f, ps)[..|head|];
        assert b == head + b[|head|..];
        assert StreamOf(f, ps)[|head|..] == StreamOf(f, ps[1..]);
        k, t := SplitStream(f, ps[1..], b[|head|..]);
        assert ps[..k + 1][1..] == ps[1..][..k];
        Associates(head, StreamOf(f, ps[1..][..k]), t);
        k := k + 1;
      }
    }
  }

  lemma EmptyWaits(f: Framing)
    requires f.lengthBytes > 0
    ensures NextFrame(f, []) == More
  {
  }

  /** Fed any beginning of a sender's stream in any chunks, the receiver has cut exactly
      the frames that are complete, and holds a proper part of the next one. */
  lemma {:induction false} SegmentedDelivery(f: Framing, ps: seq<seq<Byte>>, chunks: seq<seq<Byte>>)
    returns (k: nat, t: seq<Byte>)
    requires f.lengthBytes > 0 && AllFit(f, ps) && Joined(chunks) <= StreamOf(f, ps)
    ensures k <= |ps| && PartOfNext(f, ps, k, t)
    ensures FeedAll(f, chunks) == Received(ps[..k], t, false)
    ensures Joined(chunks) == StreamOf(f, ps) ==> k == |ps| && t == []
  {
    k, t := SplitStream(f, ps, Joined(chunks));
    ChunkingIrrelevant(f, chunks);
    if k < |ps| {
      PartialFrameWaits(f, ps[k], t);
    } else {
      EmptyWaits(f);
    }
    CutFrames(f, ps[..k], t);
    if Joined(chunks) == StreamOf(f, ps) {
      EmptyWaits(f);
      CutFrames(f, ps, []);
      assert StreamOf(f, ps) + [] == StreamOf(f, ps);
      assert ps[..k] == ps;
    }
  }

  lemma WholeDelivery(f: Framing, ps: seq<seq<Byte>>, chunks: seq<seq<Byte>>)
    requires f.lengthBytes > 0 && AllFit(f, ps) && Joined(chunks) == StreamOf(f, ps)
    ensures FeedAll(f, chunks) == Received(ps, [], false)
  {
    var k, t := SegmentedDelivery(f, ps, chunks);
    assert ps[..k] == ps;
  }
}
