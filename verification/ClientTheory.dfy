/**
 * The sending side keeps accepted frames, queue and octets given to curl together.
 */
module ClientTheory {
  import opened Bytes
  import opened Frames
  import opened SendSpec
  import opened QueueRuns

  // ----- What is on the queue and what has been sent -----

  predicate Fits(f: Frame, max: nat) {
    NodeFor(f, max).bytes != []
  }

  predicate AllFit(frames: seq<Frame>, max: nat) {
    forall i :: 0 <= i < |frames| ==> Fits(frames[i], max)
  }

  /** The octets the accepted frames stand for: their encodings in order, up to the first
      frame that is too large for its buffer. */
  function Deliverable(frames: seq<Frame>, max: nat): seq<byte> {
    if frames == [] || !Fits(frames[0], max) then []
    else NodeFor(frames[0], max).bytes + Deliverable(frames[1..], max)
  }

  /** What sections 5.1 and 5.5 of RFC 6455 ask of a client's frame. */
  predicate Good(f: Frame) {
    && FrameValidate(f, ClientToServer) == 0 && !f.isUrgent && |f.payload| == f.payloadLen < TWO_63
    && (f.isControl ==> f.fin && f.payloadLen <= CTL_PAYLOAD_MAX)
  }

  predicate HasClose(frames: seq<Frame>) {
    frames != [] && frames[|frames| - 1].opcode == CLOSE
  }

  predicate GoodFrames(frames: seq<Frame>) {
    forall i {:trigger frames[i]} :: 0 <= i < |frames| ==>
      Good(frames[i]) && (frames[i].opcode == CLOSE ==> i == |frames| - 1)
  }

  /** The queue holds the last of the accepted frames; those before it fitted and are sent. */
  predicate Track(frames: seq<Frame>, q: Queue, max: nat) {
    && |q| <= |frames|
    && var k := |frames| - |q|;
    && (forall i {:trigger frames[i]} :: 0 <= i < k ==> Fits(frames[i], max) && frames[i].opcode != CLOSE)
    && (forall i {:trigger q[i]} :: 0 <= i < |q| ==> q[i].(sent := 0) == NodeFor(frames[k + i], max))
  }

  /** Accepted frames, queue and octets given out belong together; once the close frame is out
      nothing is left. */
  ghost predicate Pipe(frames: seq<Frame>, q: Queue, out: seq<byte>, max: nat, sent: bool) {
    && QueueOk(q) && GoodFrames(frames)
    && (if sent then q == [] && HasClose(frames) && AllFit(frames, max) else Track(frames, q, max))
    && out + Pending(q) == Deliverable(frames, max)
  }

  lemma {:induction false} DeliverableAppend(frames: seq<Frame>, f: Frame, max: nat)
    ensures Deliverable(frames + [f], max) ==
            Deliverable(frames, max) + if AllFit(frames, max) then NodeFor(f, max).bytes else []
  {
    hide NodeFor;
    if frames == [] {
      assert [] + [f] == [f] && [f][1..] == [];
    } else {
      assert (frames + [f])[1..] == frames[1..] + [f];
      AllFitCons(frames, max);
      hide AllFit;
      if Fits(frames[0], max) { DeliverableAppend(frames[1..], f, max); }
    }
  }

  lemma AllFitCons(frames: seq<Frame>, max: nat)
    requires frames != []
    ensures AllFit(frames, max) <==> Fits(frames[0], max) && AllFit(frames[1..], max)
  {
    hide Fits;
    if Fits(frames[0], max) && AllFit(frames[1..], max) {
      forall i | 0 <= i < |frames| ensures Fits(frames[i], max) {
        if 0 < i { assert frames[i] == frames[1..][i - 1]; }
      }
    }
  }

  lemma TrackFlows(frames: seq<Frame>, q: Queue, max: nat)
    requires Track(frames, q, max) && GoodFrames(frames) && !HasClose(frames)
    ensures Flows(q) <==> AllFit(frames, max)
  {
    hide NodeFor;
    var k := |frames| - |q|;
    if Flows(q) {
      forall i | 0 <= i < |frames| ensures Fits(frames[i], max) {
        if k <= i { assert q[i - k].(sent := 0) == NodeFor(frames[k + (i - k)], max); }
      }
    }
    if AllFit(frames, max) {
      forall i | 0 <= i < |q| ensures q[i].bytes != [] && !q[i].isClose {
        assert q[i].(sent := 0) == NodeFor(frames[k + i], max);
        assert Fits(frames[k + i], max);
        NodeIsClose(frames[k + i], max);
      }
    }
  }

  lemma NodeIsClose(f: Frame, max: nat)
    ensures NodeFor(f, max).isClose <==> f.opcode == CLOSE
    ensures NodeOk(NodeFor(f, max)) && NodeFor(f, max).sent == 0
  {
    hide WireBytes;
  }

  /** A frame that is accepted keeps everything together. */
  lemma PipeAdd(frames: seq<Frame>, q: Queue, out: seq<byte>, max: nat, f: Frame)
    requires Pipe(frames, q, out, max, false) && !HasClose(frames) && Good(f)
    ensures Pipe(frames + [f], Enqueued(q, NodeFor(f, max), false), out, max, false)
  {
    var n, before := NodeFor(f, max), Pending(q);
    var more := if Flows(q) then n.bytes else [];
    NodeIsClose(f, max);
    EnqueuedOk(q, n, false);
    var q' := Enqueued(q, n, false);
    assert q' == q + [n];
    GoodAdd(frames, f);
    hide Enqueued, NodeFor, Good, Track, QueueOk, NodesOk, NodeOk, Pending, Deliverable, AllFit, Flows, GoodFrames, HasClose;
    TrackFlows(frames, q, max);
    FifoPending(q, n);
    TrackAdd(frames, q, max, f);
    DeliverableAppend(frames, f, max);
    Associate(out, before, more);
  }

  lemma Associate(a: seq<byte>, b: seq<byte>, c: seq<byte>)
    ensures a + (b + c) == a + b + c
  {}

  lemma Rejoined(a: seq<byte>, b: seq<byte>, n: nat)
    requires n <= |b|
    ensures a + b[..n] + b[n..] == a + b
  {}

  lemma GoodAdd(frames: seq<Frame>, f: Frame)
    requires GoodFrames(frames) && !HasClose(frames) && Good(f)
    ensures GoodFrames(frames + [f])
  {
    hide Good;
  }

  lemma TrackAdd(frames: seq<Frame>, q: Queue, max: nat, f: Frame)
    requires Track(frames, q, max) && NodeFor(f, max).sent == 0
    ensures Track(frames + [f], q + [NodeFor(f, max)], max)
  {
    hide NodeFor;
    var k := |frames| - |q|;
    var fs, p := frames + [f], q + [NodeFor(f, max)];
    forall i | 0 <= i < k ensures Fits(fs[i], max) && fs[i].opcode != CLOSE {
      assert fs[i] == frames[i];
    }
    forall i | 0 <= i < |p| ensures p[i].(sent := 0) == NodeFor(fs[k + i], max) {
      if i < |q| { assert p[i] == q[i] && fs[k + i] == frames[k + i]; }
    }
  }

  /** Giving octets to curl keeps everything together. */
  lemma PipeFill(frames: seq<Frame>, q: Queue, out: seq<byte>, max: nat, len: nat)
    requires Pipe(frames, q, out, max, false)
    ensures var r := Fill(q, len); Pipe(frames, r.queue, out + r.out, max, r.closeSent)
  {
    var r, pending := Fill(q, len), Pending(q);
    FillIsNextOctets(q, len);
    FillTrack(frames, q, max, len);
    hide Fill, Track, QueueOk, NodesOk, Pending, Deliverable, AllFit, GoodFrames, HasClose;
    Rejoined(out, pending, |r.out|);
  }

  lemma FillTrack(frames: seq<Frame>, q: Queue, max: nat, len: nat)
    requires QueueOk(q) && GoodFrames(frames) && Track(frames, q, max)
    ensures var r := Fill(q, len);
            if r.closeSent then HasClose(frames) && AllFit(frames, max) else Track(frames, r.queue, max)
  {
    var r := Fill(q, len);
    TrackIsTracks(frames, q, max);
    FillTracks(Nodes(frames, max), q, len);
    hide Fill, Track, Tracks, QueueOk, Good;
    if r.closeSent {
      FillIsNextOctets(q, len);
      assert q[0..] == q;
      TrackIsTracks(frames, q, max);
      FitsBefore(frames, q, max);
      CloseIsLast(frames, q, max, 0);
    } else {
      TrackIsTracks(frames, r.queue, max);
    }
  }

  /** The nodes made for the frames are the line of the queue. */
  function Nodes(frames: seq<Frame>, max: nat): (s: seq<Node>)
    ensures |s| == |frames|
  {
    seq(|frames|, i requires 0 <= i < |frames| => NodeFor(frames[i], max))
  }

  lemma TrackIsTracks(frames: seq<Frame>, q: Queue, max: nat)
    ensures Track(frames, q, max) <==> Tracks(Nodes(frames, max), q)
  {
    forall i | 0 <= i < |frames|
      ensures (NodeFor(frames[i], max).bytes != [] <==> Fits(frames[i], max))
      ensures NodeFor(frames[i], max).isClose <==> frames[i].opcode == CLOSE
    {
      NodeIsClose(frames[i], max);
    }
    hide NodeFor;
    var line := Nodes(frames, max);
    if Tracks(line, q) {
      var k := |frames| - |q|;
      forall i | 0 <= i < k ensures Fits(frames[i], max) && frames[i].opcode != CLOSE { assert line[i].bytes != []; }
      forall i | 0 <= i < |q| ensures q[i].(sent := 0) == NodeFor(frames[k + i], max) { assert q[i].(sent := 0) == line[k + i]; }
    }
    if Track(frames, q, max) {
      var k := |frames| - |q|;
      forall i | 0 <= i < k ensures line[i].bytes != [] && !line[i].isClose { assert Fits(frames[i], max); }
      forall i | 0 <= i < |q| ensures q[i].(sent := 0) == line[k + i] { assert q[i].(sent := 0) == NodeFor(frames[k + i], max); }
    }
  }

  lemma FitsBefore(frames: seq<Frame>, q: Queue, max: nat)
    requires Track(frames, q, max)
    ensures |q| <= |frames| && forall j :: 0 <= j < |frames| - |q| ==> Fits(frames[j], max)
  {
    hide NodeFor;
  }

  /** A close frame that can be sent is the last frame and all before it fit. */
  lemma {:induction false} CloseIsLast(frames: seq<Frame>, q: Queue, max: nat, i: nat)
    requires GoodFrames(frames) && Track(frames, q, max) && i <= |q| && CloseAhead(q[i..])
    requires forall j :: 0 <= j < |frames| - |q| + i ==> Fits(frames[j], max)
    ensures HasClose(frames) && AllFit(frames, max)
    decreases |q| - i
  {
    hide NodeFor, Good;
    var k := |frames| - |q|;
    assert q[i..][0] == q[i] && q[i..][1..] == q[i + 1..];
    assert q[i].(sent := 0) == NodeFor(frames[k + i], max);
    NodeIsClose(frames[k + i], max);
    if q[i].isClose {
      assert k + i == |frames| - 1;
    } else {
      CloseIsLast(frames, q, max, i + 1);
    }
  }
}
