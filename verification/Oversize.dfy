/**
 * A frame that is too large for its buffer: the call succeeds, and nothing queued from then on
 * is ever sent.
 */
module Oversize {
  import opened Bytes
  import opened Frames
  import opened Events
  import opened ReceiveSpec
  import opened SendSpec
  import opened ClientSpec
  import opened ClientTheory
  import opened Connection
  import opened PeerTheory

  lemma {:induction false} DeliverableStops(frames: seq<Frame>, more: seq<Frame>, max: nat)
    requires !AllFit(frames, max)
    ensures Deliverable(frames + more, max) == Deliverable(frames, max) && !AllFit(frames + more, max)
  {
    hide NodeFor;
    assert (frames + more)[1..] == frames[1..] + more && (frames + more)[0] == frames[0];
    AllFitCons(frames, max);
    AllFitCons(frames + more, max);
    hide AllFit;
    if Fits(frames[0], max) { DeliverableStops(frames[1..], more, max); }
  }

  /** Once a frame has been accepted that does not fit, curl is given no more than what was
      accepted before it, and the handshake can never end. */
  lemma NothingPasses(w: World, calls: seq<Call>)
    requires Inv(w) && AllOk(calls) && !AllFit(w.frames, w.conn.maxPayload)
    ensures var w' := Run(w, calls);
            && w.out <= w'.out <= Deliverable(w.frames, w.conn.maxPayload)
            && !w'.conn.sent && !w'.conn.closed
  {
    RunFacts(w, calls);
    hide Inv, Run, Deliverable, AllFit, AllOk;
    MoreFrames(w.frames, Run(w, calls).frames, w.conn.maxPayload);
  }

  lemma MoreFrames(frames: seq<Frame>, later: seq<Frame>, max: nat)
    requires frames <= later && !AllFit(frames, max)
    ensures Deliverable(later, max) == Deliverable(frames, max) && !AllFit(later, max)
  {
    hide Deliverable, AllFit;
    assert later == frames + later[|frames|..];
    DeliverableStops(frames, later[|frames|..], max);
  }

  lemma RunFacts(w: World, calls: seq<Call>)
    requires Inv(w) && AllOk(calls)
    ensures var w', max := Run(w, calls), w.conn.maxPayload;
            && w.out <= w'.out <= Deliverable(w'.frames, max) && w.frames <= w'.frames
            && (w'.conn.sent || w'.conn.closed ==> AllFit(w'.frames, max))
  {
    var w' := Run(w, calls);
    RunLater(w, calls, 0);
    assert calls[..0] == [] && Run(w, []) == w;
    assert ConnOk(w'.conn, w'.frames, w'.out);
    SentFits(w'.conn, w'.frames, w'.out);
    hide Inv, Run, ConnOk, Deliverable, AllFit;
  }

  lemma SentFits(c: Conn, frames: seq<Frame>, out: seq<byte>)
    requires ConnOk(c, frames, out)
    ensures out <= Deliverable(frames, c.maxPayload)
    ensures c.sent || c.closed ==> AllFit(frames, c.maxPayload)
  {
    OutIsPrefix(c, frames, out);
    hide Track, Good, Deliverable, AllFit;
  }

  lemma PartIsOversize(c: Conn, text: bool, info: Flags, data: seq<byte>, d: Draw)
    requires IsObject(data) && c.maxPayload + HEADER_MAX < WireLength(|data|)
    requires SendStream(c, text, info, data, d).code == OK
    ensures var r := SendStream(c, text, info, data, d); |r.frames| == 1 && !Fits(r.frames[0], c.maxPayload)
  {
    hide Enqueued, WireBytes;
  }

  lemma LastDoesNotFit(frames: seq<Frame>, f: Frame, max: nat)
    requires !Fits(f, max)
    ensures !AllFit(frames + [f], max)
  {
    assert (frames + [f])[|frames|] == f;
  }

  /** A part of a stream whose frame is larger than the buffer is accepted, and from then on no
      octet is given to curl beyond those of the frames accepted before it: none at all if the
      queue was empty. */
  lemma AcceptedButBlocking(w: World, text: bool, info: Flags, data: seq<byte>, d: Draw, calls: seq<Call>)
    requires Inv(w) && AllOk(calls) && IsObject(data) && w.conn.maxPayload + HEADER_MAX < WireLength(|data|)
    requires SendStream(w.conn, text, info, data, d).code == OK
    ensures 0 < w.conn.maxPayload && QueueOk(w.conn.queue) && Wf(w.recv)
    ensures var w1 := Act(w, UserCalls([StreamPart(text, info, data, d)]));
            && Inv(w1)
            && var w' := Run(w1, calls);
            && w'.out <= Deliverable(w.frames, w.conn.maxPayload) && !w'.conn.sent && !w'.conn.closed
            && (w.conn.queue == [] ==> w'.out == w.out)
  {
    hide WireLength, FrameSenderData, Core;
    AcceptsOversize(w, text, info, data, d);
    if w.conn.queue == [] { DrainedFits(w.conn, w.frames, w.out); }
    hide SendStream, Run, Act, ConnOk, Deliverable, AllFit, Inv, AllOk;
    NothingPasses(Act(w, UserCalls([StreamPart(text, info, data, d)])), calls);
  }

  lemma AcceptsOversize(w: World, text: bool, info: Flags, data: seq<byte>, d: Draw)
    requires Inv(w) && IsObject(data) && w.conn.maxPayload + HEADER_MAX < WireLength(|data|)
    requires SendStream(w.conn, text, info, data, d).code == OK
    ensures 0 < w.conn.maxPayload && QueueOk(w.conn.queue) && Wf(w.recv)
    ensures var w1, max := Act(w, UserCalls([StreamPart(text, info, data, d)])), w.conn.maxPayload;
            && Inv(w1) && w1.conn.maxPayload == max && w1.out == w.out
            && !AllFit(w1.frames, max) && Deliverable(w1.frames, max) == Deliverable(w.frames, max)
  {
    hide SendStream, Act, NodeFor, Deliverable, AllFit, Fits;
    var api := StreamPart(text, info, data, d);
    ActOne(w, api);
    ActKeeps(w, UserCalls([api]));
    hide Inv;
    PartIsOversize(w.conn, text, info, data, d);
    var w1, f, max := Act(w, UserCalls([api])), SendStream(w.conn, text, info, data, d).frames[0], w.conn.maxPayload;
    assert w1.frames == w.frames + [f];
    LastDoesNotFit(w.frames, f, max);
    DeliverableAppend(w.frames, f, max);
    NoOctets(f, max);
    assert Deliverable(w.frames, max) + [] == Deliverable(w.frames, max);
  }

  lemma NoOctets(f: Frame, max: nat)
    requires !Fits(f, max)
    ensures NodeFor(f, max).bytes == []
  {}
}
