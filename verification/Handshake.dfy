/**
 * When the closing handshake ends, and when it cannot.
 */
module Handshake {
  import opened Bytes
  import opened Utf8
  import opened Utf8Theory
  import opened Frames
  import opened Events
  import opened ReceiveSpec
  import opened SendSpec
  import opened ClientSpec
  import opened ClientTheory
  import opened Connection

  // ----- It ends -----

  /** How many more times curl can be given octets before the connection is CLOSED. */
  function Left(c: Conn): nat
    requires QueueOk(c.queue)
  {
    if c.closed then 0 else if c.sent then 1 else 1 + |Pending(c.queue)|
  }

  /** A close frame is on its way, nothing stands in front of it, and the peer has closed. */
  predicate Ending(w: World) {
    w.conn.received && HasClose(w.frames) && AllFit(w.frames, w.conn.maxPayload)
  }

  lemma UnsentIsQueued(c: Conn, frames: seq<Frame>, out: seq<byte>)
    requires ConnOk(c, frames, out) && HasClose(frames) && AllFit(frames, c.maxPayload) && !c.sent
    ensures c.queue != [] && c.queue[0].bytes != [] && 0 < |Pending(c.queue)|
  {
    hide NodeFor, Good;
    HeadFitsUnlessEmpty(c, frames, out);
    PendingPositive(c.queue);
  }

  lemma HeadFitsUnlessEmpty(c: Conn, frames: seq<Frame>, out: seq<byte>)
    requires ConnOk(c, frames, out) && AllFit(frames, c.maxPayload)
    ensures c.queue == [] || c.queue[0].bytes != []
  {
    if c.queue != [] { HeadFits(c, frames, out); }
  }

  lemma TakeDecreases(w: World, len: nat)
    requires Inv(w) && Ending(w)
    ensures 0 < w.conn.maxPayload && QueueOk(w.conn.queue)
    ensures var w' := Act(w, CurlTakes(len));
            && Inv(w') && Ending(w') && QueueOk(w'.conn.queue) && Left(w'.conn) <= Left(w.conn)
            && (w.conn.closed || len == 0 || Left(w'.conn) < Left(w.conn))
  {
    ActKeeps(w, CurlTakes(len));
    if !w.conn.sent {
      UnsentIsQueued(w.conn, w.frames, w.out);
      FillIsNextOctets(w.conn.queue, len);
    }
    hide Fill, Track, GoodFrames, Deliverable, NodeFor, AllFit, Pending;
  }

  /** Calls and octets that come in between change nothing any more. */
  lemma OthersChangeNothing(w: World, call: Call)
    requires Inv(w) && Ending(w) && CallOk(call) && !call.CurlTakes?
    requires 0 < w.conn.maxPayload && QueueOk(w.conn.queue) && Wf(w.recv)
    ensures Act(w, call).conn == w.conn && Act(w, call).frames == w.frames
  {
    hide Receive, Pipe, AllFit;
    assert w.conn.queued && w.recv == Closed;
    assert w.frames + [] == w.frames;
    if call.UserCalls? {
      AllAreDeaf(w.conn, call.apis);
    } else {
      ClosedStays(w.recv, call.octets);
    }
    hide DoAll;
  }

  /** How often curl asks for octets. */
  function Offers(calls: seq<Call>): nat {
    if calls == [] then 0
    else
      var n := |calls| - 1;
      Offers(calls[..n]) + if calls[n].CurlTakes? && 0 < calls[n].len then 1 else 0
  }

  /** Once both sides have closed, curl is told to shut the connection after it has asked at
      most once for every octet still to send, and once more, whatever else is called or
      arrives in between. */
  lemma {:induction false} HandshakeEnds(w: World, calls: seq<Call>)
    requires Inv(w) && Ending(w) && QueueOk(w.conn.queue) && AllOk(calls)
    ensures var w' := Run(w, calls);
            && QueueOk(w'.conn.queue) && Ending(w')
            && (w'.conn.closed || Left(w'.conn) + Offers(calls) <= Left(w.conn))
            && (Left(w.conn) <= Offers(calls) ==> w'.conn.closed)
  {
    if calls != [] {
      var n := |calls| - 1;
      var before := Run(w, calls[..n]);
      HandshakeEnds(w, calls[..n]);
      RunUnfold(w, calls);
      InvReady(before);
      hide Run, Ending, Inv, QueueOk, Act, Left;
      OneMore(before, calls[n]);
    }
    LeftPositive(Run(w, calls).conn);
  }

  lemma LeftPositive(c: Conn)
    requires QueueOk(c.queue)
    ensures Left(c) == 0 <==> c.closed
  {}

  lemma OneMore(w: World, call: Call)
    requires Inv(w) && Ending(w) && CallOk(call)
    requires 0 < w.conn.maxPayload && QueueOk(w.conn.queue) && Wf(w.recv)
    ensures var w' := Act(w, call);
            && Ending(w') && QueueOk(w'.conn.queue) && (w.conn.closed ==> w'.conn.closed)
            && Left(w'.conn) <= Left(w.conn)
            && (w.conn.closed || (call.CurlTakes? && 0 < call.len ==> Left(w'.conn) < Left(w.conn)))
  {
    ActKeeps(w, call);
    if call.CurlTakes? {
      TakeDecreases(w, call.len);
    } else {
      OthersChangeNothing(w, call);
    }
    hide Act, Inv, Left, QueueOk;
  }

  // ----- Asking for it -----

  /** cws_close on a connection that has not asked for a close before queues a close frame
      exactly when the inputs are accepted, the code is not negative and there is memory; the
      frame carries the code and the reason. */
  lemma CloseQueuesExactly(c: Conn, code: int, reason: seq<byte>, d: Draw)
    requires !c.queued
    ensures var r := ClientSpec.Close(c, code, reason, d);
            && (r.frames != [] <==> NormalizeClose(code, reason).Normal? && 0 <= code && d.mem)
            && (r.frames != [] ==> |r.frames| == 1 && r.frames[0].opcode == CLOSE && r.code == OK
                                   && r.frames[0].payload == ClosePayload(code, reason))
            && (r.conn.queued <==> NormalizeClose(code, reason).Normal?)
  {
    hide NodeFor, Enqueued;
  }

  /** The codes and reasons cws_close accepts: those that section 7.4 of RFC 6455 lets an endpoint
      send; the reason is UTF-8 and not longer than 122 octets. */
  lemma CloseAccepts(code: int, reason: seq<byte>)
    ensures NormalizeClose(code, reason).Normal? <==>
            && IsText(reason) && |reason| <= 122
            && var status := if code < 0 then -code else code;
               if code == 0 || code == -1 then reason == []
               else status in {1000, 1001, 1002, 1003, 1007, 1008, 1009, 1010, 1011} || 3000 <= status <= 4999
  {
    TextIsWhole(reason);
    hide WholePrefix, IsText;
  }

  /** What it says of the others, the reason before the code. */
  lemma CloseRefuses(c: Conn, code: int, reason: seq<byte>, d: Draw)
    requires NormalizeClose(code, reason).Refused?
    ensures ClientSpec.Close(c, code, reason, d) ==
            Result(c, if !IsText(reason) then INVALID_UTF8
                      else if 122 < |reason| then APP_DATA_LENGTH_TOO_LONG else INVALID_CLOSE_REASON_CODE, [])
  {
    TextIsWhole(reason);
    hide WholePrefix, IsText;
  }

  /** The reasons that the receiver gives, in octets. */
  lemma ReasonOctets()
    ensures Text("invalid close reason") == [0x69, 0x6E, 0x76, 0x61, 0x6C, 0x69, 0x64, 0x20, 0x63, 0x6C, 0x6F, 0x73, 0x65,
                                             0x20, 0x72, 0x65, 0x61, 0x73, 0x6F, 0x6E]
    ensures Text("invalid close payload length")
         == [0x69, 0x6E, 0x76, 0x61, 0x6C, 0x69, 0x64, 0x20, 0x63, 0x6C, 0x6F, 0x73, 0x65, 0x20,
             0x70, 0x61, 0x79, 0x6C, 0x6F, 0x61, 0x64, 0x20, 0x6C, 0x65, 0x6E, 0x67, 0x74, 0x68]
    ensures Text("") == []
  {}

  /** The shutdown of a connection on which no close was asked for queues one close frame with the
      status and the reason, if there is memory, and marks both sides as closed. */
  lemma ShutExactly(c: Conn, e: Event, d: Draw)
    requires e.Shut? && Closable(e) && !c.received && !c.queued
    ensures var r := AnswerShut(c, e, d);
            && r.conn.received && r.conn.queued
            && r.frames == if !d.mem then []
                           else var p := if e.code == 0 then [] else BigEndian(e.code, 2) + Text(e.why);
                                [Frame(true, true, true, false, CLOSE, d.key, |p|, p)]
  {
    hide NodeFor, Enqueued, Text, WholePrefix;
    if e.code != 0 { BigEndianOf2(e.code); }
  }

  /** After a close was asked for without a close frame being accepted, no run ever sends one
      and curl is never told to shut the connection. */
  lemma NeverShut(w: World, calls: seq<Call>)
    requires Inv(w) && AllOk(calls) && w.conn.queued && !HasClose(w.frames)
    ensures var w' := Run(w, calls); w'.frames == w.frames && !w'.conn.sent && !w'.conn.closed
  {
    RunLater(w, calls, 0);
    assert calls[..0] == [];
    hide Run, Deliverable, Track;
  }

  lemma UrgentIsRefused(c: Conn, code: int, reason: seq<byte>, d: Draw)
    requires !c.queued && code < 0 && NormalizeClose(code, reason).Normal?
    ensures ClientSpec.Close(c, code, reason, d) == Result(c.(queued := true), INVALID_OPTIONS, [])
  {
    hide ClosePayload;
  }

  /** A negative code asks for an urgent close, which is refused as an invalid option and yet
      recorded as queued: from then on the handshake can never end. */
  lemma UrgentCloseNeverEnds(w: World, code: int, reason: seq<byte>, d: Draw, calls: seq<Call>)
    requires Inv(w) && AllOk(calls) && !w.conn.queued && code < 0 && NormalizeClose(code, reason).Normal?
    ensures 0 < w.conn.maxPayload && QueueOk(w.conn.queue)
    ensures ClientSpec.Close(w.conn, code, reason, d).code == INVALID_OPTIONS
    ensures var w1 := Act(w, UserCalls([SendClose(code, reason, d)]));
            Inv(w1) && var w' := Run(w1, calls); w'.frames == w.frames && !w'.conn.sent && !w'.conn.closed
  {
    UrgentIsRefused(w.conn, code, reason, d);
    assert !HasClose(w.frames);
    ActOne(w, SendClose(code, reason, d));
    ActKeeps(w, UserCalls([SendClose(code, reason, d)]));
    hide NormalizeClose, Inv, Act, Run, ClientSpec.Close, Later;
    assert w.frames + [] == w.frames;
    NeverShut(Act(w, UserCalls([SendClose(code, reason, d)])), calls);
  }
}
