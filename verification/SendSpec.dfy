/**
 * src/send.c on values: the queue of encoded frames and what curl is given from it.
 */
module SendSpec {
  import opened Bytes
  import opened Frames

  /** struct cws_buf_queue: `bytes` are the `written` octets of the buffer. */
  datatype Node = Node(bytes: seq<byte>, sent: nat, isClose: bool)

  type Queue = seq<Node>

  predicate NodeOk(n: Node) {
    n.sent <= |n.bytes| && (n.bytes != [] ==> n.sent < |n.bytes|)
  }

  predicate NodesOk(q: Queue) {
    forall i {:trigger q[i]} :: 0 <= i < |q| ==> NodeOk(q[i])
  }

  /** Only the head can be partly sent, and no finished node stays. */
  predicate QueueOk(q: Queue) {
    NodesOk(q) && forall i :: 1 <= i < |q| ==> q[i].sent == 0
  }

  /** The node send_frame makes; frame_encode writes nothing when the frame does not fit. */
  function NodeFor(f: Frame, maxPayload: nat): Node {
    var size := if f.isControl then CTL_FRAME_MAX else maxPayload + HEADER_MAX;
    Node(if WireLength(f.payloadLen) <= size then WireBytes(f) else [], 0, f.opcode == CLOSE)
  }

  /** send_frame: last, or if urgent first but for a partly sent head. */
  function Enqueued(q: Queue, n: Node, urgent: bool): Queue {
    if q == [] then [n]
    else if !urgent then q + [n]
    else if 0 < q[0].sent then [q[0], n] + q[1..]
    else [n] + q
  }

  datatype Filled = Filled(out: seq<byte>, queue: Queue, closeSent: bool)

  /** _fill_outgoing_buffer: hands out the queue until the buffer is full, the queue is empty,
      a close frame is complete (the rest is discarded) or a node holds nothing. */
  function Fill(q: Queue, len: nat): (r: Filled)
    requires QueueOk(q)
  {
    if q == [] || len == 0 || q[0].bytes == [] then Filled([], q, false)
    else
      var n := q[0];
      var lesser := Min(len, |n.bytes| - n.sent);
      var now := n.bytes[n.sent..n.sent + lesser];
      if n.sent + lesser < |n.bytes| then Filled(now, q[0 := n.(sent := n.sent + lesser)], false)
      else if n.isClose then Filled(now, [], true)
      else
        var rest := Fill(q[1..], len - lesser);
        Filled(now + rest.out, rest.queue, rest.closeSent)
  }

  // ----- The queue as one string of octets -----

  /** Everything that can still be sent: the frames in order, up to and including the first
      close frame; a frame that did not fit its buffer blocks all that follow it. */
  function Pending(q: Queue): seq<byte>
    requires NodesOk(q)
  {
    if q == [] || q[0].bytes == [] then []
    else q[0].bytes[q[0].sent..] + if q[0].isClose then [] else Pending(q[1..])
  }

  /** A close frame, with nothing in the way, is among what can be sent. */
  predicate CloseAhead(q: Queue) {
    q != [] && q[0].bytes != [] && (q[0].isClose || CloseAhead(q[1..]))
  }

  /** No frame stops the queue: none is a close frame and all fitted their buffers. */
  predicate Flows(q: Queue) {
    forall i :: 0 <= i < |q| ==> q[i].bytes != [] && !q[i].isClose
  }

  /** Draining hands out exactly the next octets of the pending string, whatever the size of
      the buffer; nothing is lost or repeated. */
  lemma {:induction false} FillIsNextOctets(q: Queue, len: nat)
    requires QueueOk(q)
    ensures var r := Fill(q, len);
            && QueueOk(r.queue)
            && r.out == Pending(q)[..Min(len, |Pending(q)|)]
            && Pending(r.queue) == Pending(q)[|r.out|..]
            && (r.closeSent <==> CloseAhead(q) && |Pending(q)| <= len)
            && (r.closeSent ==> r.queue == [])
  {
    if q != [] && q[0].bytes != [] {
      var n := q[0];
      var left := n.bytes[n.sent..];
      if len < |left| {
        FillPart(q, len);
      } else if n.isClose {
        FillClose(q, len);
      } else {
        FillOn(q, len);
        hide Fill, QueueOk, NodesOk, Pending, CloseAhead;
        FillIsNextOctets(q[1..], len - |left|);
        TakeConcat(left, Pending(q[1..]), len);
      }
    }
  }

  lemma FillClose(q: Queue, len: nat)
    requires QueueOk(q) && q != [] && q[0].bytes != [] && q[0].isClose && |q[0].bytes| - q[0].sent <= len
    ensures var left := q[0].bytes[q[0].sent..];
            Fill(q, len) == Filled(left, [], true) && Pending(q) == left && CloseAhead(q)
  {
    var n := q[0];
    assert n.bytes[n.sent..n.sent + (|n.bytes| - n.sent)] == n.bytes[n.sent..] + [];
  }

  lemma FillOn(q: Queue, len: nat)
    requires QueueOk(q) && q != [] && q[0].bytes != [] && !q[0].isClose && |q[0].bytes| - q[0].sent <= len
    ensures QueueOk(q[1..])
    ensures var left := q[0].bytes[q[0].sent..];
            var rest := Fill(q[1..], len - |left|);
            && Fill(q, len) == Filled(left + rest.out, rest.queue, rest.closeSent)
            && Pending(q) == left + Pending(q[1..])
            && (CloseAhead(q) <==> CloseAhead(q[1..]))
  {
    var n := q[0];
    assert n.bytes[n.sent..n.sent + (|n.bytes| - n.sent)] == n.bytes[n.sent..];
  }

  lemma TakeConcat(left: seq<byte>, rest: seq<byte>, len: nat)
    requires |left| <= len
    ensures var k := Min(len - |left|, |rest|);
            Min(len, |left + rest|) == |left| + k
            && (left + rest)[..|left| + k] == left + rest[..k]
            && (left + rest)[|left| + k..] == rest[k..]
            && |left + rest[..k]| == |left| + k
  {}

  lemma FillPart(q: Queue, len: nat)
    requires QueueOk(q) && q != [] && q[0].bytes != [] && len < |q[0].bytes| - q[0].sent
    ensures var r := Fill(q, len);
            && QueueOk(r.queue) && !r.closeSent && len < |Pending(q)|
            && r.out == Pending(q)[..len] && Pending(r.queue) == Pending(q)[len..]
  {
    var n := q[0];
    var left := n.bytes[n.sent..];
    PartSlices(n.bytes, n.sent, len, if n.isClose then [] else Pending(q[1..]));
    if len > 0 {
      var q' := q[0 := n.(sent := n.sent + len)];
      PartIsOk(q, n.sent + len);
      hide QueueOk, NodesOk;
      assert Fill(q, len) == Filled(left[..len], q', false);
    }
  }

  lemma PartSlices(x: seq<byte>, sent: nat, len: nat, rest: seq<byte>)
    requires sent + len < |x|
    ensures var left := x[sent..];
            && left[..len] == x[sent..sent + len] && left[len..] == x[sent + len..]
            && (left + rest)[..len] == left[..len] && (left + rest)[len..] == left[len..] + rest
            && len < |left + rest| && (left + rest)[0..] == left + rest && left[0..] == left
  {}

  lemma PartIsOk(q: Queue, sent: nat)
    requires QueueOk(q) && q != [] && sent < |q[0].bytes|
    ensures var q' := q[0 := q[0].(sent := sent)]; QueueOk(q') && q'[1..] == q[1..] && q'[0] == q[0].(sent := sent)
  {}

  lemma PendingPositive(q: Queue)
    requires QueueOk(q)
    ensures q != [] && q[0].bytes != [] ==> 0 < |Pending(q)|
  {}

  /** Progress: curl gets at least one octet unless it asked for none or the head never fitted. */
  lemma FillProgress(q: Queue, len: nat)
    requires QueueOk(q) && q != []
    ensures Fill(q, len).out == [] <==> len == 0 || q[0].bytes == []
  {
    FillIsNextOctets(q, len);
    PendingPositive(q);
  }

  lemma EnqueuedOk(q: Queue, n: Node, urgent: bool)
    requires QueueOk(q) && NodeOk(n) && n.sent == 0
    ensures QueueOk(Enqueued(q, n, urgent))
  {}

  lemma {:induction false} PendingOfFlow(q: Queue, more: Queue)
    requires NodesOk(q)
    requires NodesOk(more)
    requires Flows(q)
    ensures Pending(q + more) == Pending(q) + Pending(more)
    ensures CloseAhead(q + more) <==> CloseAhead(more)
  {
    if q == [] {
      assert q + more == more && [] + Pending(more) == Pending(more);
    } else {
      QueueCons(q, more);
      hide NodesOk, Flows;
      PendingOfFlow(q[1..], more);
      ConcatAssoc(q[0].bytes[q[0].sent..], Pending(q[1..]), Pending(more));
    }
  }

  lemma ConcatAssoc(x: seq<byte>, y: seq<byte>, z: seq<byte>)
    ensures x + y + z == x + (y + z)
  {}

  lemma QueueCons(q: Queue, more: Queue)
    requires q != [] && NodesOk(q) && NodesOk(more)
    ensures (q + more)[0] == q[0] && (q + more)[1..] == q[1..] + more
    ensures NodesOk(q + more) && NodesOk(q[1..]) && NodeOk(q[0])
    ensures Flows(q) ==> Flows(q[1..]) && q[0].bytes != [] && !q[0].isClose
  {}

  lemma {:induction false} PendingStopped(q: Queue, more: Queue)
    requires NodesOk(q)
    requires NodesOk(more)
    requires !Flows(q)
    ensures Pending(q + more) == Pending(q)
    ensures CloseAhead(q + more) <==> CloseAhead(q)
  {
    assert (q + more)[1..] == q[1..] + more;
    if q[0].bytes != [] && !q[0].isClose {
      PendingStopped(q[1..], more);
    }
  }

  /** An ordinary frame is sent after all that is queued, if anything after it can be sent. */
  lemma FifoPending(q: Queue, n: Node)
    requires QueueOk(q) && NodeOk(n) && n.sent == 0
    ensures Pending(Enqueued(q, n, false)) == Pending(q) + if Flows(q) then n.bytes else []
  {
    assert Pending([n]) == n.bytes by { assert n.bytes[0..] == n.bytes; }
    if q != [] {
      if Flows(q) { PendingOfFlow(q, [n]); } else { PendingStopped(q, [n]); }
    }
  }

  /** What remains of a head that is partly out. */
  function StartedHead(q: Queue): seq<byte>
    requires NodesOk(q)
  {
    if q != [] && 0 < q[0].sent then q[0].bytes[q[0].sent..] else []
  }

  /** An urgent frame is sent next, but never inside a frame that is partly out, and not at all
      if that frame is the close frame; if it is a close frame itself, or does not fit its
      buffer, nothing is sent after it. */
  lemma UrgentPending(q: Queue, n: Node)
    requires QueueOk(q) && NodeOk(n) && n.sent == 0
    ensures var done := StartedHead(q);
            && done <= Pending(q)
            && Pending(Enqueued(q, n, true)) ==
               done + if done != [] && q[0].isClose then []
                      else n.bytes + if n.isClose || n.bytes == [] then [] else Pending(q)[|done|..]
  {
    if q == [] || q[0].sent == 0 {
      UrgentFirst(q, n);
    } else {
      UrgentSecond(q, n);
    }
  }

  lemma UrgentFirst(q: Queue, n: Node)
    requires QueueOk(q) && NodeOk(n) && n.sent == 0 && (q == [] || q[0].sent == 0)
    ensures Pending(Enqueued(q, n, true)) == n.bytes + if n.isClose || n.bytes == [] then [] else Pending(q)
    ensures StartedHead(q) == [] && Pending(q)[0..] == Pending(q)
  {
    assert Enqueued(q, n, true) == [n] + q;
    assert ([n] + q)[1..] == q && n.bytes[0..] == n.bytes;
  }

  lemma UrgentSecond(q: Queue, n: Node)
    requires QueueOk(q) && NodeOk(n) && n.sent == 0 && q != [] && 0 < q[0].sent
    ensures var done := StartedHead(q);
            && done <= Pending(q) && done != []
            && Pending(Enqueued(q, n, true)) ==
               done + if q[0].isClose then []
                      else n.bytes + if n.isClose || n.bytes == [] then [] else Pending(q)[|done|..]
  {
    hide QueueOk, NodesOk, Enqueued, Pending;
    RestIsOk(q);
    var rest, done := q[1..], StartedHead(q);
    EnqueuedOk(q, n, true);
    UrgentRest(q, n);
    StartedIs(q);
    StartedIs(Enqueued(q, n, true));
    if q[0].isClose {
      assert done + [] == done;
    } else {
      UrgentFirst(rest, n);
      assert (done + Pending(rest))[|done|..] == Pending(rest);
    }
  }

  /** A queue whose head is partly out. */
  lemma StartedIs(q: Queue)
    requires QueueOk(q) && q != [] && 0 < q[0].sent
    ensures QueueOk(q[1..]) && NodeOk(q[0]) && StartedHead(q) == q[0].bytes[q[0].sent..] != []
    ensures Pending(q) == StartedHead(q) + if q[0].isClose then [] else Pending(q[1..])
  {
    RestIsOk(q);
  }

  /** Behind such a head an urgent frame is first. */
  lemma UrgentRest(q: Queue, n: Node)
    requires QueueOk(q) && q != [] && 0 < q[0].sent
    ensures var u := Enqueued(q, n, true); u != [] && u[0] == q[0] && u[1..] == Enqueued(q[1..], n, true)
  {
    RestIsOk(q);
    assert ([q[0], n] + q[1..])[1..] == [n] + q[1..] && (q[1..] == [] ==> [n] + q[1..] == [n]);
  }

  lemma RestIsOk(q: Queue)
    requires QueueOk(q) && q != []
    ensures NodesOk(q) && QueueOk(q[1..]) && (q[1..] == [] || q[1..][0].sent == 0)
  {
    assert forall i :: 0 <= i < |q| - 1 ==> q[1..][i] == q[i + 1];
  }
}
