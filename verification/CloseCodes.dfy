/**
 * Which close frames of a server are told to the user, and how the connection is shut.
 */
module CloseCodes {
  import opened Bytes
  import opened Utf8
  import opened Utf8Theory
  import opened Frames
  import opened FrameTheory
  import opened Events
  import opened ReceiveSpec
  import opened Handlers
  import opened ServerStream

  /** A close frame ends the stream with what its payload says, even inside a message or a
      character. */
  lemma CloseEnds(r: Recv, k: Stream, f: Frame, rest: seq<byte>)
    requires Between(r, k) && HeaderLegal(k, f) && f.opcode == CLOSE
    ensures var s := Receive(r, Octets(f) + rest); s.next == Closed && s.events == CloseEvents(f.payload)
  {
    var m, p := AtFrame(r, f), f.payload;
    FrameAccepted(r, k, f);
    HeaderArrivesAt(r, k, f, p + rest);
    AtClose(m, f, rest);
    hide Between, HeaderLegal, Wf, WfAtPayload, ReadyForPayload, PayloadStep, AtFrame, Arrives, Receive, HeaderBytes, CloseEvents;
    ArrivedOutcome(r, HeaderBytes(f), p, rest, m, true);
  }

  lemma AtClose(m: Recv, f: Frame, rest: seq<byte>)
    requires ReadyForPayload(m) && f.opcode == CLOSE && f.isControl && |f.payload| == f.payloadLen
    requires m.frame == Some(OnWire(f)) && m.control == []
    ensures PayloadStep(m, f.payload + rest) == Step(Closed, |f.payload|, CloseEvents(f.payload))
  {
    hide CloseEvents;
    assert (f.payload + rest)[..|f.payload|] == f.payload && [] + f.payload == f.payload;
  }

  /** The user is told a close with a status exactly when it is one that section 7.4 of RFC 6455
      lets an endpoint send and the reason is UTF-8; it is answered with that status.  Any other
      status is a fault with 1002, and any other reason one with 1007. */
  lemma StatusExactly(r: Recv, k: Stream, f: Frame, status: nat, reason: seq<byte>, rest: seq<byte>)
    requires Between(r, k) && HeaderLegal(k, f) && f.opcode == CLOSE
    requires status < 0x10000 && f.payload == BigEndian(status, 2) + reason
    ensures var s := Receive(r, Octets(f) + rest);
            && s.next == Closed
            && s.events == if !(status in {1000, 1001, 1002, 1003, 1007, 1008, 1009, 1010, 1011} || 3000 <= status <= 4999)
                           then [Shut(1002, "invalid close reason")]
                           else if !IsText(reason) then [Shut(1007, "")]
                           else [Closing(status, reason), Shut(status, "")]
  {
    hide Between, HeaderLegal, Receive, Octets, IsText, WholePrefix, BigEndian;
    CloseEnds(r, k, f, rest);
    ReadsStatus(status, reason);
    TextIsWhole(reason);
  }

  lemma ReadsStatus(status: nat, reason: seq<byte>)
    requires status < 0x10000
    ensures var p := BigEndian(status, 2) + reason; p[0] as int * 0x100 + p[1] == status && p[2..] == reason
  {
    BigEndianOf2(status);
  }

  /** The same as what the user has been told. */
  lemma StatusTold(r: Recv, k: Stream, f: Frame, status: nat, reason: seq<byte>, rest: seq<byte>, a: App)
    requires Between(r, k) && HeaderLegal(k, f) && f.opcode == CLOSE
    requires status < 0x10000 && f.payload == BigEndian(status, 2) + reason
    ensures DeliverAll(a, Receive(r, Octets(f) + rest).events) == App(None, a.out +
              if !(status in {1000, 1001, 1002, 1003, 1007, 1008, 1009, 1010, 1011} || 3000 <= status <= 4999)
              then [ShutDown(1002, "invalid close reason")]
              else if !IsText(reason) then [ShutDown(1007, "")]
              else [GotClose(status, reason), ShutDown(status, "")])
  {
    hide HeaderLegal, Receive, Octets, IsText, DeliverAll, Wf;
    StatusExactly(r, k, f, status, reason, rest);
    var es := Receive(r, Octets(f) + rest).events;
    if |es| == 1 {
      DeliverOne(a, es[0]);
    } else {
      assert es == [es[0]] + [es[1]];
      DeliverConcat(a, [es[0]], [es[1]]);
      DeliverOne(a, es[0]);
      DeliverOne(Deliver(a, es[0]), es[1]);
    }
  }

  /** A close without a status is told as 1005 and answered without one; half a status is a
      fault with 1002. */
  lemma NoStatus(r: Recv, k: Stream, f: Frame, rest: seq<byte>)
    requires Between(r, k) && HeaderLegal(k, f) && f.opcode == CLOSE && |f.payload| < 2
    ensures var s := Receive(r, Octets(f) + rest);
            && s.next == Closed
            && s.events == if f.payload == [] then [Closing(1005, []), Shut(0, "")]
                           else [Shut(1002, "invalid close payload length")]
  {
    CloseEnds(r, k, f, rest);
    hide Between, HeaderLegal, Receive, Octets;
  }
}
