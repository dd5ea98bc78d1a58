/**
 * Exactly what the receiver reports for a frame.
 */
module Fragments {
  import opened Bytes
  import opened Utf8
  import opened Utf8Theory
  import opened Frames
  import opened FrameTheory
  import opened Events
  import opened ReceiveSpec
  import opened Delivery
  import opened ServerStream

  /** The event of a frame that is received whole: its type when it begins a message, CONT when it
      continues one, and whether it is the first and the last; of an empty frame in the middle
      there is none. */
  function EventsOf(f: Frame): seq<Event> {
    var first := f.opcode != CONTINUATION;
    if f.opcode == PING then [Ping(f.payload)]
    else if f.opcode == PONG then [Pong(f.payload)]
    else if f.payload == [] && !first && !f.fin then []
    else [Fragment(Flags(!first, f.opcode == BINARY, f.opcode == TEXT, first, f.fin, false), f.payload)]
  }

  /** A legal frame other than a close, received whole, is reported as this one event, and the
      receiver goes on with what follows. */
  lemma FrameExactly(r: Recv, k: Stream, f: Frame, rest: seq<byte>) returns (r': Recv)
    requires Idle(r, k) && LegalFrame(k, f) && f.opcode != CLOSE
    ensures Idle(r', NextType(k, f))
    ensures var s, t := Receive(r, Octets(f) + rest), Receive(r', rest);
            s.next == t.next && s.events == EventsOf(f) + t.events
  {
    var m := AtFrame(r, f);
    FrameOnWire(r, k, f, rest);
    FrameAccepted(r, k, f);
    AtPayloadExactly(m, k, f, rest);
    hide LegalFrame, Receive, Octets, PayloadStep, AtFrame, AsciiText, AsciiPiece, EventsOf, NextType, WfAtPayload, ReadyForPayload;
    r' := PayloadStep(m, f.payload + rest).next;
  }

  lemma AtPayloadExactly(m: Recv, k: Stream, f: Frame, rest: seq<byte>)
    requires WfAtPayload(m) && ReadyForPayload(m) && LegalFrame(k, f) && f.opcode != CLOSE
    requires m.frame == Some(OnWire(f)) && m.more == 0 && (f.isControl ==> m.control == [])
    requires f.opcode == CONTINUATION ==> m.info == CWS_CONT && m.stream == k
    requires f.opcode == TEXT ==> m.info == CWS_TEXT.(first := true) && m.stream == TextStream
    requires f.opcode == BINARY ==> m.info == CWS_BINARY.(first := true) && m.stream == BinaryStream
    ensures PayloadStep(m, f.payload + rest).events == EventsOf(f)
  {
    var p := f.payload;
    assert (p + rest)[..|p|] == p && [] + p == p;
    StashOkFits(m);
    if !f.isControl && m.stream == TextStream { TextIsWhole(p); }
    hide WholePrefix, IsText;
  }
}
