/**
 * src/receive.c as functions on values: what one call of each function does to the receive
 * state, how many octets it takes and what it reports.  The class in Receive.dfy is proved
 * to compute these functions in place.
 */
module ReceiveSpec {
  import opened Bytes
  import opened Utf8
  import opened Frames
  import opened FrameTheory
  import opened Events

  datatype Stream = NoStream | TextStream | BinaryStream

  /** The receive state between and during calls.  Once CLOSE_RECEIVED is set nothing else in
      it is ever read again. */
  datatype Recv =
    | Closed
    | Open(header: seq<byte>, needed: nat, frame: Option<Frame>, control: seq<byte>,
           stash: seq<byte>, more: nat, stream: Stream, info: Flags)

  const INITIAL: Recv := Open([], 0, None, [], [], 0, NoStream, NO_FLAGS)

  datatype Step = Step(next: Recv, used: nat, events: seq<Event>)

  /** _error_close. */
  function Fail(code: nat): Step {
    Step(Closed, 0, [Shut(code, "")])
  }

  // ----- _process_frame_header -----

  function Wanted(r: Recv): nat
    requires r.Open?
  {
    if r.needed == 0 then HEADER_MIN else r.needed
  }

  function HeaderStep(r: Recv, buf: seq<byte>): (s: Step)
    requires r.Open? && r.frame.None?
    ensures s.used <= |buf|
  {
    var min := Min(Wanted(r), |buf|);
    var header := r.header + buf[..min];
    match Decode(header)
    case Bad(_) => Fail(1002)
    case Need(k) => Step(r.(header := header, needed := k), min, [])
    case Got(f, _) =>
      if FrameValidate(f, ServerToClient) != 0 then Fail(1002)
      else AcceptFrame(r.(header := [], needed := Wanted(r) - min), f, min)
  }

  /** The part of _cws_process_frame that decides whether a data frame may come now. */
  function AcceptFrame(r: Recv, f: Frame, used: nat): (s: Step)
    requires r.Open?
    ensures s.used <= used
  {
    if f.isControl then Step(r.(frame := Some(f)), used, [])
    else if r.info == NO_FLAGS && f.opcode == BINARY then
      Step(r.(frame := Some(f), stream := BinaryStream, info := CWS_BINARY.(first := true)), used, [])
    else if r.info == NO_FLAGS && f.opcode == TEXT then
      Step(r.(frame := Some(f), stream := TextStream, info := CWS_TEXT.(first := true)), used, [])
    else if r.stream != NoStream && f.opcode == CONTINUATION then
      Step(r.(frame := Some(f), info := Continued(r.info)), used, [])
    else Fail(1002)
  }

  /** The type bits replaced by CWS_CONT. */
  function Continued(info: Flags): Flags {
    info.(cont := true, binary := false, text := false)
  }

  // ----- _process_control_frame and _handle_close -----

  function ControlStep(r: Recv, buf: seq<byte>): (s: Step)
    requires r.Open? && r.frame.Some?
    requires |r.control| <= r.frame.value.payloadLen
    ensures s.used <= |buf|
  {
    var f := r.frame.value;
    var min := Min(f.payloadLen - |r.control|, |buf|);
    var payload := r.control + buf[..min];
    if |payload| < f.payloadLen then Step(r.(control := payload), min, [])
    else if f.opcode == PING then
      Step(r.(frame := None, header := [], needed := HEADER_MIN, control := []), min, [Ping(payload)])
    else if f.opcode == PONG then
      Step(r.(frame := None, header := [], needed := HEADER_MIN, control := []), min, [Pong(payload)])
    else Step(Closed, min, CloseEvents(payload))
  }

  function CloseEvents(payload: seq<byte>): seq<Event> {
    if payload == [] then [Closing(1005, []), Shut(0, "")]
    else if |payload| == 1 then [Shut(1002, "invalid close payload length")]
    else
      var status := payload[0] as int * 0x100 + payload[1];
      if !IsCloseCodeValid(status) then [Shut(1002, "invalid close reason")]
      else if WholePrefix(payload[2..]) != Some(|payload| - 2) then [Shut(1007, "")]
      else [Closing(status, payload[2..]), Shut(status, "")]
  }

  // ----- _process_text_stream -----

  datatype TextResult = TextBad | TextOk(stash: seq<byte>, more: nat, send: seq<byte>)

  /** `final`: these are the last octets of the last frame of a message. */
  function TextStep(stash: seq<byte>, more: nat, final: bool, p: seq<byte>): (t: TextResult)
    requires |stash| + more <= 4
  {
    if more > 0 then CompleteStash(stash, more, p)
    else
      match WholePrefix(p)
      case None => TextBad
      case Some(valid) =>
        if valid == |p| then TextOk([], 0, p)
        else if final || GetSize(p[valid]) < |p| - valid then TextBad
        else TextOk(p[valid..], GetSize(p[valid]) - (|p| - valid), p[..valid])
  }

  /** Octets beyond the pending character are dropped. */
  function CompleteStash(stash: seq<byte>, more: nat, p: seq<byte>): (t: TextResult)
    requires |stash| + more <= 4
  {
    var len := Min(more, |p|);
    var u := stash + p[..len];
    if len < more then
      if MaybeValidSpec(u) then TextOk(u, more - len, []) else TextBad
    else
      if WholePrefix(u) == Some(|u|) then TextOk([], 0, u) else TextBad
  }

  // ----- _process_data_frame and _send_data_frame -----

  predicate StashFits(r: Recv)
    requires r.Open?
  {
    |r.stash| + r.more <= 4
  }

  function DataStep(r: Recv, buf: seq<byte>): (s: Step)
    requires r.Open? && r.frame.Some? && StashFits(r)
    ensures s.used <= |buf|
  {
    var f := r.frame.value;
    var min := Min(f.payloadLen, |buf|);
    if r.stream == TextStream then
      TextSend(r, min, TextStep(r.stash, r.more, f.fin && f.payloadLen <= min, buf[..min]))
    else SendStep(r, min, buf[..min])
  }

  function TextSend(r: Recv, min: nat, t: TextResult): (s: Step)
    requires r.Open? && r.frame.Some? && min <= r.frame.value.payloadLen
    ensures s.used <= min
  {
    match t
    case TextBad => Fail(1007)
    case TextOk(stash, more, send) => SendStep(r.(stash := stash, more := more), min, send)
  }

  function SendStep(r: Recv, min: nat, send: seq<byte>): (s: Step)
    requires r.Open? && r.frame.Some? && min <= r.frame.value.payloadLen
    ensures s.used == min
  {
    var f := r.frame.value;
    var o := SendOutcome(f.(payloadLen := f.payloadLen - min), r.info, r.stream, send);
    Step(r.(frame := o.frame, info := o.info, stream := o.stream), min, o.events)
  }

  /** An empty fragment is reported only when it begins or ends a message. */
  function FragmentEvents(info: Flags, send: seq<byte>): seq<Event> {
    if send != [] || info.first || info.last then [Fragment(info, send)] else []
  }

  datatype Outcome = Outcome(frame: Option<Frame>, info: Flags, stream: Stream, events: seq<Event>)

  function SendOutcome(f: Frame, info0: Flags, stream: Stream, send: seq<byte>): Outcome {
    var done := f.payloadLen == 0;
    var info := info0.(last := info0.last || (done && f.fin));
    var events := FragmentEvents(info, send);
    var frame := if done then None else Some(f);
    if info.last then Outcome(frame, NO_FLAGS, NoStream, events)
    else Outcome(frame, Continued(info).(first := false), stream, events)
  }

  // ----- What holds between calls -----

  /** Nothing is kept when nothing is needed; otherwise kept and needed octets make a character. */
  predicate StashShape(stash: seq<byte>, more: nat) {
    if more == 0 then stash == [] else stash != [] && |stash| + more == GetSize(stash[0])
  }

  predicate StashOk(r: Recv)
    requires r.Open?
  {
    StashShape(r.stash, r.more)
  }

  predicate Wf(r: Recv) {
    r.Open? ==>
      && StashOk(r)
      && (r.info == NO_FLAGS || r.info == CWS_CONT)
      && (r.info == NO_FLAGS <==> r.stream == NoStream)
      && match r.frame
         case None =>
           && r.control == []
           && Decode(r.header) == Need(Wanted(r))
         case Some(f) =>
           && r.header == [] && r.needed == 0
           && f.isControl == IsControlOpcode(f.opcode)
           && (f.isControl || IsDataOpcode(f.opcode))
           && if f.isControl then |r.control| < f.payloadLen <= CTL_PAYLOAD_MAX
              else r.control == [] && 0 < f.payloadLen && r.stream != NoStream
  }

  /** The same when a header has just been completed: the first payload octets are still to
      come, even for an empty payload. */
  predicate WfAtPayload(r: Recv) {
    && r.Open? && r.frame.Some? && StashOk(r)
    && r.header == [] && r.needed == 0
    && var f := r.frame.value;
    && f.isControl == IsControlOpcode(f.opcode)
    && (f.isControl || IsDataOpcode(f.opcode))
    && (r.info == NO_FLAGS <==> r.stream == NoStream)
    && if f.isControl then
         |r.control| <= f.payloadLen <= CTL_PAYLOAD_MAX && (r.info == NO_FLAGS || r.info == CWS_CONT)
       else
         && r.control == [] && r.stream != NoStream
         && (r.info == CWS_CONT
             || r.info == (if r.stream == TextStream then CWS_TEXT else CWS_BINARY).(first := true))
  }

  lemma StashOkFits(r: Recv)
    requires r.Open? && StashOk(r)
    ensures StashFits(r)
  {}

  lemma HeaderStepOk(r: Recv, buf: seq<byte>)
    requires Wf(r) && r.Open? && r.frame.None? && buf != []
    ensures var h := HeaderStep(r, buf);
            && (h.next.Open? ==> 0 < h.used && Wanted(h.next) > 0)
            && (h.next.Open? && h.next.frame.None? ==> Wf(h.next))
            && (h.next.Open? && h.next.frame.Some? ==> WfAtPayload(h.next))
            && h.events == if h.next.Closed? then [Shut(1002, "")] else []
  {
    var min := Min(Wanted(r), |buf|);
    var header := r.header + buf[..min];
    DecodeDeficit(r.header, buf[..min]);
    var d := Decode(header);
    if d.Got? {
      DeficitStaysInHeader(r.header, buf[..min]);
      hide Decode;
      if FrameValidate(d.frame, ServerToClient) == 0 { AcceptOk(r, header, min); }
      hide FrameValidate, AcceptFrame;
    }
  }

  /** A valid header leads to its payload, or is out of place. */
  lemma AcceptOk(r: Recv, header: seq<byte>, used: nat)
    requires Wf(r) && r.Open? && r.frame.None? && 0 < used
    requires Decode(header).Got? && FrameValidate(Decode(header).frame, ServerToClient) == 0
    ensures var s := AcceptFrame(r.(header := [], needed := 0), Decode(header).frame, used);
            && (s.next.Open? ==> 0 < s.used && WfAtPayload(s.next) && s.next.frame.Some? && s.events == [])
            && (s.next.Closed? ==> s.events == [Shut(1002, "")])
  {
    ReceivedIsValid(header, ServerToClient);
    EncodeDecoded(header);
    hide Decode, FrameValidate;
  }

  lemma ControlStepOk(r: Recv, buf: seq<byte>)
    requires WfAtPayload(r) && r.frame.value.isControl
    ensures var s := ControlStep(r, buf); Wf(s.next) && (s.next.Open? && |r.control| < r.frame.value.payloadLen && buf != [] ==> 0 < s.used)
  {
  }

  lemma TextStepOk(stash: seq<byte>, more: nat, final: bool, p: seq<byte>)
    requires StashShape(stash, more)
    ensures |stash| + more <= 4
    ensures match TextStep(stash, more, final, p)
            case TextBad => true
            case TextOk(s, m, send) => StashShape(s, m)
  {
    hide IsChar;
    if more == 0 && WholePrefix(p).Some? && WholePrefix(p).value < |p| { WholePrefixStops(p); }
  }

  lemma DataStepOk(r: Recv, buf: seq<byte>)
    requires WfAtPayload(r) && !r.frame.value.isControl
    ensures var s := DataStep(r, buf); Wf(s.next) && (s.next.Open? && 0 < r.frame.value.payloadLen && buf != [] ==> 0 < s.used)
  {
    hide StashShape, TextStep;
    if r.stream == TextStream {
      var f := r.frame.value;
      var min := Min(f.payloadLen, |buf|);
      TextStepOk(r.stash, r.more, f.fin && f.payloadLen <= min, buf[..min]);
    }
  }

  // ----- _cws_process_frame and _receive_cb -----

  predicate ReadyForPayload(r: Recv) {
    r.Open? && r.frame.Some? && StashFits(r) &&
    (r.frame.value.isControl ==> |r.control| <= r.frame.value.payloadLen)
  }

  function PayloadStep(r: Recv, buf: seq<byte>): (s: Step)
    requires ReadyForPayload(r)
    ensures s.used <= |buf|
  {
    if r.frame.value.isControl then ControlStep(r, buf) else DataStep(r, buf)
  }

  /** The state and the octets left when the payload of a frame is looked at. */
  function AtPayload(r: Recv, buf: seq<byte>): (s: Step)
    requires r.Open?
    ensures s.used <= |buf|
  {
    if r.frame.None? then HeaderStep(r, buf) else Step(r, 0, [])
  }

  function ProcessFrame(r: Recv, buf: seq<byte>): (s: Step)
    requires Wf(r) && r.Open? && buf != []
    ensures s.used <= |buf|
  {
    AtPayloadOk(r, buf);
    var h := AtPayload(r, buf);
    if h.next.Closed? || h.next.frame.None? then h
    else
      Then(h, PayloadStep(h.next, buf[h.used..]))
  }

  /** The loop of _receive_cb: it stops on no progress or when the connection is closed. */
  function Receive(r: Recv, buf: seq<byte>): (s: Step)
    requires Wf(r)
    ensures Wf(s.next)
    decreases |buf|
  {
    if buf == [] || r.Closed? then Step(r, 0, [])
    else
      var s := ProcessFrame(r, buf);
      ProcessFrameKeepsWf(r, buf);
      if s.used == 0 || s.next.Closed? then s else Then(s, Receive(s.next, buf[s.used..]))
  }

  function Then(s: Step, rest: Step): Step {
    Step(rest.next, s.used + rest.used, s.events + rest.events)
  }

  lemma ReceiveUnfold(r: Recv, buf: seq<byte>)
    requires Wf(r)
    ensures buf == [] || r.Closed? ==> Receive(r, buf) == Step(r, 0, [])
    ensures buf != [] && r.Open? ==>
              var s := ProcessFrame(r, buf);
              Wf(s.next) &&
              Receive(r, buf) == if s.used == 0 || s.next.Closed? then s
                                 else Then(s, Receive(s.next, buf[s.used..]))
  {
    hide ProcessFrame, Wf;
    if buf != [] && r.Open? { ProcessFrameKeepsWf(r, buf); }
  }

  /** A sequence of calls of _receive_cb. */
  function ReceiveAll(r: Recv, chunks: seq<seq<byte>>): (s: Step)
    requires Wf(r)
    ensures Wf(s.next)
  {
    if chunks == [] then Step(r, 0, [])
    else
      var n := |chunks| - 1;
      var before := ReceiveAll(r, chunks[..n]);
      Then(before, Receive(before.next, chunks[n]))
  }

  lemma AtPayloadOk(r: Recv, buf: seq<byte>)
    requires Wf(r) && r.Open? && buf != []
    ensures var h := AtPayload(r, buf);
            && (h.next.Open? && h.next.frame.Some? ==> WfAtPayload(h.next))
            && (h.next.Open? && h.next.frame.None? ==> Wf(h.next) && 0 < h.used)
            && (h.next.Open? && r.frame.None? ==> 0 < h.used)
  {
    if r.frame.None? { HeaderStepOk(r, buf); }
  }

  /** Every pass of the loop either takes an octet or closes the connection. */
  lemma ProcessFrameKeepsWf(r: Recv, buf: seq<byte>)
    requires Wf(r) && r.Open? && buf != []
    ensures Wf(ProcessFrame(r, buf).next)
    ensures ProcessFrame(r, buf).next.Open? ==> 0 < ProcessFrame(r, buf).used
  {
    hide ControlStep, DataStep, Decode;
    var h := AtPayload(r, buf);
    AtPayloadOk(r, buf);
    if h.next.Open? && h.next.frame.Some? {
      if h.next.frame.value.isControl {
        ControlStepOk(h.next, buf[h.used..]);
      } else {
        DataStepOk(h.next, buf[h.used..]);
      }
    }
  }

  lemma ProcessFrameUnfold(r: Recv, buf: seq<byte>)
    requires Wf(r) && r.Open? && buf != []
    ensures var h := AtPayload(r, buf);
            if h.next.Closed? || h.next.frame.None? then ProcessFrame(r, buf) == h
            else WfAtPayload(h.next) && ReadyForPayload(h.next) &&
                 ProcessFrame(r, buf) == Then(h, PayloadStep(h.next, buf[h.used..]))
  {
    AtPayloadOk(r, buf);
  }
}
