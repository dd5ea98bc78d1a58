/**
 * The whole connection over all runs: any sequence of calls of the send and close functions,
 * of octets arriving from the server and of offers by curl to take octets, with any sizes,
 * keys and allocation failures.
 */
module Connection {
  import opened Bytes
  import opened Utf8
  import opened Utf8Theory
  import opened Frames
  import opened Events
  import opened ReceiveSpec
  import opened SendSpec
  import opened ClientSpec
  import opened ClientTheory

  // ----- What holds of the sending side -----

  ghost predicate Core(c: Conn, frames: seq<Frame>, out: seq<byte>) {
    && 0 < c.maxPayload
    && Pipe(frames, c.queue, out, c.maxPayload, c.sent)
    && (HasClose(frames) ==> c.queued)
    && (c.closed ==> c.sent && c.received)
  }

  /** While the pause flag is set there is nothing to give to curl. */
  predicate Awake(c: Conn) {
    c.sendPaused ==> c.queue == [] && !c.ReadyToClose()
  }

  ghost predicate ConnOk(c: Conn, frames: seq<Frame>, out: seq<byte>) {
    Core(c, frames, out) && Awake(c) && (c.received ==> c.queued)
  }

  /** Bits of close_state are only gained. */
  predicate Grows(c: Conn, c': Conn) {
    && c'.maxPayload == c.maxPayload
    && (c.received ==> c'.received) && (c.queued ==> c'.queued)
    && (c.sent ==> c'.sent) && (c.closed ==> c'.closed)
  }

  /** The flag is dropped exactly where curl is told to go on. */
  predicate Wakes(c: Conn, c': Conn) {
    c.unpauses <= c'.unpauses && (c'.sendPaused <==> c.sendPaused && c'.unpauses == c.unpauses)
  }

  /** A call keeps all that, and queues nothing once a close has been asked for. */
  ghost predicate Kept(c: Conn, frames: seq<Frame>, out: seq<byte>, r: Result) {
    && ConnOk(r.conn, frames + r.frames, out) && Grows(c, r.conn) && Wakes(c, r.conn)
    && (c.queued ==> r.frames == [])
  }

  lemma NothingDone(c: Conn, frames: seq<Frame>, out: seq<byte>, code: Code)
    requires ConnOk(c, frames, out)
    ensures Kept(c, frames, out, Result(c, code, []))
  {
    hide Pipe;
    assert frames + [] == frames;
  }

  lemma SendFrameKeeps(c: Conn, frames: seq<Frame>, out: seq<byte>, f: Frame, mem: bool, queued: bool)
    requires Core(c, frames, out) && !c.queued && Good(f) && (f.opcode == CLOSE ==> queued)
    ensures var r := SendFrame(c, f, mem); Core(r.conn.(queued := queued), frames + r.frames, out)
    ensures Awake(c) ==> Awake(SendFrame(c, f, mem).conn)
    ensures Wakes(c, SendFrame(c, f, mem).conn)
  {
    assert !c.sent;
    if mem {
      PipeAdd(frames, c.queue, out, c.maxPayload, f);
      hide Pipe, Enqueued, NodeFor, Good;
      assert !f.isUrgent;
    } else {
      assert frames + [] == frames;
    }
  }

  lemma ControlIsGood(opcode: Nibble, key: Key, data: seq<byte>)
    requires IsControlOpcode(opcode) && |data| <= CTL_PAYLOAD_MAX
    ensures Good(Frame(true, true, true, false, opcode, key, |data|, data))
  {}

  lemma DataIsGood(opcode: Nibble, key: Key, data: seq<byte>, last: bool)
    requires IsDataOpcode(opcode) && IsObject(data)
    ensures Good(Frame(last, true, false, false, opcode, key, |data|, data))
  {}

  lemma ControlKeeps(c: Conn, frames: seq<Frame>, out: seq<byte>, options: CtrlFlags, data: seq<byte>, d: Draw)
    requires ConnOk(c, frames, out) && IsObject(data) && (options == CTRL_PING || options == CTRL_PONG)
    ensures Kept(c, frames, out, FrameSenderControl(c, options, data, d))
  {
    NothingDone(c, frames, out, CLOSED_CONNECTION);
    NothingDone(c, frames, out, APP_DATA_LENGTH_TOO_LONG);
    if !c.queued && |data| <= CTL_PAYLOAD_MAX {
      var opcode := if options.ping then PING else PONG;
      var f := Frame(true, true, true, false, opcode, d.key, |data|, data);
      ControlIsGood(opcode, d.key, data);
      SendFrameKeeps(c, frames, out, f, d.mem, c.queued);
      hide Core, Awake, Good;
    }
  }

  lemma DataKeeps(c: Conn, frames: seq<Frame>, out: seq<byte>, options: Flags, data: seq<byte>, d: Draw)
    requires ConnOk(c, frames, out) && IsObject(data)
    ensures Kept(c, frames, out, FrameSenderData(c, options, data, d))
  {
    var (code, opcode) := DataOpcode(c.last, options);
    if code != OK {
      NothingDone(c, frames, out, code);
    } else if c.Closing() {
      NothingDone(c, frames, out, CLOSED_CONNECTION);
    } else {
      DataIsGood(opcode, d.key, data, options.last);
      var f := Frame(options.last, true, false, false, opcode, d.key, |data|, data);
      SendFrameKeeps(c.(last := options), frames, out, f, d.mem, c.queued);
      hide Pipe, Good, NodeFor, Enqueued;
    }
  }

  lemma KeptTwice(c: Conn, frames: seq<Frame>, out: seq<byte>, r1: Result, r2: Result)
    requires Kept(c, frames, out, r1) && Kept(r1.conn, frames + r1.frames, out, r2)
    ensures Kept(c, frames, out, Result(r2.conn, r2.code, r1.frames + r2.frames))
  {
    hide ConnOk;
    assert frames + r1.frames + r2.frames == frames + (r1.frames + r2.frames);
  }

  lemma {:induction false} BlockKeeps(c: Conn, frames: seq<Frame>, out: seq<byte>,
                                      options: Flags, data: seq<byte>, draws: seq<Draw>)
    requires ConnOk(c, frames, out) && IsObject(data)
    ensures 0 < c.maxPayload && Kept(c, frames, out, BlockLoop(c, options, data, draws))
    decreases |data|
  {
    HasRoom(c, frames, out);
    hide FrameSenderData, ConnOk, Kept;
    var d := NextDraw(draws);
    if |data| <= c.maxPayload {
      DataKeeps(c, frames, out, options.(last := true), data, d);
    } else {
      var one := FrameSenderData(c, options, data[..c.maxPayload], d);
      DataKeeps(c, frames, out, options, data[..c.maxPayload], d);
      if one.code == OK {
        KeptIsOk(c, frames, out, one);
        BlockKeeps(one.conn, frames + one.frames, out, CWS_CONT, data[c.maxPayload..], LaterDraws(draws));
        KeptTwice(c, frames, out, one, BlockLoop(one.conn, CWS_CONT, data[c.maxPayload..], LaterDraws(draws)));
      }
    }
  }

  lemma HasRoom(c: Conn, frames: seq<Frame>, out: seq<byte>)
    requires ConnOk(c, frames, out)
    ensures 0 < c.maxPayload
  {}

  lemma KeptIsOk(c: Conn, frames: seq<Frame>, out: seq<byte>, r: Result)
    requires Kept(c, frames, out, r)
    ensures ConnOk(r.conn, frames + r.frames, out)
  {
    hide ConnOk;
  }

  lemma DataBlockKeeps(c: Conn, frames: seq<Frame>, out: seq<byte>, options: Flags, data: seq<byte>, draws: seq<Draw>)
    requires ConnOk(c, frames, out) && IsObject(data)
    ensures Kept(c, frames, out, DataBlockSender(c, options, data, draws))
  {
    hide ConnOk, Kept, BlockLoop;
    NothingDone(c, frames, out, INVALID_OPTIONS);
    NothingDone(c, frames, out, CLOSED_CONNECTION);
    BlockKeeps(c, frames, out, options.(first := true), data, draws);
  }

  lemma StreamKeeps(c: Conn, frames: seq<Frame>, out: seq<byte>, text: bool, info: Flags, data: seq<byte>, d: Draw)
    requires ConnOk(c, frames, out) && IsObject(data)
    ensures Kept(c, frames, out, SendStream(c, text, info, data, d))
  {
    hide ConnOk, Kept, FrameSenderData;
    NothingDone(c, frames, out, OK);
    NothingDone(c, frames, out, STREAM_CONTINUITY_ISSUE);
    DataKeeps(c, frames, out, StreamOptions(text, info), data, d);
  }

  // ----- Closing -----

  /** cws_close with inputs it does not refuse. */
  lemma CloseKeepsCore(c: Conn, frames: seq<Frame>, out: seq<byte>, code: int, reason: seq<byte>, d: Draw)
    requires Core(c, frames, out) && NormalizeClose(code, reason).Normal?
    ensures var r := Close(c, code, reason, d);
            && Core(r.conn, frames + r.frames, out) && Grows(c, r.conn) && Wakes(c, r.conn) && r.conn.queued
            && (c.queued ==> r.frames == []) && (Awake(c) ==> Awake(r.conn))
  {
    hide HasClose, WholePrefix;
    var Normal(status, urgent) := NormalizeClose(code, reason);
    var data := ClosePayload(status, reason);
    hide Pipe;
    if c.queued || urgent {
      assert frames + [] == frames;
    } else {
      var f := Frame(true, true, true, false, CLOSE, d.key, |data|, data);
      ControlIsGood(CLOSE, d.key, data);
      SendFrameKeeps(c, frames, out, f, d.mem, true);
      hide Core, Awake, Good, NormalizeClose, ClosePayload;
    }
  }

  lemma CloseKeeps(c: Conn, frames: seq<Frame>, out: seq<byte>, code: int, reason: seq<byte>, d: Draw)
    requires ConnOk(c, frames, out)
    ensures Kept(c, frames, out, Close(c, code, reason, d))
  {
    hide Core, Awake, NormalizeClose, FrameSenderControl;
    match NormalizeClose(code, reason) {
      case Refused(error) => NothingDone(c, frames, out, error);
      case Normal(_, _) => CloseKeepsCore(c, frames, out, code, reason, d);
    }
  }

  lemma ErrorCloseKeeps(c: Conn, frames: seq<Frame>, out: seq<byte>, code: nat, reason: seq<byte>, d: Draw)
    requires ConnOk(c, frames, out) && NormalizeClose(code, reason).Normal?
    ensures var r := ErrorClose(c, code, reason, d); Kept(c, frames, out, r) && r.conn.received
  {
    hide Pipe, NormalizeClose, Close;
    if c.received {
      NothingDone(c, frames, out, OK);
    } else {
      CloseKeepsCore(c.(received := true), frames, out, code, reason, d);
    }
  }

  // ----- Giving octets to curl -----

  function OutOf(given: Given): seq<byte> {
    if given.Octets? then given.out else []
  }

  lemma GiveKeeps(c: Conn, frames: seq<Frame>, out: seq<byte>, len: nat)
    requires ConnOk(c, frames, out)
    ensures QueueOk(c.queue)
    ensures var (c', given) := SendCb(c, len);
            && ConnOk(c', frames, out + OutOf(given)) && Grows(c, c')
            && (c.sent ==> OutOf(given) == [])
            && (c'.sendPaused <==> given.Pause?)
  {
    hide GoodFrames, HasClose;
    if c.queue == [] {
      hide Pipe;
      assert out + [] == out;
    } else {
      PipeFill(frames, c.queue, out, c.maxPayload, len);
      hide Pipe, Fill;
    }
  }

  // ----- What the receiver asks of the sender -----

  function Octet(ch: char): byte {
    ch as int % 0x100
  }

  /** A reason that is a string literal of the C code. */
  function Text(why: string): (s: seq<byte>)
    ensures |s| == |why|
  {
    seq(|why|, i requires 0 <= i < |why| => Octet(why[i]))
  }

  predicate Closable(e: Event) {
    e.Shut? ==> NormalizeClose(e.code, Text(e.why)).Normal?
  }

  /** The events before the last shut nothing; the last one does, with a code that may be
      sent, exactly when the receiver closes. */
  ghost predicate ShutsOnce(r: Recv, s: Step) {
    && (forall i {:trigger s.events[i]} :: 0 <= i < |s.events| - 1 ==> !s.events[i].Shut?)
    && (s.events != [] && s.events[|s.events| - 1].Shut? <==> r.Open? && s.next.Closed?)
    && (s.events != [] ==> Closable(s.events[|s.events| - 1]))
  }

  lemma AsciiIsClosable(code: nat, why: string)
    requires IsCloseCodeValid(code) || (code == 0 && why == "")
    requires |why| <= CTL_PAYLOAD_MAX - 3 && forall i :: 0 <= i < |why| ==> why[i] as int < 0x80
    ensures Closable(Shut(code, why))
  {
    AsciiIsText(Text(why));
    hide WholePrefix;
  }

  lemma FailIsClosable()
    ensures Closable(Shut(1002, "")) && Closable(Shut(1007, "")) && Closable(Shut(0, ""))
    ensures Closable(Shut(1002, "invalid close payload length")) && Closable(Shut(1002, "invalid close reason"))
  {
    hide Closable, Text;
    AsciiIsClosable(1002, "");
    AsciiIsClosable(1007, "");
    AsciiIsClosable(0, "");
    AsciiIsClosable(1002, "invalid close payload length");
    AsciiIsClosable(1002, "invalid close reason");
  }

  lemma CloseEventsClosable(payload: seq<byte>)
    ensures var es := CloseEvents(payload);
            1 <= |es| <= 2 && es[|es| - 1].Shut? && Closable(es[|es| - 1]) && (|es| == 2 ==> !es[0].Shut?)
  {
    FailIsClosable();
    hide WholePrefix, Closable;
    if 2 <= |payload| {
      var status := payload[0] as int * 0x100 + payload[1];
      if IsCloseCodeValid(status) { AsciiIsClosable(status, ""); }
    }
  }

  lemma HeaderShuts(r: Recv, buf: seq<byte>)
    requires Wf(r) && r.Open? && buf != []
    ensures ShutsOnce(r, AtPayload(r, buf)) && |AtPayload(r, buf).events| <= 1
    ensures AtPayload(r, buf).next.Open? ==> AtPayload(r, buf).events == []
  {
    FailIsClosable();
    if r.frame.None? { HeaderStepOk(r, buf); }
    hide HeaderStep, Closable, Wf;
  }

  lemma PayloadShuts(m: Recv, buf: seq<byte>)
    requires WfAtPayload(m) && ReadyForPayload(m)
    ensures ShutsOnce(m, PayloadStep(m, buf))
  {
    hide WfAtPayload, StashFits;
    FailIsClosable();
    hide TextStep, NormalizeClose, Text, CloseEvents;
    if m.frame.value.isControl {
      var min := Min(m.frame.value.payloadLen - |m.control|, |buf|);
      CloseEventsClosable(m.control + buf[..min]);
    }
  }

  lemma PassShuts(r: Recv, buf: seq<byte>)
    requires Wf(r) && r.Open? && buf != []
    ensures ShutsOnce(r, ReceiveSpec.ProcessFrame(r, buf))
  {
    ProcessFrameUnfold(r, buf);
    HeaderShuts(r, buf);
    hide AtPayload, ProcessFrame, PayloadStep, Wf, WfAtPayload, ReadyForPayload, ShutsOnce;
    var h := AtPayload(r, buf);
    if h.next.Open? && h.next.frame.Some? {
      var p := PayloadStep(h.next, buf[h.used..]);
      PayloadShuts(h.next, buf[h.used..]);
      assert [] + p.events == p.events;
      SameShuts(h.next, r, p, Then(h, p));
    }
  }

  lemma SameShuts(m: Recv, r: Recv, p: ReceiveSpec.Step, s: ReceiveSpec.Step)
    requires m.Open? && r.Open? && s.next == p.next && s.events == p.events && ShutsOnce(m, p)
    ensures ShutsOnce(r, s)
  {
    hide Closable;
  }

  /** The receiver shuts the connection at most once, with a code and a reason that cws_close
      accepts, and then reports nothing more. */
  lemma {:induction false} ReceiveShuts(r: Recv, buf: seq<byte>)
    requires Wf(r)
    ensures ShutsOnce(r, Receive(r, buf))
    decreases |buf|
  {
    hide ProcessFrame, Wf, Closable;
    ReceiveUnfold(r, buf);
    if buf != [] && r.Open? {
      var s := ReceiveSpec.ProcessFrame(r, buf);
      PassShuts(r, buf);
      if s.used != 0 && s.next.Open? {
        hide Receive;
        ReceiveShuts(s.next, buf[s.used..]);
        ThenShuts(r, s, Receive(s.next, buf[s.used..]));
      }
    }
  }

  lemma ThenShuts(r: Recv, s: Step, t: Step)
    requires ShutsOnce(r, s) && ShutsOnce(s.next, t) && r.Open? && s.next.Open?
    ensures ShutsOnce(r, Then(s, t))
  {
    hide Closable;
    var es := s.events + t.events;
    forall i | 0 <= i < |es| - 1 ensures !es[i].Shut? {
      if i < |s.events| { assert es[i] == s.events[i]; } else { assert es[i] == t.events[i - |s.events|]; }
    }
  }

  // ----- What the user does -----

  datatype Api =
    | SendPing(data: seq<byte>, d: Draw)
    | SendPong(data: seq<byte>, d: Draw)
    | SendClose(code: int, reason: seq<byte>, d: Draw)
    | SendBlock(options: Flags, data: seq<byte>, draws: seq<Draw>)
    | SendText(data: seq<byte>, draws: seq<Draw>)
    | StreamPart(text: bool, info: Flags, data: seq<byte>, d: Draw)
    | StreamText(info: Flags, data: seq<byte>, d: Draw)

  /** Arguments are C objects. */
  predicate ApiOk(api: Api) {
    api.SendClose? || IsObject(api.data)
  }

  predicate ApisOk(apis: seq<Api>) {
    forall i {:trigger apis[i]} :: 0 <= i < |apis| ==> ApiOk(apis[i])
  }

  function Do(c: Conn, api: Api): Result
    requires ApiOk(api) && 0 < c.maxPayload
  {
    match api
    case SendPing(data, d) => FrameSenderControl(c, CTRL_PING, data, d)
    case SendPong(data, d) => FrameSenderControl(c, CTRL_PONG, data, d)
    case SendClose(code, reason, d) => ClientSpec.Close(c, code, reason, d)
    case SendBlock(options, data, draws) => DataBlockSender(c, options, data, draws)
    case SendText(data, draws) => SendBlkText(c, data, draws)
    case StreamPart(text, info, data, d) => SendStream(c, text, info, data, d)
    case StreamText(info, data, d) => SendStrmText(c, info, data, d)
  }

  /** No call of the user changes what only the peer or curl can change. */
  predicate SameSide(c: Conn, c': Conn) {
    c'.maxPayload == c.maxPayload && c'.received == c.received && c'.closed == c.closed
  }

  lemma DoKeepsSide(c: Conn, api: Api)
    requires ApiOk(api) && 0 < c.maxPayload
    ensures SameSide(c, Do(c, api).conn)
  {
    hide WholePrefix, BlockLoop, DataOpcode, NodeFor, Enqueued, NormalizeClose, ClosePayload;
    if api.SendBlock? {
      BlockKeepsSide(c, api.options.(first := true), api.data, api.draws);
    } else if api.SendText? {
      BlockKeepsSide(c, CWS_TEXT.(first := true), api.data, api.draws);
    }
  }

  lemma {:induction false} BlockKeepsSide(c: Conn, options: Flags, data: seq<byte>, draws: seq<Draw>)
    requires IsObject(data) && 0 < c.maxPayload
    ensures SameSide(c, BlockLoop(c, options, data, draws).conn)
    decreases |data|
  {
    hide DataOpcode, NodeFor, Enqueued;
    if c.maxPayload < |data| {
      var one := FrameSenderData(c, options, data[..c.maxPayload], NextDraw(draws));
      if one.code == OK { BlockKeepsSide(one.conn, CWS_CONT, data[c.maxPayload..], LaterDraws(draws)); }
    }
  }

  /** Once a close has been asked for, no call of the user changes anything. */
  lemma QueuedIsDeaf(c: Conn, api: Api)
    requires ApiOk(api) && 0 < c.maxPayload && c.queued
    ensures Do(c, api) == Result(c, Do(c, api).code, [])
  {
    hide WholePrefix, DataOpcode, NormalizeClose, ClosePayload, BlockLoop;
  }

  /** Any number of calls. */
  function DoAll(c: Conn, apis: seq<Api>): (r: Result)
    requires ApisOk(apis) && 0 < c.maxPayload
    ensures SameSide(c, r.conn)
  {
    if apis == [] then Result(c, OK, [])
    else
      var n := |apis| - 1;
      var before := DoAll(c, apis[..n]);
      DoKeepsSide(before.conn, apis[n]);
      var r := Do(before.conn, apis[n]);
      Result(r.conn, r.code, before.frames + r.frames)
  }

  lemma {:induction false} AllAreDeaf(c: Conn, apis: seq<Api>)
    requires ApisOk(apis) && 0 < c.maxPayload && c.queued
    ensures DoAll(c, apis) == Result(c, DoAll(c, apis).code, [])
  {
    if apis != [] {
      var n := |apis| - 1;
      AllAreDeaf(c, apis[..n]);
      QueuedIsDeaf(c, apis[n]);
      hide Do;
    }
  }

  lemma DoOne(c: Conn, api: Api)
    requires ApiOk(api) && 0 < c.maxPayload
    ensures DoAll(c, [api]) == Do(c, api)
  {
    hide Do;
    var apis := [api];
    assert |apis[..0]| == 0;
    assert [] + Do(c, api).frames == Do(c, api).frames;
  }

  predicate ReactionsOk(reactions: seq<seq<Api>>) {
    forall i {:trigger reactions[i]} :: 0 <= i < |reactions| ==> ApisOk(reactions[i])
  }

  /** What happens on the sending side while the receiver reports events: the user's callback
      for the i-th event makes the calls reactions[i], and a shutdown closes. */
  function React(c: Conn, events: seq<Event>, reactions: seq<seq<Api>>, d: Draw): (r: Result)
    requires 0 < c.maxPayload && ReactionsOk(reactions)
    ensures r.conn.maxPayload == c.maxPayload && r.conn.closed == c.closed
  {
    if events == [] then Result(c, OK, [])
    else
      var n := |events| - 1;
      var before := React(c, events[..n], reactions, d);
      var r := if events[n].Shut? then AnswerShut(before.conn, events[n], d)
               else DoAll(before.conn, if n < |reactions| then reactions[n] else []);
      Result(r.conn, r.code, before.frames + r.frames)
  }

  function AnswerShut(c: Conn, e: Event, d: Draw): (r: Result)
    requires e.Shut?
    ensures r.conn.maxPayload == c.maxPayload && r.conn.closed == c.closed
  {
    ErrorClose(c, e.code, Text(e.why), d)
  }

  // ----- Runs -----

  datatype Call =
    | UserCalls(apis: seq<Api>)
    | CurlGives(octets: seq<byte>, reactions: seq<seq<Api>>, d: Draw)
    | CurlTakes(len: nat)

  predicate CallOk(call: Call) {
    match call
    case UserCalls(apis) => ApisOk(apis)
    case CurlGives(_, reactions, _) => ReactionsOk(reactions)
    case CurlTakes(_) => true
  }

  /** Both halves of the connection, what the user has been told, the frames accepted for
      sending, the octets curl has been given, how often it was given none, and whether it
      waits: it does from the answer that makes it pause until curl_easy_pause is called. */
  datatype World = World(
    recv: Recv, conn: Conn, told: seq<Event>, frames: seq<Frame>, out: seq<byte>, zeros: nat, waits: bool)

  function Begin(maxPayload: nat): World {
    World(INITIAL, Opened(maxPayload), [], [], [], 0, false)
  }

  function Act(w: World, call: Call): World
    requires CallOk(call) && 0 < w.conn.maxPayload && QueueOk(w.conn.queue) && Wf(w.recv)
  {
    match call
    case CurlTakes(len) =>
      var (c, given) := SendCb(w.conn, len);
      w.(conn := c, out := w.out + OutOf(given), waits := given.Pause?,
         zeros := if !given.Pause? && OutOf(given) == [] then w.zeros + 1 else w.zeros)
    case CurlGives(octets, reactions, d) =>
      var s := Receive(w.recv, octets);
      After(w, React(w.conn, s.events, reactions, d), s.next, s.events)
    case UserCalls(apis) =>
      After(w, DoAll(w.conn, apis), w.recv, [])
  }

  function After(w: World, r: Result, recv: Recv, events: seq<Event>): World {
    w.(recv := recv, conn := r.conn, told := w.told + events, frames := w.frames + r.frames,
       waits := w.waits && r.conn.unpauses == w.conn.unpauses)
  }

  ghost predicate Inv(w: World) {
    && ConnOk(w.conn, w.frames, w.out) && Wf(w.recv) && (w.recv.Closed? <==> w.conn.received)
    && (w.waits <==> w.conn.sendPaused)
  }

  lemma InvReady(w: World)
    requires Inv(w)
    ensures 0 < w.conn.maxPayload && QueueOk(w.conn.queue) && Wf(w.recv)
  {}

  /** One call of the user. */
  lemma ActOne(w: World, api: Api)
    requires Inv(w) && ApiOk(api)
    ensures 0 < w.conn.maxPayload && QueueOk(w.conn.queue) && Wf(w.recv)
    ensures CallOk(UserCalls([api])) && Act(w, UserCalls([api])) == After(w, Do(w.conn, api), w.recv, [])
  {
    InvReady(w);
    hide Inv, Do, DoAll;
    DoOne(w.conn, api);
  }

  /** Nothing is ever taken back, and after the first request to close nothing is queued, after
      the close frame nothing is sent. */
  predicate Later(w: World, w': World) {
    && Grows(w.conn, w'.conn)
    && w.out <= w'.out && w.frames <= w'.frames && w.told <= w'.told && w.zeros <= w'.zeros
    && (w.conn.queued ==> w'.frames == w.frames)
    && (w.conn.sent ==> w'.out == w.out)
  }

  lemma ActKeeps(w: World, call: Call)
    requires Inv(w) && CallOk(call)
    ensures 0 < w.conn.maxPayload && QueueOk(w.conn.queue)
    ensures Inv(Act(w, call)) && Later(w, Act(w, call))
  {
    InvReady(w);
    if call.CurlTakes? {
      GiveKeeps(w.conn, w.frames, w.out, call.len);
      hide SendCb, ConnOk, Wf;
    } else if call.CurlGives? {
      var s := Receive(w.recv, call.octets);
      ReceivedKeeps(w, call.octets, call.reactions, call.d);
      hide Receive, React, Kept, ConnOk, Wf, After, Inv, Later;
      KeptIsLater(w, React(w.conn, s.events, call.reactions, call.d), s.next, s.events);
    } else {
      DoAllKeeps(w.conn, w.frames, w.out, call.apis);
      hide DoAll, Kept, ConnOk, Wf, After, Later;
      KeptIsLater(w, DoAll(w.conn, call.apis), w.recv, []);
    }
  }

  lemma KeptIsLater(w: World, r: Result, recv: Recv, events: seq<Event>)
    requires Inv(w) && Kept(w.conn, w.frames, w.out, r) && Wf(recv) && (recv.Closed? <==> r.conn.received)
    ensures var w' := After(w, r, recv, events); Inv(w') && Later(w, w')
  {
    hide ConnOk, Wf;
    assert w.frames + [] == w.frames;
  }

  lemma ReceivedKeeps(w: World, octets: seq<byte>, reactions: seq<seq<Api>>, d: Draw)
    requires Inv(w) && 0 < w.conn.maxPayload && ReactionsOk(reactions)
    ensures var s := Receive(w.recv, octets);
            var r := React(w.conn, s.events, reactions, d);
            Kept(w.conn, w.frames, w.out, r) && Wf(s.next) && (s.next.Closed? <==> r.conn.received)
  {
    hide ConnOk, Kept, Receive, React, Closable, ReactionsOk;
    ReceiveShuts(w.recv, octets);
    ClosedStays(w.recv, octets);
    hide Wf;
    var s := Receive(w.recv, octets);
    ReactKeeps(w.conn, w.frames, w.out, s.events, reactions, d);
  }

  lemma ClosedStays(r: Recv, octets: seq<byte>)
    requires Wf(r)
    ensures r.Closed? ==> Receive(r, octets) == Step(Closed, 0, [])
  {}

  lemma {:induction false} DoAllKeeps(c: Conn, frames: seq<Frame>, out: seq<byte>, apis: seq<Api>)
    requires ConnOk(c, frames, out) && ApisOk(apis)
    ensures 0 < c.maxPayload && Kept(c, frames, out, DoAll(c, apis))
  {
    assert 0 < c.maxPayload;
    NothingDone(c, frames, out, OK);
    if apis != [] {
      var n := |apis| - 1;
      var before := DoAll(c, apis[..n]);
      DoAllKeeps(c, frames, out, apis[..n]);
      assert ConnOk(before.conn, frames + before.frames, out);
      hide Kept, Do, ConnOk, SameSide;
      DoKeeps(before.conn, frames + before.frames, out, apis[n]);
      KeptTwice(c, frames, out, before, Do(before.conn, apis[n]));
    }
  }

  lemma DoKeeps(c: Conn, frames: seq<Frame>, out: seq<byte>, api: Api)
    requires ConnOk(c, frames, out) && ApiOk(api)
    ensures 0 < c.maxPayload && Kept(c, frames, out, Do(c, api))
  {
    assert 0 < c.maxPayload;
    hide ConnOk, Kept, FrameSenderControl, ClientSpec.Close, DataBlockSender, SendStream, WholePrefix;
    match api {
      case SendPing(data, d) => ControlKeeps(c, frames, out, CTRL_PING, data, d);
      case SendPong(data, d) => ControlKeeps(c, frames, out, CTRL_PONG, data, d);
      case SendClose(code, reason, d) => CloseKeeps(c, frames, out, code, reason, d);
      case SendBlock(options, data, draws) => DataBlockKeeps(c, frames, out, options, data, draws);
      case SendText(data, draws) =>
        NothingDone(c, frames, out, INVALID_UTF8);
        DataBlockKeeps(c, frames, out, CWS_TEXT, data, draws);
      case StreamPart(text, info, data, d) => StreamKeeps(c, frames, out, text, info, data, d);
      case StreamText(info, data, d) =>
        NothingDone(c, frames, out, INVALID_UTF8);
        if WholePrefix(data).Some? { StreamKeeps(c, frames, out, true, info, data[..WholePrefix(data).value], d); }
    }
  }

  /** The user's callbacks may call anything; only the shutdown, which comes last, marks the
      close as received. */
  lemma {:induction false} ReactKeeps(c: Conn, frames: seq<Frame>, out: seq<byte>, events: seq<Event>,
                                      reactions: seq<seq<Api>>, d: Draw)
    requires ConnOk(c, frames, out) && 0 < c.maxPayload && ReactionsOk(reactions)
    requires forall i {:trigger events[i]} :: 0 <= i < |events| - 1 ==> !events[i].Shut?
    requires events != [] ==> Closable(events[|events| - 1])
    ensures var r := React(c, events, reactions, d);
            && Kept(c, frames, out, r)
            && (r.conn.received <==> c.received || (events != [] && events[|events| - 1].Shut?))
  {
    hide NormalizeClose, Text, ErrorClose;
    NothingDone(c, frames, out, OK);
    if events != [] {
      var n := |events| - 1;
      var before := React(c, events[..n], reactions, d);
      ReactKeeps(c, frames, out, events[..n], reactions, d);
      assert ConnOk(before.conn, frames + before.frames, out);
      hide Kept, ConnOk;
      if events[n].Shut? {
        ErrorCloseKeeps(before.conn, frames + before.frames, out, events[n].code, Text(events[n].why), d);
        KeptTwice(c, frames, out, before, AnswerShut(before.conn, events[n], d));
      } else {
        var apis := if n < |reactions| then reactions[n] else [];
        DoAllKeeps(before.conn, frames + before.frames, out, apis);
        KeptTwice(c, frames, out, before, DoAll(before.conn, apis));
      }
    }
  }

  predicate AllOk(calls: seq<Call>) {
    forall i {:trigger calls[i]} :: 0 <= i < |calls| ==> CallOk(calls[i])
  }

  ghost function Run(w: World, calls: seq<Call>): (w': World)
    requires Inv(w) && AllOk(calls)
    ensures Inv(w')
  {
    if calls == [] then w
    else
      var n := |calls| - 1;
      var before := Run(w, calls[..n]);
      ActKeeps(before, calls[n]);
      Act(before, calls[n])
  }

  lemma BeginOk(maxPayload: nat)
    requires 0 < maxPayload
    ensures Inv(Begin(maxPayload))
  {
    assert Pending([]) == [];
  }

  lemma RunUnfold(w: World, calls: seq<Call>)
    requires Inv(w) && AllOk(calls) && calls != []
    ensures var n := |calls| - 1;
            var before := Run(w, calls[..n]);
            && Inv(before) && CallOk(calls[n]) && 0 < before.conn.maxPayload && QueueOk(before.conn.queue)
            && Run(w, calls) == Act(before, calls[n]) && Later(before, Run(w, calls))
  {
    var n := |calls| - 1;
    var before := Run(w, calls[..n]);
    ActKeeps(before, calls[n]);
    hide Act, Inv, Later;
  }

  lemma LaterTwice(w: World, v: World, u: World)
    requires Later(w, v) && Later(v, u)
    ensures Later(w, u)
  {}

  /** What was true of an earlier point of a run is never undone. */
  lemma {:induction false} RunLater(w: World, calls: seq<Call>, k: nat)
    requires Inv(w) && AllOk(calls) && k <= |calls|
    ensures Later(Run(w, calls[..k]), Run(w, calls))
    decreases |calls|
  {
    hide Inv, Later, Run;
    if k == |calls| {
      assert calls[..k] == calls;
      LaterSame(Run(w, calls));
    } else {
      var n := |calls| - 1;
      RunLater(w, calls[..n], k);
      assert calls[..n][..k] == calls[..k];
      RunUnfold(w, calls);
      LaterTwice(Run(w, calls[..k]), Run(w, calls[..n]), Run(w, calls));
    }
  }

  lemma LaterSame(w: World)
    ensures Later(w, w)
  {}

  /** The invariants of the close handshake and of pausing, in every reachable state: frames
      are valid and the close frame is the last; curl has been given a prefix of their
      encodings, all of it once the close frame is out; and curl only waits when there is
      nothing for it: from the answer that makes it wait until curl_easy_pause is called. */
  lemma EveryRunIsSafe(maxPayload: nat, calls: seq<Call>)
    requires 0 < maxPayload && AllOk(calls)
    ensures Inv(Begin(maxPayload))
    ensures var w := Run(Begin(maxPayload), calls);
            && (forall i {:trigger w.frames[i]} :: 0 <= i < |w.frames| ==>
                 FrameValidate(w.frames[i], ClientToServer) == 0
                 && (w.frames[i].opcode == CLOSE ==> i == |w.frames| - 1))
            && w.out <= Deliverable(w.frames, maxPayload)
            && (w.conn.sent ==> w.conn.queued && w.conn.queue == [] && HasClose(w.frames)
                                && w.out == Deliverable(w.frames, maxPayload))
            && (w.conn.closed ==> w.conn.sent && w.conn.received)
            && (w.conn.received ==> w.conn.queued)
            && (w.recv.Closed? <==> w.conn.received)
            && (w.waits <==> w.conn.sendPaused)
            && (w.waits ==> w.conn.queue == [] && !w.conn.ReadyToClose())
  {
    hide AllOk, Wf, Act;
    BeginOk(maxPayload);
    var w := Run(Begin(maxPayload), calls);
    RunLater(Begin(maxPayload), calls, 0);
    assert calls[..0] == [] && w.conn.maxPayload == maxPayload;
    hide Run, FrameValidate, Deliverable, Track;
    assert Pending([]) == [] && w.out + [] == w.out;
  }

  // ----- Giving curl no octets -----

  /** curl is made to wait exactly when there is nothing to send and nothing to end; the flag
      is then set, and otherwise as it was. */
  lemma PausesExactly(c: Conn, len: nat)
    requires QueueOk(c.queue)
    ensures var (c', given) := SendCb(c, len);
            && (given.Pause? <==> c.queue == [] && !c.ReadyToClose())
            && (c'.sendPaused <==> c.sendPaused || given.Pause?) && c'.unpauses == c.unpauses
  {
    hide Fill;
  }

  /** curl is given no octets exactly when the handshake is complete, when it asked for none,
      or when the next frame did not fit its buffer. */
  lemma GivesNothingExactly(c: Conn, len: nat)
    requires QueueOk(c.queue)
    ensures var (_, given) := SendCb(c, len);
            !given.Pause? && OutOf(given) == [] <==>
              if c.queue == [] then c.ReadyToClose() else len == 0 || c.queue[0].bytes == []
  {
    if c.queue != [] { FillProgress(c.queue, len); }
  }

  predicate Asks(calls: seq<Call>) {
    forall i {:trigger calls[i]} :: 0 <= i < |calls| && calls[i].CurlTakes? ==> 0 < calls[i].len
  }

  lemma HeadFits(c: Conn, frames: seq<Frame>, out: seq<byte>)
    requires ConnOk(c, frames, out) && AllFit(frames, c.maxPayload) && c.queue != []
    ensures c.queue[0].bytes != []
  {
    var k := |frames| - |c.queue|;
    assert c.queue[0].(sent := 0) == NodeFor(frames[k + 0], c.maxPayload);
    assert Fits(frames[k], c.maxPayload);
  }

  /** If all frames fit and curl always asks for something, it is given nothing at most once,
      and that is when the connection becomes CLOSED. */
  lemma {:induction false} ZeroAtMostOnce(maxPayload: nat, calls: seq<Call>)
    requires 0 < maxPayload && AllOk(calls) && Asks(calls)
    requires Inv(Begin(maxPayload)) && AllFit(Run(Begin(maxPayload), calls).frames, maxPayload)
    ensures var w := Run(Begin(maxPayload), calls); w.zeros == if w.conn.closed then 1 else 0
  {
    hide Inv;
    if calls != [] {
      var n := |calls| - 1;
      var before := Run(Begin(maxPayload), calls[..n]);
      RunUnfold(Begin(maxPayload), calls);
      RunLater(Begin(maxPayload), calls[..n], 0);
      assert calls[..n][..0] == [] && before.conn.maxPayload == maxPayload;
      hide Run;
      var w := Run(Begin(maxPayload), calls);
      assert AllFit(before.frames, maxPayload) by {
        forall i | 0 <= i < |before.frames| ensures Fits(before.frames[i], maxPayload) {
          assert before.frames[i] == w.frames[i];
        }
      }
      ZeroAtMostOnce(maxPayload, calls[..n]);
      OneZero(before, calls[n]);
    }
  }

  lemma OneZero(w: World, call: Call)
    requires Inv(w) && AllFit(w.frames, w.conn.maxPayload) && CallOk(call)
    requires 0 < w.conn.maxPayload && QueueOk(w.conn.queue)
    requires call.CurlTakes? ==> 0 < call.len
    ensures Act(w, call).zeros - w.zeros ==
            (if Act(w, call).conn.closed then 1 else 0) - (if w.conn.closed then 1 else 0)
  {
    if call.CurlTakes? {
      GivesNothingExactly(w.conn, call.len);
      if w.conn.queue != [] { HeadFits(w.conn, w.frames, w.out); }
      hide Fill, Track, GoodFrames, Deliverable, NodeFor;
    } else {
      OnlyCurlCloses(w, call);
    }
  }

  lemma OnlyCurlCloses(w: World, call: Call)
    requires Inv(w) && CallOk(call) && !call.CurlTakes?
    requires 0 < w.conn.maxPayload && QueueOk(w.conn.queue)
    ensures Act(w, call).conn.closed == w.conn.closed && Act(w, call).zeros == w.zeros
  {
    hide Receive, Inv, DoAll, React;
  }
}
