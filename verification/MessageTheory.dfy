/**
 * From end to end: the messages a client's calls hand over are the messages the server puts
 * together from the octets, whatever the frame size and however curl takes them.
 */
module MessageTheory {
  import opened Bytes
  import opened Utf8
  import opened Utf8Theory
  import opened Frames
  import opened Events
  import opened ReceiveSpec
  import opened Handlers
  import opened ServerStream
  import opened SendSpec
  import opened ClientSpec
  import opened ClientTheory
  import opened Connection
  import opened SenderGrammar
  import opened PeerTheory

  /** What one part of a message adds at the other end. */
  function Told(a: App, binary: bool, first: bool, last: bool, data: seq<byte>): App {
    var now := if first then Some(Partial(binary, data)) else Extended(a.open, data);
    if now.Some? && last then App(None, a.out + [Message(now.value.binary, now.value.data)]) else App(now, a.out)
  }

  lemma ToldTwice(a: App, binary: bool, first: bool, x: seq<byte>, y: seq<byte>)
    ensures Told(Told(a, binary, first, false, x), false, false, true, y) == Told(a, binary, first, true, x + y)
  {
    if !first && a.open.Some? { assert a.open.value.data + (x + y) == a.open.value.data + x + y; }
  }

  /** The server has an unfinished message exactly when the sender remembers one. */
  predicate Mirrors(a: App, c: Conn) {
    a.open.Some? <==> InMessage(c.last)
  }

  lemma ExpectOne(a: App, f: Frame)
    ensures Expect(a, [f]) == ExpectFrame(a, f)
  {
    hide ExpectFrame;
    assert [f][1..] == [];
  }

  lemma {:induction false} ExpectConcat(a: App, fs: seq<Frame>, gs: seq<Frame>)
    requires forall i :: 0 <= i < |fs| ==> fs[i].opcode != CLOSE
    ensures Expect(a, fs + gs) == Expect(Expect(a, fs), gs)
    decreases |fs|
  {
    if fs == [] {
      assert fs + gs == gs;
    } else {
      hide ExpectFrame;
      assert (fs + gs)[1..] == fs[1..] + gs;
      ExpectConcat(ExpectFrame(a, fs[0]), fs[1..], gs);
    }
  }

  lemma DataTells(c: Conn, a: App, options: Flags, data: seq<byte>, d: Draw)
    requires IsObject(data) && Mirrors(a, c) && (d.mem || options.first == options.last)
    ensures var r := FrameSenderData(c, options, data, d);
            && Expect(a, r.frames) == (if r.code == OK then Told(a, options.binary, options.first, options.last, data) else a)
            && Mirrors(Expect(a, r.frames), r.conn)
  {
    hide NodeFor, Enqueued;
    var (code, opcode) := DataOpcode(c.last, options);
    if code == OK && !c.Closing() && d.mem {
      ExpectOne(a, Frame(options.last, true, false, false, opcode, d.key, |data|, data));
    }
  }

  // ----- Blocks -----

  function FrameCount(n: nat, max: nat): nat
    requires 0 < max
  {
    if n <= max then 1 else 1 + FrameCount(n - max, max)
  }

  /** The least number of frames, but at least one, that can carry n octets. */
  lemma {:induction false} FrameCountIsLeast(n: nat, max: nat)
    requires 0 < max
    ensures var k := FrameCount(n, max); 1 <= k && n <= k * max && (1 < k ==> (k - 1) * max < n)
  {
    if max < n {
      FrameCountIsLeast(n - max, max);
      var k := FrameCount(n - max, max);
      assert (k + 1) * max == k * max + max;
      if 1 < k { assert (k - 1) * max + max == k * max; }
    }
  }

  /** frame_sender_data would let a frame with these options go. */
  predicate MayGo(c: Conn, options: Flags) {
    DataOpcode(c.last, options).0 == OK && !c.Closing()
  }

  lemma GoesOn(c: Conn, options: Flags, data: seq<byte>, d: Draw)
    requires IsObject(data) && MayGo(c, options) && d.mem
    ensures var r := FrameSenderData(c, options, data, d);
            && r.code == OK && r.conn.maxPayload == c.maxPayload && |r.frames| == 1
            && r.frames[0].opcode != CLOSE && |r.frames[0].payload| == |data|
            && (!options.last ==> MayGo(r.conn, CWS_CONT))
  {
    hide NodeFor, Enqueued;
  }

  lemma MayGoLast(c: Conn, options: Flags)
    ensures MayGo(c, options.(last := true)) <==> MayGo(c, options)
  {}

  /** A block becomes as few frames as possible, none longer than allowed, and they carry the
      block as one message of its type. */
  lemma {:induction false} BlockTells(c: Conn, a: App, options: Flags, data: seq<byte>, draws: seq<Draw>)
    requires IsObject(data) && 0 < c.maxPayload && Mirrors(a, c) && MayGo(c, options) && !options.last
    requires EnoughToGoOn(Arrival, |data|, draws, c.maxPayload)
    ensures var r := BlockLoop(c, options, data, draws);
            && r.code == OK && |r.frames| == FrameCount(|data|, c.maxPayload)
            && (forall i :: 0 <= i < |r.frames| ==> |r.frames[i].payload| <= c.maxPayload)
            && Expect(a, r.frames) == Told(a, options.binary, options.first, true, data)
            && Mirrors(Expect(a, r.frames), r.conn)
    decreases |data|
  {
    hide FrameSenderData, MayGo, Mirrors, Told;
    var max, d, more := c.maxPayload, NextDraw(draws), LaterDraws(draws);
    if |data| <= max {
      MayGoLast(c, options);
      GoesOn(c, options.(last := true), data, d);
      DataTells(c, a, options.(last := true), data, d);
    } else {
      var now, later := data[..max], data[max..];
      assert now + later == data;
      var one := FrameSenderData(c, options, now, d);
      GoesOn(c, options, now, d);
      DataTells(c, a, options, now, d);
      var rest := BlockLoop(one.conn, CWS_CONT, later, more);
      BlockTells(one.conn, Expect(a, one.frames), CWS_CONT, later, more);
      hide BlockLoop, Expect;
      ExpectConcat(a, one.frames, rest.frames);
      ToldTwice(a, options.binary, options.first, now, later);
    }
  }

  lemma {:induction false} MemoryIsEnough(n: nat, draws: seq<Draw>, max: nat)
    requires 0 < max && AllMemory(draws) && FrameCount(n, max) <= |draws|
    ensures EnoughToGoOn(Arrival, n, draws, max)
  {
    FrameCountIsLeast(n, max);
    if max < n { MemoryIsEnough(n - max, draws[1..], max); }
  }

  /** The round trip of data_block_sender on an open connection with no message in progress:
      the server reads the frames back and puts the block together again. */
  lemma BlobRoundTrip(c: Conn, kind: Flags, data: seq<byte>, draws: seq<Draw>)
    requires IsObject(data) && 0 < c.maxPayload && c.queue == [] && !c.Closing() && !InMessage(c.last)
    requires kind == CWS_BINARY || kind == CWS_TEXT
    requires AllMemory(draws) && FrameCount(|data|, c.maxPayload) <= |draws|
    ensures var r := DataBlockSender(c, kind, data, draws);
            && r.code == OK && |r.frames| == FrameCount(|data|, c.maxPayload)
            && AllFit(r.frames, c.maxPayload) && AllGood(r.frames)
            && QueueOk(r.conn.queue) && Pending(r.conn.queue) == Deliverable(r.frames, c.maxPayload)
            && Expect(NOTHING, Parse(Pending(r.conn.queue))) == App(None, [Message(kind == CWS_BINARY, data)])
  {
    var r := DataBlockSender(c, kind, data, draws);
    MemoryIsEnough(|data|, draws, c.maxPayload);
    BlockTells(c, NOTHING, kind.(first := true), data, draws);
    BlockOnQueue(c, kind, data, draws);
    hide BlockLoop, Expect, NodeFor, Good, AllMemory, Parse, GoodFrames, MayGo, Mirrors, Told, Deliverable, Pending, QueueOk;
    BlockFits(r.frames, c.maxPayload);
    ParseAll(r.frames, c.maxPayload);
  }

  lemma BlockOnQueue(c: Conn, kind: Flags, data: seq<byte>, draws: seq<Draw>)
    requires IsObject(data) && 0 < c.maxPayload && c.queue == [] && !c.Closing()
    ensures var r := DataBlockSender(c, kind, data, draws);
            && QueueOk(r.conn.queue) && GoodFrames(r.frames)
            && Pending(r.conn.queue) == Deliverable(r.frames, c.maxPayload)
  {
    var r := DataBlockSender(c, kind, data, draws);
    EmptyIsOk(c);
    DataBlockKeeps(c, [], [], kind, data, draws);
    OpenPending(r.conn, [] + r.frames);
    KeepsOpen(c, kind, data, draws);
    hide DataBlockSender, ConnOk, Deliverable, GoodFrames, Pending, QueueOk;
    assert [] + r.frames == r.frames;
  }

  lemma EmptyIsOk(c: Conn)
    requires 0 < c.maxPayload && c.queue == [] && !c.Closing()
    ensures ConnOk(c, [], [])
  {
    assert Pending([]) == [] && QueueOk([]);
  }

  lemma OpenPending(c: Conn, frames: seq<Frame>)
    requires ConnOk(c, frames, [])
    ensures QueueOk(c.queue) && GoodFrames(frames) && Pending(c.queue) == Deliverable(frames, c.maxPayload)
  {
    hide Track, NodeFor, Good, Deliverable, GoodFrames;
    assert [] + Pending(c.queue) == Pending(c.queue);
  }

  lemma KeepsOpen(c: Conn, kind: Flags, data: seq<byte>, draws: seq<Draw>)
    requires IsObject(data) && 0 < c.maxPayload
    ensures DataBlockSender(c, kind, data, draws).conn.maxPayload == c.maxPayload
  {
    BlockKeepsSide(c, kind.(first := true), data, draws);
    hide BlockLoop;
  }

  lemma BlockFits(frames: seq<Frame>, max: nat)
    requires GoodFrames(frames) && forall i :: 0 <= i < |frames| ==> |frames[i].payload| <= max
    ensures AllFit(frames, max) && AllGood(frames)
  {
    forall i | 0 <= i < |frames| ensures Fits(frames[i], max) {
      assert Good(frames[i]);
      FitsExactly(frames[i], max);
    }
  }

  /** A frame fits its buffer unless it is a data frame with more than maxPayload octets and
      the longest possible header does not make up for it. */
  lemma FitsExactly(f: Frame, max: nat)
    requires Good(f)
    ensures Fits(f, max) <==> f.isControl || WireLength(f.payloadLen) <= max + HEADER_MAX
    ensures |f.payload| <= max ==> Fits(f, max)
  {
    WireBytesLength(f);
    hide WireBytes;
    assert f.isControl ==> f.payloadLen <= CTL_PAYLOAD_MAX;
  }

  // ----- Runs -----

  /** What a call that succeeded owes the other end. */
  function Promise(a: App, api: Api, code: Code): App {
    if code != OK then a
    else
      match api
      case SendPing(data, _) => a.(out := a.out + [GotPing(data)])
      case SendPong(data, _) => a.(out := a.out + [GotPong(data)])
      case SendBlock(options, data, _) => Told(a, options.binary, true, true, data)
      case SendText(data, _) => Told(a, false, true, true, data)
      case StreamPart(text, info, data, _) => Told(a, !text, info.first, info.last, data)
      case StreamText(info, data, _) =>
        Told(a, false, info.first, info.last, if WholePrefix(data).Some? then data[..WholePrefix(data).value] else data)
      case SendClose(status, reason, _) => if status < 0 then a else CloseTold(a, status, reason)
  }

  /** A close frame ends everything at the other end. */
  function CloseTold(a: App, status: nat, reason: seq<byte>): App {
    App(None, a.out + if status == 0 then [GotClose(1005, []), ShutDown(0, "")]
                      else [GotClose(status, reason), ShutDown(status, "")])
  }

  /** What the answer to the peer's close or fault owes it, unless a close was asked for before. */
  function PromiseShut(a: App, c: Conn, e: Event, d: Draw): App
    requires e.Shut?
  {
    if c.queued || !d.mem then a else CloseTold(a, e.code, Text(e.why))
  }

  function PromiseAll(a: App, c: Conn, apis: seq<Api>): App
    requires ApisOk(apis) && 0 < c.maxPayload
  {
    if apis == [] then a
    else
      var n := |apis| - 1;
      Promise(PromiseAll(a, c, apis[..n]), apis[n], Do(DoAll(c, apis[..n]).conn, apis[n]).code)
  }

  function PromiseReact(a: App, c: Conn, events: seq<Event>, reactions: seq<seq<Api>>, d: Draw): App
    requires 0 < c.maxPayload && ReactionsOk(reactions)
  {
    if events == [] then a
    else
      var n := |events| - 1;
      var before, now := PromiseReact(a, c, events[..n], reactions, d), React(c, events[..n], reactions, d).conn;
      if events[n].Shut? then PromiseShut(before, now, events[n], d)
      else PromiseAll(before, now, Reaction(reactions, n))
  }

  /** The calls of the user for the n-th event. */
  function Reaction(reactions: seq<seq<Api>>, n: nat): (apis: seq<Api>)
    ensures ReactionsOk(reactions) ==> ApisOk(apis)
  {
    if n < |reactions| then reactions[n] else []
  }

  function PromiseOf(a: App, w: World, call: Call): App
    requires CallOk(call) && 0 < w.conn.maxPayload && Wf(w.recv)
  {
    match call
    case UserCalls(apis) => PromiseAll(a, w.conn, apis)
    case CurlGives(octets, reactions, d) => PromiseReact(a, w.conn, Receive(w.recv, octets).events, reactions, d)
    case CurlTakes(_) => a
  }

  /** What all the successful calls of a run, those of the user's callbacks included, owe the
      other end. */
  ghost function Promised(w: World, calls: seq<Call>): App
    requires Inv(w) && AllOk(calls)
  {
    if calls == [] then NOTHING
    else
      var n := |calls| - 1;
      InvReady(Run(w, calls[..n]));
      PromiseOf(Promised(w, calls[..n]), Run(w, calls[..n]), calls[n])
  }

  lemma PingCallTells(c: Conn, a: App, ping: bool, data: seq<byte>, d: Draw)
    requires IsObject(data)
    ensures var r := FrameSenderControl(c, if ping then CTRL_PING else CTRL_PONG, data, d);
            && Expect(a, r.frames) ==
               (if r.code == OK then a.(out := a.out + [if ping then GotPing(data) else GotPong(data)]) else a)
            && r.conn.last == c.last
  {
    hide NodeFor, Enqueued;
    ExpectOne(a, Frame(true, true, true, false, if ping then PING else PONG, d.key, |data|, data));
  }

  lemma BlockCallTells(c: Conn, a: App, kind: Flags, data: seq<byte>, draws: seq<Draw>)
    requires IsObject(data) && 0 < c.maxPayload && Mirrors(a, c) && EnoughForBlock(Arrival, |data|, draws, c.maxPayload)
    ensures var r := DataBlockSender(c, kind, data, draws);
            && Expect(a, r.frames) == (if r.code == OK then Told(a, kind.binary, true, true, data) else a)
            && Mirrors(Expect(a, r.frames), r.conn)
  {
    var options := kind.(first := true);
    if (kind == CWS_BINARY || kind == CWS_TEXT) && !c.Closing() {
      if |data| <= c.maxPayload {
        DataTells(c, a, options.(last := true), data, NextDraw(draws));
      } else if MayGo(c, options) {
        BlockTells(c, a, options, data, draws);
      } else {
        BlockRefused(c, options, data, draws);
      }
    }
    hide BlockLoop, Told, Mirrors, MayGo;
  }

  lemma BlockRefused(c: Conn, options: Flags, data: seq<byte>, draws: seq<Draw>)
    requires IsObject(data) && 0 < c.maxPayload && !MayGo(c, options)
    ensures var r := BlockLoop(c, options, data, draws); r.code != OK && r.frames == [] && r.conn == c
  {
    MayGoLast(c, options);
    hide NodeFor, Enqueued;
  }

  lemma StreamTells(c: Conn, a: App, text: bool, info: Flags, data: seq<byte>, d: Draw)
    requires IsObject(data) && Mirrors(a, c) && (d.mem || info.first == info.last)
    ensures var r := SendStream(c, text, info, data, d);
            && Expect(a, r.frames) == (if r.code == OK then Told(a, !text, info.first, info.last, data) else a)
            && Mirrors(Expect(a, r.frames), r.conn)
  {
    if info == NO_FLAGS && data == [] {
      if a.open.Some? { assert a.open.value.data + [] == a.open.value.data; }
    } else {
      var options := StreamOptions(text, info);
      DataTells(c, a, options, data, d);
      if FrameSenderData(c, options, data, d).code == OK { StreamType(c, a, text, info, data, d); }
    }
    hide FrameSenderData, Mirrors;
  }

  /** The type given to Told matters for a first part only, and there it is the stream's. */
  lemma StreamType(c: Conn, a: App, text: bool, info: Flags, data: seq<byte>, d: Draw)
    requires IsObject(data) && FrameSenderData(c, StreamOptions(text, info), data, d).code == OK
    ensures var o := StreamOptions(text, info);
            Told(a, o.binary, o.first, o.last, data) == Told(a, !text, info.first, info.last, data)
  {
    hide SendFrame;
  }

  /** What a part of a text stream puts on the wire. */
  function Sent(r: Result): seq<byte> {
    if r.frames == [] then [] else r.frames[0].payload
  }

  /** A part of a text stream that is accepted goes out as it was given exactly when it ends
      with a whole character; otherwise its last octets are dropped although the call succeeds. */
  lemma StreamTextKeepsAllExactly(c: Conn, info: Flags, text: seq<byte>, d: Draw)
    requires IsObject(text) && SendStrmText(c, info, text, d).code == OK
    ensures var sent := Sent(SendStrmText(c, info, text, d));
            sent <= text && IsText(sent) && (sent == text <==> IsText(text))
  {
    hide NodeFor, Enqueued, IsText, WholePrefix, DataOpcode;
    var len := WholePrefix(text).value;
    WholePrefixIsGrammar(text, len);
    TextIsWhole(text);
    TextIsWhole(text[..len]);
    assert Sent(SendStrmText(c, info, text, d)) == text[..len];
  }

  /** A middle part that is nothing but the beginning of a character is lost: the call succeeds
      and no frame is queued. */
  lemma StreamTextLosesAll(c: Conn, lead: byte, d: Draw)
    requires c.last != NO_FLAGS && 1 < GetSize(lead)
    ensures SendStrmText(c, NO_FLAGS, [lead], d) == Result(c, OK, [])
  {
    WholePrefixEnds([lead]);
    hide WholePrefix;
    assert [lead][..0] == [];
  }

  lemma DoTells(c: Conn, a: App, api: Api)
    requires ApiOk(api) && 0 < c.maxPayload && Mirrors(a, c) && EnoughFor(Arrival, api, c.maxPayload) && !api.SendClose?
    ensures var r := Do(c, api);
            Expect(a, r.frames) == Promise(a, api, r.code) && Mirrors(Expect(a, r.frames), r.conn)
  {
    hide FrameSenderControl, DataBlockSender, SendStream, WholePrefix, Told, FrameCount, AllMemory;
    match api {
      case SendPing(data, d) => PingCallTells(c, a, true, data, d);
      case SendPong(data, d) => PingCallTells(c, a, false, data, d);
      case SendBlock(options, data, draws) => BlockCallTells(c, a, options, data, draws);
      case SendText(data, draws) => BlockCallTells(c, a, CWS_TEXT, data, draws);
      case StreamPart(text, info, data, d) => StreamTells(c, a, text, info, data, d);
      case StreamText(info, data, d) =>
        if WholePrefix(data).Some? { StreamTells(c, a, true, info, data[..WholePrefix(data).value], d); }
    }
  }

  // ----- Closing -----

  lemma CloseFrameTells(a: App, status: nat, reason: seq<byte>, key: Key)
    requires NormalizeClose(status, reason).Normal?
    ensures |ClosePayload(status, reason)| <= CTL_PAYLOAD_MAX
    ensures var p := ClosePayload(status, reason);
            Expect(a, [Frame(true, true, true, false, CLOSE, key, |p|, p)]) == CloseTold(a, status, reason)
  {
    hide WholePrefix;
    var p := ClosePayload(status, reason);
    ExpectOne(a, Frame(true, true, true, false, CLOSE, key, |p|, p));
    if status != 0 {
      assert p[0] as int * 0x100 + p[1] == status && p[2..] == reason;
    }
  }

  /** cws_close on a connection that has not asked for a close. */
  lemma CloseTells(c: Conn, a: App, code: int, reason: seq<byte>, d: Draw)
    requires !c.queued
    ensures var r := ClientSpec.Close(c, code, reason, d);
            && Expect(a, r.frames) == Promise(a, SendClose(code, reason, d), r.code)
            && (r.frames == [] || (r.code == OK && 0 <= code && d.mem))
            && (!r.conn.queued ==> r.conn.last == c.last)
  {
    hide NodeFor, Enqueued, ClosePayload, CloseTold, NormalizeClose;
    if NormalizeClose(code, reason).Normal? && 0 <= code {
      NormalIs(code, reason);
      CloseFrameTells(a, code, reason, d.key);
    } else if NormalizeClose(code, reason).Normal? {
      NormalIs(code, reason);
    } else {
      RefusedIsError(code, reason);
    }
  }

  lemma RefusedIsError(code: int, reason: seq<byte>)
    requires NormalizeClose(code, reason).Refused?
    ensures NormalizeClose(code, reason).code != OK
  {
    hide WholePrefix;
  }

  lemma NormalIs(code: int, reason: seq<byte>)
    requires NormalizeClose(code, reason).Normal?
    ensures NormalizeClose(code, reason).urgent == (code < 0)
    ensures 0 <= code ==> NormalizeClose(code, reason).status == code
  {
    hide WholePrefix;
  }

  // ----- Any calls -----

  /** The server makes a of the frames so far. */
  ghost predicate Tells(c: Conn, frames: seq<Frame>, out: seq<byte>, a: App) {
    ConnOk(c, frames, out) && Expect(NOTHING, frames) == a && (!c.queued ==> Mirrors(a, c))
  }

  /** A call after a close was asked for owes nothing. */
  lemma DeafOwesNothing(c: Conn, a: App, api: Api)
    requires ApiOk(api) && 0 < c.maxPayload && c.queued
    ensures Promise(a, api, Do(c, api).code) == a
  {
    hide NormalizeClose, ClosePayload, BlockLoop, WholePrefix, SendStream;
    if api.SendClose? {
      if NormalizeClose(api.code, api.reason).Refused? { RefusedIsError(api.code, api.reason); }
    } else if api.StreamPart? {
      if SendStream(c, api.text, api.info, api.data, api.d).code == OK { DeafStream(c, a, api.text, api.info, api.data, api.d); }
    } else if api.StreamText? && WholePrefix(api.data).Some? {
      var part := api.data[..WholePrefix(api.data).value];
      if SendStream(c, true, api.info, part, api.d).code == OK { DeafStream(c, a, true, api.info, part, api.d); }
    }
  }

  lemma DeafStream(c: Conn, a: App, text: bool, info: Flags, data: seq<byte>, d: Draw)
    requires IsObject(data) && c.queued && SendStream(c, text, info, data, d).code == OK
    ensures Told(a, !text, info.first, info.last, data) == a
  {
    hide DataOpcode;
    assert info == NO_FLAGS && data == [];
    if a.open.Some? { assert a.open.value.data + [] == a.open.value.data; }
  }

  lemma DoTellsOn(c: Conn, frames: seq<Frame>, out: seq<byte>, a: App, api: Api)
    requires Tells(c, frames, out, a) && ApiOk(api) && 0 < c.maxPayload && EnoughFor(Arrival, api, c.maxPayload)
    ensures var r := Do(c, api); Tells(r.conn, frames + r.frames, out, Promise(a, api, r.code))
  {
    DoKeeps(c, frames, out, api);
    if c.queued {
      QueuedIsDeaf(c, api);
      DeafOwesNothing(c, a, api);
      hide Do, Promise, ConnOk, EnoughFor;
      assert frames + [] == frames;
    } else {
      NoCloseYet(c, frames, out);
      if api.SendClose? { CloseTells(c, a, api.code, api.reason, api.d); } else { DoTells(c, a, api); }
      hide ClientSpec.Close, Promise, ConnOk, EnoughFor, FrameSenderControl, DataBlockSender, SendBlkText, SendStream, SendStrmText;
      ExpectConcat(NOTHING, frames, Do(c, api).frames);
    }
  }

  lemma {:induction false} DoAllTells(c: Conn, frames: seq<Frame>, out: seq<byte>, a: App, apis: seq<Api>)
    requires Tells(c, frames, out, a) && ApisOk(apis) && 0 < c.maxPayload && EnoughForAll(Arrival, apis, c.maxPayload)
    ensures var r := DoAll(c, apis); Tells(r.conn, frames + r.frames, out, PromiseAll(a, c, apis))
  {
    hide Do, Promise, Tells, EnoughFor, ApiOk;
    assert frames + [] == frames;
    if apis != [] {
      var n := |apis| - 1;
      var before := DoAll(c, apis[..n]);
      DoAllTells(c, frames, out, a, apis[..n]);
      DoTellsOn(before.conn, frames + before.frames, out, PromiseAll(a, c, apis[..n]), apis[n]);
      var r := Do(before.conn, apis[n]);
      assert frames + before.frames + r.frames == frames + (before.frames + r.frames);
    }
  }

  lemma ShutTells(c: Conn, frames: seq<Frame>, out: seq<byte>, a: App, e: Event, d: Draw)
    requires Tells(c, frames, out, a) && e.Shut? && Closable(e)
    ensures var r := AnswerShut(c, e, d); Tells(r.conn, frames + r.frames, out, PromiseShut(a, c, e, d))
  {
    ErrorCloseKeeps(c, frames, out, e.code, Text(e.why), d);
    ShutQueues(c, a, e, d);
    if c.queued {
      hide ConnOk, AnswerShut;
      assert frames + [] == frames;
    } else {
      NoCloseYet(c, frames, out);
      hide ConnOk, AnswerShut, CloseTold;
      ExpectConcat(NOTHING, frames, AnswerShut(c, e, d).frames);
    }
  }

  lemma ShutQueues(c: Conn, a: App, e: Event, d: Draw)
    requires e.Shut? && Closable(e) && (c.received ==> c.queued)
    ensures var r := AnswerShut(c, e, d);
            r.conn.queued && (c.queued ==> r.frames == []) && Expect(a, r.frames) == PromiseShut(a, c, e, d)
  {
    hide NormalizeClose, Text, ClosePayload, NodeFor, Enqueued, CloseTold;
    if !c.queued {
      NormalIs(e.code, Text(e.why));
      CloseFrameTells(a, e.code, Text(e.why), d.key);
    }
  }

  lemma ReactUnfold(c: Conn, a: App, events: seq<Event>, reactions: seq<seq<Api>>, d: Draw)
    requires 0 < c.maxPayload && ReactionsOk(reactions) && EnoughToReact(Arrival, reactions, c.maxPayload)
    requires events != [] && !events[|events| - 1].Shut?
    ensures var n := |events| - 1;
            var before, apis := React(c, events[..n], reactions, d), Reaction(reactions, n);
            && ApisOk(apis) && EnoughForAll(Arrival, apis, c.maxPayload) && before.conn.maxPayload == c.maxPayload
            && var r := DoAll(before.conn, apis);
            && React(c, events, reactions, d) == Result(r.conn, r.code, before.frames + r.frames)
            && PromiseReact(a, c, events, reactions, d)
               == PromiseAll(PromiseReact(a, c, events[..n], reactions, d), before.conn, apis)
  {
    hide DoAll;
    var n := |events| - 1;
    if n < |reactions| { hide ApisOk, EnoughForAll; assert ApisOk(reactions[n]) && EnoughForAll(Arrival, reactions[n], c.maxPayload); }
  }

  lemma ShutUnfold(c: Conn, a: App, events: seq<Event>, reactions: seq<seq<Api>>, d: Draw)
    requires 0 < c.maxPayload && ReactionsOk(reactions) && events != [] && events[|events| - 1].Shut?
    ensures var n := |events| - 1;
            var before := React(c, events[..n], reactions, d);
            var r := AnswerShut(before.conn, events[n], d);
            && React(c, events, reactions, d) == Result(r.conn, r.code, before.frames + r.frames)
            && PromiseReact(a, c, events, reactions, d)
               == PromiseShut(PromiseReact(a, c, events[..n], reactions, d), before.conn, events[n], d)
  {
    hide DoAll, AnswerShut, PromiseShut;
  }

  /** Only the last event can be a shutdown, and then it is one that closes. */
  predicate EndsInShut(events: seq<Event>) {
    && (forall i {:trigger events[i]} :: 0 <= i < |events| - 1 ==> !events[i].Shut?)
    && (events != [] ==> Closable(events[|events| - 1]))
  }

  lemma NoShutBefore(events: seq<Event>)
    requires EndsInShut(events) && events != []
    ensures EndsInShut(events[..|events| - 1])
  {
    hide NormalizeClose, Text;
  }

  lemma ReactStep(c: Conn, frames: seq<Frame>, out: seq<byte>, a: App, events: seq<Event>, reactions: seq<seq<Api>>, d: Draw)
    requires 0 < c.maxPayload && ReactionsOk(reactions) && EnoughToReact(Arrival, reactions, c.maxPayload) && events != []
    requires Closable(events[|events| - 1])
    requires var before := React(c, events[..|events| - 1], reactions, d);
             Tells(before.conn, frames + before.frames, out, PromiseReact(a, c, events[..|events| - 1], reactions, d))
    ensures var r := React(c, events, reactions, d);
            Tells(r.conn, frames + r.frames, out, PromiseReact(a, c, events, reactions, d))
  {
    hide Tells, EnoughForAll, ApisOk, React, PromiseReact, PromiseAll, PromiseShut, Reaction, DoAll, AnswerShut, ReactionsOk,
         EnoughToReact, Closable;
    var n := |events| - 1;
    var before := React(c, events[..n], reactions, d);
    if events[n].Shut? {
      ShutUnfold(c, a, events, reactions, d);
      ShutTellsAfter(before.conn, frames, before.frames, out, PromiseReact(a, c, events[..n], reactions, d), events[n], d);
    } else {
      ReactUnfold(c, a, events, reactions, d);
      DoAllTellsAfter(before.conn, frames, before.frames, out, PromiseReact(a, c, events[..n], reactions, d), Reaction(reactions, n));
    }
  }

  lemma ShutTellsAfter(c: Conn, frames: seq<Frame>, more: seq<Frame>, out: seq<byte>, a: App, e: Event, d: Draw)
    requires Tells(c, frames + more, out, a) && e.Shut? && Closable(e)
    ensures var r := AnswerShut(c, e, d); Tells(r.conn, frames + (more + r.frames), out, PromiseShut(a, c, e, d))
  {
    hide Tells, AnswerShut, PromiseShut, Closable;
    ShutTells(c, frames + more, out, a, e, d);
    var r := AnswerShut(c, e, d);
    assert frames + more + r.frames == frames + (more + r.frames);
  }

  lemma DoAllTellsAfter(c: Conn, frames: seq<Frame>, more: seq<Frame>, out: seq<byte>, a: App, apis: seq<Api>)
    requires Tells(c, frames + more, out, a) && ApisOk(apis) && 0 < c.maxPayload && EnoughForAll(Arrival, apis, c.maxPayload)
    ensures var r := DoAll(c, apis); Tells(r.conn, frames + (more + r.frames), out, PromiseAll(a, c, apis))
  {
    hide Tells, EnoughForAll, ApisOk, DoAll, PromiseAll;
    DoAllTells(c, frames + more, out, a, apis);
    var r := DoAll(c, apis);
    assert frames + more + r.frames == frames + (more + r.frames);
  }

  lemma {:induction false} ReactTells(c: Conn, frames: seq<Frame>, out: seq<byte>, a: App, events: seq<Event>,
                                      reactions: seq<seq<Api>>, d: Draw)
    requires Tells(c, frames, out, a) && 0 < c.maxPayload && ReactionsOk(reactions) && EnoughToReact(Arrival, reactions, c.maxPayload)
    requires EndsInShut(events)
    ensures var r := React(c, events, reactions, d);
            Tells(r.conn, frames + r.frames, out, PromiseReact(a, c, events, reactions, d))
    decreases |events|
  {
    if events == [] {
      hide Tells;
      assert frames + [] == frames;
    } else {
      NoShutBefore(events);
      assert Closable(events[|events| - 1]);
      hide Tells, EndsInShut, ReactionsOk, EnoughToReact, React, PromiseReact, Closable;
      ReactTells(c, frames, out, a, events[..|events| - 1], reactions, d);
      ReactStep(c, frames, out, a, events, reactions, d);
    }
  }

  lemma TakesKeepLast(c: Conn, len: nat)
    requires QueueOk(c.queue)
    ensures SendCb(c, len).0.last == c.last && SendCb(c, len).0.queued == c.queued
  {
    hide Fill;
  }

  lemma TakesTells(w: World, a: App, len: nat)
    requires Inv(w) && Tells(w.conn, w.frames, w.out, a) && QueueOk(w.conn.queue) && 0 < w.conn.maxPayload
    ensures var w' := Act(w, CurlTakes(len)); Tells(w'.conn, w'.frames, w'.out, a)
  {
    hide SendCb, ConnOk, Expect, Wf;
    GiveKeeps(w.conn, w.frames, w.out, len);
    TakesKeepLast(w.conn, len);
  }

  lemma ActTells(w: World, a: App, call: Call)
    requires Inv(w) && CallOk(call) && Tells(w.conn, w.frames, w.out, a)
    requires 0 < w.conn.maxPayload && QueueOk(w.conn.queue) && Wf(w.recv) && Enough(Arrival, call, w.conn.maxPayload)
    ensures var w' := Act(w, call); Tells(w'.conn, w'.frames, w'.out, PromiseOf(a, w, call))
  {
    hide Receive, React, DoAll, Tells, EndsInShut, Wf, ConnOk;
    if call.CurlTakes? {
      TakesTells(w, a, call.len);
    } else if call.CurlGives? {
      GivenEndsInShut(w.recv, call.octets);
      ReactTells(w.conn, w.frames, w.out, a, Receive(w.recv, call.octets).events, call.reactions, call.d);
    } else {
      DoAllTells(w.conn, w.frames, w.out, a, call.apis);
    }
  }

  lemma GivenEndsInShut(r: Recv, octets: seq<byte>)
    requires Wf(r)
    ensures EndsInShut(Receive(r, octets).events)
  {
    hide Receive, Wf, Closable;
    ReceiveShuts(r, octets);
  }

  lemma NoCloseYet(c: Conn, frames: seq<Frame>, out: seq<byte>)
    requires ConnOk(c, frames, out) && !c.queued
    ensures forall i :: 0 <= i < |frames| ==> frames[i].opcode != CLOSE
  {
    hide Track, Good, Deliverable, Pending, AllFit, QueueOk;
  }

  lemma PromisedUnfold(w: World, calls: seq<Call>)
    requires Inv(w) && AllOk(calls) && calls != []
    ensures var n := |calls| - 1;
            && CallOk(calls[n]) && 0 < Run(w, calls[..n]).conn.maxPayload && Wf(Run(w, calls[..n]).recv)
            && Promised(w, calls) == PromiseOf(Promised(w, calls[..n]), Run(w, calls[..n]), calls[n])
  {
    InvReady(Run(w, calls[..|calls| - 1]));
    hide Run, PromiseOf, Inv;
  }

  lemma {:induction false} RunTells(w0: World, calls: seq<Call>)
    requires Inv(w0) && AllOk(calls) && w0.frames == [] && w0.conn.last == NO_FLAGS && 0 < w0.conn.maxPayload
    requires AllEnough(Arrival, calls, w0.conn.maxPayload)
    ensures var w := Run(w0, calls); Tells(w.conn, w.frames, w.out, Promised(w0, calls))
  {
    hide QueueOk, Wf, Later, Receive;
    if calls != [] {
      var n := |calls| - 1;
      var before, a := Run(w0, calls[..n]), Promised(w0, calls[..n]);
      RunUnfold(w0, calls);
      PromisedUnfold(w0, calls);
      KeepsMaxPayload(w0, calls[..n]);
      InvReady(before);
      hide Run, Promised, Inv, Act, Enough, PromiseOf, Tells;
      RunTells(w0, calls[..n]);
      ActTells(before, a, calls[n]);
    }
  }

  /** End to end over every run: the server reads the first of the frames that tell exactly the
      messages, pings and pongs of the calls that succeeded, in their order, and the close with
      its status and reason, whichever side began it; once curl has taken everything it has
      read them all. */
  lemma AcceptedIsDelivered(maxPayload: nat, calls: seq<Call>)
    requires 0 < maxPayload && AllOk(calls) && AllEnough(Arrival, calls, maxPayload)
    ensures Inv(Begin(maxPayload))
    ensures var w := Run(Begin(maxPayload), calls);
            && Parse(w.out) <= w.frames
            && Expect(NOTHING, w.frames) == Promised(Begin(maxPayload), calls)
            && (w.conn.queue == [] ==> Expect(NOTHING, Parse(w.out)) == Promised(Begin(maxPayload), calls))
  {
    BeginOk(maxPayload);
    RunTells(Begin(maxPayload), calls);
    ServerReadsFrames(maxPayload, calls);
  }
}
