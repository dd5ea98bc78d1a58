/**
 * Which texts the calls of the user accept, and that the text messages of a client are text at
 * the server.
 */
module TextCalls {
  import opened Bytes
  import opened Utf8
  import opened Utf8Theory
  import opened Frames
  import opened Events
  import opened ReceiveSpec
  import opened Handlers
  import opened ServerStream
  import opened SendSpec
  import opened ClientSpec
  import opened Connection
  import opened SenderGrammar
  import opened PeerTheory
  import opened MessageTheory

  // ----- cws_send_blk_text -----

  lemma {:induction false} BlockIsNoText(c: Conn, options: Flags, data: seq<byte>, draws: seq<Draw>)
    requires IsObject(data) && 0 < c.maxPayload
    ensures BlockLoop(c, options, data, draws).code != INVALID_UTF8
    decreases |data|
  {
    hide NodeFor, Enqueued;
    if c.maxPayload < |data| {
      var one := FrameSenderData(c, options, data[..c.maxPayload], NextDraw(draws));
      if one.code == OK { BlockIsNoText(one.conn, CWS_CONT, data[c.maxPayload..], LaterDraws(draws)); }
    }
  }

  /** A string that is not UTF-8 is refused as such, whatever the state, and changes nothing;
      any other is sent as a block of text. */
  lemma BlkTextExactly(c: Conn, s: seq<byte>, draws: seq<Draw>)
    requires IsObject(s) && 0 < c.maxPayload
    ensures var r := SendBlkText(c, s, draws);
            && (r.code == INVALID_UTF8 <==> !IsText(s))
            && r == if IsText(s) then DataBlockSender(c, CWS_TEXT, s, draws) else Result(c, INVALID_UTF8, [])
  {
    TextIsWhole(s);
    BlockIsNoText(c, CWS_TEXT.(first := true), s, draws);
    hide WholePrefix, IsText, BlockLoop;
  }

  /** On an open connection with no message in progress and enough memory every UTF-8 string is
      accepted, and the server puts it together again as a text. */
  lemma TextRoundTrip(c: Conn, s: seq<byte>, draws: seq<Draw>)
    requires IsObject(s) && IsText(s) && 0 < c.maxPayload && c.queue == [] && !c.Closing() && !InMessage(c.last)
    requires AllMemory(draws) && FrameCount(|s|, c.maxPayload) <= |draws|
    ensures var r := SendBlkText(c, s, draws);
            && r.code == OK && QueueOk(r.conn.queue)
            && Expect(NOTHING, Parse(Pending(r.conn.queue))) == App(None, [Message(false, s)])
  {
    hide IsText, DataBlockSender, SendBlkText, AllMemory, QueueOk, Parse, Expect, Pending;
    BlkTextExactly(c, s, draws);
    BlobRoundTrip(c, CWS_TEXT, s, draws);
  }

  // ----- Text at the server -----

  /** Every text message is UTF-8, and so is what there is of one that is not complete. */
  ghost predicate Clean(a: App) {
    && (a.open.Some? && !a.open.value.binary ==> IsText(a.open.value.data))
    && forall i :: 0 <= i < |a.out| && a.out[i].Message? && !a.out[i].binary ==> IsText(a.out[i].data)
  }

  /** Octets that a call adds to a text message without looking at them are UTF-8: a raw block
      of text, and a part of a binary or raw stream where the message in progress is a text. */
  ghost predicate AddsText(a: App, api: Api) {
    match api
    case SendBlock(options, data, _) => !options.binary ==> IsText(data)
    case StreamPart(text, info, data, _) =>
      (if info.first then text else a.open.Some? && !a.open.value.binary) ==> IsText(data)
    case _ => true
  }

  lemma ToldClean(a: App, binary: bool, first: bool, last: bool, data: seq<byte>)
    requires Clean(a)
    ensures Clean(Told(a, binary, first, last, data)) <==>
              ((if first then !binary else a.open.Some? && !a.open.value.binary) ==> IsText(data))
  {
    if !first && a.open.Some? && !a.open.value.binary { TextConcat(a.open.value.data, data); }
    hide IsText;
    var b := Told(a, binary, first, last, data);
    if b.out != a.out {
      var n := |a.out|;
      assert b.out[n].Message? && b.open == None;
      forall i | 0 <= i < n ensures b.out[i] == a.out[i] {}
    }
  }

  lemma OneMoreClean(a: App, o: Output)
    requires Clean(a) && !o.Message?
    ensures Clean(a.(out := a.out + [o]))
  {
    hide IsText;
  }

  /** A call that succeeds keeps the text messages at the other end UTF-8 exactly when it adds
      no other octets to one: the text calls of the interface never do. */
  lemma CallKeepsTextExactly(c: Conn, a: App, api: Api)
    requires ApiOk(api) && 0 < c.maxPayload && Clean(a) && Do(c, api).code == OK
    ensures Clean(Promise(a, api, OK)) <==> AddsText(a, api)
  {
    hide Told, CloseTold, NodeFor, Enqueued, BlockLoop, DataOpcode, NormalizeClose, ClosePayload, Clean, IsText, WholePrefix;
    match api {
      case SendPing(data, _) => OneMoreClean(a, GotPing(data));
      case SendPong(data, _) => OneMoreClean(a, GotPong(data));
      case SendBlock(options, data, _) => ToldClean(a, options.binary, true, true, data);
      case SendText(data, _) =>
        TextIsWhole(data);
        ToldClean(a, false, true, true, data);
      case StreamPart(text, info, data, _) => ToldClean(a, !text, info.first, info.last, data);
      case StreamText(info, data, _) =>
        var part := data[..WholePrefix(data).value];
        WholePrefixIsGrammar(data, |part|);
        ToldClean(a, false, info.first, info.last, part);
      case SendClose(status, reason, _) => if 0 <= status { CloseClean(a, status, reason); }
    }
  }

  lemma CloseClean(a: App, status: nat, reason: seq<byte>)
    requires Clean(a)
    ensures Clean(CloseTold(a, status, reason))
  {
    hide IsText;
  }

  // ----- Runs -----

  /** The calls among these that succeed add text to text messages, where the messages at the
      other end are those of a when the first is made. */
  ghost predicate AllAddText(a: App, c: Conn, apis: seq<Api>)
    requires ApisOk(apis) && 0 < c.maxPayload
  {
    apis == [] ||
    var n := |apis| - 1;
    && AllAddText(a, c, apis[..n])
    && (Do(DoAll(c, apis[..n]).conn, apis[n]).code == OK ==> AddsText(PromiseAll(a, c, apis[..n]), apis[n]))
  }

  ghost predicate ReactionsAddText(a: App, c: Conn, events: seq<Event>, reactions: seq<seq<Api>>, d: Draw)
    requires 0 < c.maxPayload && ReactionsOk(reactions)
  {
    events == [] ||
    var n := |events| - 1;
    && ReactionsAddText(a, c, events[..n], reactions, d)
    && (!events[n].Shut? ==> AllAddText(PromiseReact(a, c, events[..n], reactions, d),
                                        React(c, events[..n], reactions, d).conn, Reaction(reactions, n)))
  }

  ghost predicate CallAddsText(a: App, w: World, call: Call)
    requires CallOk(call) && 0 < w.conn.maxPayload && Wf(w.recv)
  {
    match call
    case UserCalls(apis) => AllAddText(a, w.conn, apis)
    case CurlGives(octets, reactions, d) => ReactionsAddText(a, w.conn, Receive(w.recv, octets).events, reactions, d)
    case CurlTakes(_) => true
  }

  ghost predicate RunAddsText(w: World, calls: seq<Call>)
    requires Inv(w) && AllOk(calls)
  {
    calls == [] ||
    var n := |calls| - 1;
    InvReady(Run(w, calls[..n]));
    RunAddsText(w, calls[..n]) && CallAddsText(Promised(w, calls[..n]), Run(w, calls[..n]), calls[n])
  }

  lemma {:induction false} AllClean(a: App, c: Conn, apis: seq<Api>)
    requires ApisOk(apis) && 0 < c.maxPayload && Clean(a) && AllAddText(a, c, apis)
    ensures Clean(PromiseAll(a, c, apis))
  {
    hide Clean, AddsText, Do, ApiOk;
    if apis != [] {
      var n := |apis| - 1;
      AllClean(a, c, apis[..n]);
      var before, now := PromiseAll(a, c, apis[..n]), DoAll(c, apis[..n]).conn;
      if Do(now, apis[n]).code == OK { CallKeepsTextExactly(now, before, apis[n]); }
    }
  }

  lemma {:induction false} ReactionsClean(a: App, c: Conn, events: seq<Event>, reactions: seq<seq<Api>>, d: Draw)
    requires 0 < c.maxPayload && ReactionsOk(reactions) && Clean(a) && ReactionsAddText(a, c, events, reactions, d)
    ensures Clean(PromiseReact(a, c, events, reactions, d))
    decreases |events|
  {
    hide Clean, AllAddText, PromiseAll, CloseTold, Text, Reaction, ReactionsOk;
    if events != [] {
      var n := |events| - 1;
      ReactionsClean(a, c, events[..n], reactions, d);
      var before, now := PromiseReact(a, c, events[..n], reactions, d), React(c, events[..n], reactions, d).conn;
      if events[n].Shut? {
        CloseClean(before, events[n].code, Text(events[n].why));
      } else {
        AllClean(before, now, Reaction(reactions, n));
      }
    }
  }

  lemma CallClean(a: App, w: World, call: Call)
    requires CallOk(call) && 0 < w.conn.maxPayload && Wf(w.recv) && Clean(a) && CallAddsText(a, w, call)
    ensures Clean(PromiseOf(a, w, call))
  {
    hide Clean, ReactionsAddText, AllAddText, PromiseAll, PromiseReact, Wf, Receive;
    if call.UserCalls? {
      AllClean(a, w.conn, call.apis);
    } else if call.CurlGives? {
      ReactionsClean(a, w.conn, Receive(w.recv, call.octets).events, call.reactions, call.d);
    }
  }

  lemma {:induction false} RunClean(w: World, calls: seq<Call>)
    requires Inv(w) && AllOk(calls) && RunAddsText(w, calls)
    ensures Clean(Promised(w, calls))
  {
    if calls == [] {
      hide IsText;
    } else {
      var n := |calls| - 1;
      RunClean(w, calls[..n]);
      PromisedUnfold(w, calls);
      hide Clean, Run, Promised, CallAddsText, PromiseOf, Inv, Wf;
      CallClean(Promised(w, calls[..n]), Run(w, calls[..n]), calls[n]);
    }
  }

  lemma {:induction false} ExpectGrows(a: App, fs: seq<Frame>, gs: seq<Frame>)
    requires fs <= gs
    ensures a.out <= Expect(a, fs).out <= Expect(a, gs).out
    decreases |gs|
  {
    if gs != [] {
      FrameGrows(a, gs[0]);
      hide ExpectFrame;
      if gs[0].opcode != CLOSE {
        if fs == [] { ExpectGrows(ExpectFrame(a, gs[0]), [], gs[1..]); } else { ExpectGrows(ExpectFrame(a, gs[0]), fs[1..], gs[1..]); }
      }
    }
  }

  lemma FrameGrows(a: App, f: Frame)
    ensures a.out <= ExpectFrame(a, f).out
  {}

  /** Over every run whose calls add only text to text messages, every text message that the
      server puts together from the octets it has been sent is UTF-8. */
  lemma TextArrives(maxPayload: nat, calls: seq<Call>)
    requires 0 < maxPayload && AllOk(calls) && AllEnough(Arrival, calls, maxPayload)
    requires Inv(Begin(maxPayload)) && RunAddsText(Begin(maxPayload), calls)
    ensures var told := Expect(NOTHING, Parse(Run(Begin(maxPayload), calls).out)).out;
            forall i :: 0 <= i < |told| && told[i].Message? && !told[i].binary ==> IsText(told[i].data)
  {
    hide IsText, RunAddsText, Promised, Run, Parse, Expect, AllEnough, Inv;
    AcceptedIsDelivered(maxPayload, calls);
    RunClean(Begin(maxPayload), calls);
    var w := Run(Begin(maxPayload), calls);
    ExpectGrows(NOTHING, Parse(w.out), w.frames);
  }

  // ----- The calls of the interface -----

  /** A call that looks at the text it sends, or begins a message that is not a text. */
  ghost predicate Checked(api: Api) {
    match api
    case SendBlock(options, _, _) => options != CWS_TEXT
    case StreamPart(text, info, data, _) => (!text && info.first) || IsText(data)
    case _ => true
  }

  ghost predicate CheckedCall(call: Call) {
    match call
    case UserCalls(apis) => forall i {:trigger apis[i]} :: 0 <= i < |apis| ==> Checked(apis[i])
    case CurlGives(_, reactions, _) =>
      forall i, j {:trigger reactions[i][j]} :: 0 <= i < |reactions| && 0 <= j < |reactions[i]| ==> Checked(reactions[i][j])
    case CurlTakes(_) => true
  }

  lemma CheckedAddsText(c: Conn, a: App, api: Api)
    requires ApiOk(api) && 0 < c.maxPayload && Checked(api) && Do(c, api).code == OK
    ensures AddsText(a, api)
  {
    hide IsText, BlockLoop, DataOpcode, NodeFor, Enqueued, NormalizeClose, WholePrefix;
  }

  lemma {:induction false} CheckedAll(a: App, c: Conn, apis: seq<Api>)
    requires ApisOk(apis) && 0 < c.maxPayload && forall i {:trigger apis[i]} :: 0 <= i < |apis| ==> Checked(apis[i])
    ensures AllAddText(a, c, apis)
  {
    hide Checked, AddsText, Do, ApiOk;
    if apis != [] {
      var n := |apis| - 1;
      CheckedAll(a, c, apis[..n]);
      var now := DoAll(c, apis[..n]).conn;
      if Do(now, apis[n]).code == OK { CheckedAddsText(now, PromiseAll(a, c, apis[..n]), apis[n]); }
    }
  }

  lemma {:induction false} CheckedReactions(a: App, c: Conn, events: seq<Event>, reactions: seq<seq<Api>>, d: Draw)
    requires 0 < c.maxPayload && ReactionsOk(reactions)
    requires forall i, j {:trigger reactions[i][j]} :: 0 <= i < |reactions| && 0 <= j < |reactions[i]| ==> Checked(reactions[i][j])
    ensures ReactionsAddText(a, c, events, reactions, d)
    decreases |events|
  {
    hide AllAddText, Checked, PromiseAll, DoAll;
    if events != [] {
      var n := |events| - 1;
      CheckedReactions(a, c, events[..n], reactions, d);
      if !events[n].Shut? {
        CheckedAll(PromiseReact(a, c, events[..n], reactions, d), React(c, events[..n], reactions, d).conn, Reaction(reactions, n));
      }
    }
  }

  /** The text calls, blocks that are not raw text and first parts of binary streams are enough by
      themselves. */
  lemma {:induction false} CheckedRun(w: World, calls: seq<Call>)
    requires Inv(w) && AllOk(calls) && forall i {:trigger calls[i]} :: 0 <= i < |calls| ==> CheckedCall(calls[i])
    ensures RunAddsText(w, calls)
  {
    if calls != [] {
      var n := |calls| - 1;
      InvReady(Run(w, calls[..n]));
      CheckedRun(w, calls[..n]);
      hide Run, Promised, AllAddText, ReactionsAddText, Inv, Wf, Receive, Checked;
      var before, a, call := Run(w, calls[..n]), Promised(w, calls[..n]), calls[n];
      if call.UserCalls? {
        CheckedAll(a, before.conn, call.apis);
      } else if call.CurlGives? {
        CheckedReactions(a, before.conn, Receive(before.recv, call.octets).events, call.reactions, call.d);
      }
    }
  }

  /** The sender does not remember the type of the message in progress: a part of a binary
      stream that continues a text is accepted, and the message that arrives is no text. */
  lemma MixedStreamIsNoText(maxPayload: nat, key: Key)
    requires 0 < maxPayload
    ensures var c := Opened(maxPayload);
            var r := SendStrmText(c, NO_FLAGS.(first := true), [0x61], Draw(key, true));
            var s := SendStream(r.conn, false, NO_FLAGS.(last := true), [0xFF], Draw(key, true));
            && r.code == OK && s.code == OK
            && Expect(NOTHING, r.frames + s.frames) == App(None, [Message(false, [0x61, 0xFF])])
            && !IsText([0x61, 0xFF])
  {
    var c := Opened(maxPayload);
    AsciiIsText([0x61]);
    TextConcat([0x61], [0xFF]);
    assert [0x61] + [0xFF] == [0x61, 0xFF];
    assert !IsText([0xFF]) by { WholePrefixEnds([0xFF]); TextIsWhole([0xFF]); }
    hide WholePrefix, IsText, NodeFor, Enqueued;
    assert [0x61][..1] == [0x61];
    var r := SendStrmText(c, NO_FLAGS.(first := true), [0x61], Draw(key, true));
    StreamTells(c, NOTHING, true, NO_FLAGS.(first := true), [0x61], Draw(key, true));
    StreamTells(r.conn, Expect(NOTHING, r.frames), false, NO_FLAGS.(last := true), [0xFF], Draw(key, true));
    var s := SendStream(r.conn, false, NO_FLAGS.(last := true), [0xFF], Draw(key, true));
    ExpectConcat(NOTHING, r.frames, s.frames);
  }
}
