/**
 * The data frames a client accepts for sending form whole messages in order (section 5.4 of
 * RFC 6455), exactly as long as no allocation fails in the wrong place.
 */
module SenderGrammar {
  import opened Bytes
  import opened Utf8
  import opened Frames
  import opened Events
  import opened ReceiveSpec
  import opened SendSpec
  import opened ClientSpec
  import opened Connection

  /** The last data frame did not end its message. */
  predicate OpenAfter(frames: seq<Frame>) {
    frames != [] &&
    var n := |frames| - 1;
    if frames[n].isControl then OpenAfter(frames[..n]) else !frames[n].fin
  }

  /** A continuation frame comes exactly where a message is unfinished. */
  predicate Fragmented(frames: seq<Frame>) {
    frames == [] ||
    var n := |frames| - 1;
    && Fragmented(frames[..n])
    && (!frames[n].isControl ==> (frames[n].opcode == CONTINUATION <==> OpenAfter(frames[..n])))
  }

  predicate InMessage(last: Flags) {
    last != NO_FLAGS && !last.last
  }

  /** What the sender remembers agrees with what it has sent. */
  predicate InSync(c: Conn, frames: seq<Frame>) {
    InMessage(c.last) <==> OpenAfter(frames)
  }

  lemma OneMore(frames: seq<Frame>, f: Frame)
    ensures OpenAfter(frames + [f]) <==> if f.isControl then OpenAfter(frames) else !f.fin
    ensures Fragmented(frames + [f]) <==>
              Fragmented(frames) && (!f.isControl ==> (f.opcode == CONTINUATION <==> OpenAfter(frames)))
  {
    assert (frames + [f])[..|frames|] == frames;
  }

  /** One call of frame_sender_data.  An accepted frame fits exactly if the sender was in step,
      and puts it in step again.  If there is no memory, what the sender remembers changes
      although nothing was sent: it stays (or gets) in step exactly when the frame was a whole
      message or a middle part.  Any other error changes nothing. */
  lemma DataFrameExactly(c: Conn, frames: seq<Frame>, options: Flags, data: seq<byte>, d: Draw)
    requires IsObject(data)
    ensures var r := FrameSenderData(c, options, data, d);
            if r.code == OK then
              && |r.frames| == 1
              && (Fragmented(frames + r.frames) <==> Fragmented(frames) && InSync(c, frames))
              && InSync(r.conn, frames + r.frames)
            else if r.code == OUT_OF_MEMORY then
              && r.frames == []
              && (InSync(r.conn, frames) <==> (InSync(c, frames) <==> (options.first <==> options.last)))
            else r == Result(c, r.code, [])
  {
    hide NodeFor, Enqueued, OpenAfter, Fragmented;
    var (code, opcode) := DataOpcode(c.last, options);
    if code == OK && !c.Closing() {
      OneMore(frames, Frame(options.last, true, false, false, opcode, d.key, |data|, data));
    }
  }

  // ----- Runs -----

  predicate WellFragmented(c: Conn, frames: seq<Frame>) {
    Fragmented(frames) && InSync(c, frames)
  }

  /** What memory is wanted for: that frames form messages, or that messages arrive. */
  datatype Aim = Order | Arrival

  /** An allocation may fail for a control frame, a whole message or a middle part of a stream;
      in the middle of a block a failure ends the call, so that the message never arrives. */
  predicate EnoughFor(aim: Aim, api: Api, max: nat)
    requires 0 < max
  {
    match api
    case SendBlock(_, data, draws) => EnoughForBlock(aim, |data|, draws, max)
    case SendText(data, draws) => EnoughForBlock(aim, |data|, draws, max)
    case StreamPart(_, info, _, d) => d.mem || info.first == info.last
    case StreamText(info, _, d) => d.mem || info.first == info.last
    case _ => true
  }

  predicate EnoughForBlock(aim: Aim, n: nat, draws: seq<Draw>, max: nat)
    requires 0 < max
  {
    n <= max || (NextDraw(draws).mem && EnoughToGoOn(aim, n - max, LaterDraws(draws), max))
  }

  /** The last n octets of a block of which a frame is out. */
  predicate EnoughToGoOn(aim: Aim, n: nat, draws: seq<Draw>, max: nat)
    requires 0 < max
  {
    if n <= max then NextDraw(draws).mem
    else if NextDraw(draws).mem then EnoughToGoOn(aim, n - max, LaterDraws(draws), max)
    else aim == Order
  }

  predicate EnoughForAll(aim: Aim, apis: seq<Api>, max: nat)
    requires 0 < max
  {
    forall i {:trigger apis[i]} :: 0 <= i < |apis| ==> EnoughFor(aim, apis[i], max)
  }

  predicate EnoughToReact(aim: Aim, reactions: seq<seq<Api>>, max: nat)
    requires 0 < max
  {
    forall i {:trigger reactions[i]} :: 0 <= i < |reactions| ==> EnoughForAll(aim, reactions[i], max)
  }

  predicate Enough(aim: Aim, call: Call, max: nat)
    requires 0 < max
  {
    match call
    case UserCalls(apis) => EnoughForAll(aim, apis, max)
    case CurlGives(_, reactions, _) => EnoughToReact(aim, reactions, max)
    case CurlTakes(_) => true
  }

  predicate AllEnough(aim: Aim, calls: seq<Call>, max: nat)
    requires 0 < max
  {
    forall i {:trigger calls[i]} :: 0 <= i < |calls| ==> Enough(aim, calls[i], max)
  }

  lemma DataInStep(c: Conn, frames: seq<Frame>, options: Flags, data: seq<byte>, d: Draw)
    requires IsObject(data) && WellFragmented(c, frames) && (d.mem || options.first == options.last)
    ensures var r := FrameSenderData(c, options, data, d); WellFragmented(r.conn, frames + r.frames)
  {
    DataFrameExactly(c, frames, options, data, d);
    hide FrameSenderData;
    assert frames + [] == frames;
  }

  lemma {:induction false} BlockInStep(c: Conn, frames: seq<Frame>, options: Flags, data: seq<byte>, draws: seq<Draw>)
    requires IsObject(data) && 0 < c.maxPayload && WellFragmented(c, frames) && !options.last
    requires if options.first then EnoughForBlock(Order, |data|, draws, c.maxPayload)
             else EnoughToGoOn(Order, |data|, draws, c.maxPayload)
    ensures var r := BlockLoop(c, options, data, draws); WellFragmented(r.conn, frames + r.frames)
    decreases |data|
  {
    hide FrameSenderData, WellFragmented;
    var d, later := NextDraw(draws), LaterDraws(draws);
    if |data| <= c.maxPayload {
      DataInStep(c, frames, options.(last := true), data, d);
    } else {
      var one := FrameSenderData(c, options, data[..c.maxPayload], d);
      KeepsMax(c, options, data[..c.maxPayload], d);
      GoesWithMemory(c, options, data[..c.maxPayload], d);
      DataInStep(c, frames, options, data[..c.maxPayload], d);
      if one.code == OK {
        var rest := BlockLoop(one.conn, CWS_CONT, data[c.maxPayload..], later);
        BlockInStep(one.conn, frames + one.frames, CWS_CONT, data[c.maxPayload..], later);
        assert frames + one.frames + rest.frames == frames + (one.frames + rest.frames);
      }
    }
  }

  lemma GoesWithMemory(c: Conn, options: Flags, data: seq<byte>, d: Draw)
    requires IsObject(data)
    ensures FrameSenderData(c, options, data, d).code == OK ==> d.mem
  {
    hide NodeFor, Enqueued;
  }

  lemma ControlInStep(c: Conn, frames: seq<Frame>, r: Result)
    requires WellFragmented(c, frames) && r.conn.last == c.last
    requires r.frames == [] || (|r.frames| == 1 && r.frames[0].isControl)
    ensures WellFragmented(r.conn, frames + r.frames)
  {
    if r.frames == [] {
      assert frames + [] == frames;
    } else {
      assert r.frames == [r.frames[0]];
      OneMore(frames, r.frames[0]);
      hide OpenAfter, Fragmented;
    }
  }

  lemma DoInStep(c: Conn, frames: seq<Frame>, api: Api)
    requires ApiOk(api) && 0 < c.maxPayload && WellFragmented(c, frames) && EnoughFor(Order, api, c.maxPayload)
    ensures WellFragmented(Do(c, api).conn, frames + Do(c, api).frames)
  {
    hide WellFragmented, NodeFor, Enqueued, BlockLoop, WholePrefix, NormalizeClose, ClosePayload;
    assert frames + [] == frames;
    if api.SendPing? || api.SendPong? || api.SendClose? {
      ControlInStep(c, frames, Do(c, api));
    } else if api.SendBlock? {
      if api.options == CWS_BINARY || api.options == CWS_TEXT {
        BlockInStep(c, frames, api.options.(first := true), api.data, api.draws);
      }
    } else if api.SendText? {
      BlockInStep(c, frames, CWS_TEXT.(first := true), api.data, api.draws);
    } else {
      hide FrameSenderData;
      if api.StreamPart? {
        DataInStep(c, frames, StreamOptions(api.text, api.info), api.data, api.d);
      } else if WholePrefix(api.data).Some? {
        DataInStep(c, frames, StreamOptions(true, api.info), api.data[..WholePrefix(api.data).value], api.d);
      }
    }
  }

  lemma {:induction false} DoAllInStep(c: Conn, frames: seq<Frame>, apis: seq<Api>)
    requires ApisOk(apis) && 0 < c.maxPayload && WellFragmented(c, frames) && EnoughForAll(Order, apis, c.maxPayload)
    ensures WellFragmented(DoAll(c, apis).conn, frames + DoAll(c, apis).frames)
  {
    hide WellFragmented, Do, EnoughFor, ApiOk;
    assert frames + [] == frames;
    if apis != [] {
      var n := |apis| - 1;
      var before := DoAll(c, apis[..n]);
      DoAllInStep(c, frames, apis[..n]);
      DoInStep(before.conn, frames + before.frames, apis[n]);
      var r := Do(before.conn, apis[n]);
      assert frames + before.frames + r.frames == frames + (before.frames + r.frames);
    }
  }

  lemma ShutDownInStep(c: Conn, frames: seq<Frame>, e: Event, d: Draw)
    requires e.Shut? && WellFragmented(c, frames)
    ensures var r := AnswerShut(c, e, d); WellFragmented(r.conn, frames + r.frames)
  {
    var r := AnswerShut(c, e, d);
    hide WellFragmented, NodeFor, Enqueued, NormalizeClose, ClosePayload, Text;
    assert r.conn.last == c.last && (r.frames == [] || (|r.frames| == 1 && r.frames[0].isControl));
    ControlInStep(c, frames, r);
  }

  lemma {:induction false} ReactInStep(c: Conn, frames: seq<Frame>, events: seq<Event>, reactions: seq<seq<Api>>, d: Draw)
    requires 0 < c.maxPayload && ReactionsOk(reactions) && WellFragmented(c, frames)
    requires EnoughToReact(Order, reactions, c.maxPayload)
    ensures var r := React(c, events, reactions, d); WellFragmented(r.conn, frames + r.frames)
  {
    hide WellFragmented, AnswerShut, ApisOk, EnoughForAll;
    assert frames + [] == frames;
    if events != [] {
      var n := |events| - 1;
      var before := React(c, events[..n], reactions, d);
      ReactInStep(c, frames, events[..n], reactions, d);
      var apis := if n < |reactions| then reactions[n] else [];
      assert ApisOk(apis) && EnoughForAll(Order, apis, c.maxPayload) by { NoApis(c.maxPayload); }
      var r := if events[n].Shut? then AnswerShut(before.conn, events[n], d) else DoAll(before.conn, apis);
      if events[n].Shut? {
        ShutDownInStep(before.conn, frames + before.frames, events[n], d);
      } else {
        DoAllInStep(before.conn, frames + before.frames, apis);
      }
      assert frames + before.frames + r.frames == frames + (before.frames + r.frames);
    }
  }

  lemma NoApis(max: nat)
    requires 0 < max
    ensures ApisOk([]) && EnoughForAll(Order, [], max)
  {}

  lemma TakesInStep(c: Conn, frames: seq<Frame>, len: nat)
    requires WellFragmented(c, frames) && QueueOk(c.queue)
    ensures WellFragmented(SendCb(c, len).0, frames)
  {
    hide Fill;
  }

  lemma ActInStep(w: World, call: Call)
    requires Inv(w) && CallOk(call) && WellFragmented(w.conn, w.frames)
    requires 0 < w.conn.maxPayload && QueueOk(w.conn.queue) && Enough(Order, call, w.conn.maxPayload)
    ensures WellFragmented(Act(w, call).conn, Act(w, call).frames)
  {
    InvReady(w);
    hide WellFragmented, DoAll, Inv, React, SendCb;
    if call.CurlTakes? {
      TakesInStep(w.conn, w.frames, call.len);
    } else if call.CurlGives? {
      ReactInStep(w.conn, w.frames, Receive(w.recv, call.octets).events, call.reactions, call.d);
    } else {
      DoAllInStep(w.conn, w.frames, call.apis);
    }
  }

  lemma KeepsMaxPayload(w: World, calls: seq<Call>)
    requires Inv(w) && AllOk(calls)
    ensures Run(w, calls).conn.maxPayload == w.conn.maxPayload
  {
    RunLater(w, calls, 0);
    assert calls[..0] == [];
    hide Inv;
  }

  /** Over every run in which no allocation fails in the wrong place, messages are never
      interleaved and no continuation is an orphan. */
  lemma {:induction false} RunsAreFragmented(w: World, calls: seq<Call>)
    requires Inv(w) && AllOk(calls) && WellFragmented(w.conn, w.frames)
    requires 0 < w.conn.maxPayload && AllEnough(Order, calls, w.conn.maxPayload)
    ensures var w' := Run(w, calls); WellFragmented(w'.conn, w'.frames)
  {
    if calls != [] {
      var n := |calls| - 1;
      hide WellFragmented, Enough, Inv, Act;
      RunUnfold(w, calls);
      KeepsMaxPayload(w, calls[..n]);
      RunsAreFragmented(w, calls[..n]);
      ActInStep(Run(w, calls[..n]), calls[n]);
    }
  }

  /** If the first part of a message finds no memory, the next part is still accepted and goes
      out as a continuation of nothing. */
  lemma OrphanContinuation(maxPayload: nat, a: seq<byte>, b: seq<byte>, key: Key)
    requires 0 < maxPayload && IsObject(a) && IsObject(b)
    ensures var call := UserCalls([StreamPart(false, NO_FLAGS.(first := true), a, Draw(key, false)),
                                   StreamPart(false, NO_FLAGS.(last := true), b, Draw(key, true))]);
            && Inv(Begin(maxPayload)) && AllOk([call])
            && var w := Run(Begin(maxPayload), [call]);
            |w.frames| == 1 && w.frames[0].opcode == CONTINUATION && !Fragmented(w.frames)
  {
    hide Inv, Later, SendStream, Act;
    var c0, c1 := StreamPart(false, NO_FLAGS.(first := true), a, Draw(key, false)),
                  StreamPart(false, NO_FLAGS.(last := true), b, Draw(key, true));
    var w0 := Begin(maxPayload);
    var call := UserCalls([c0, c1]);
    BeginOk(maxPayload);
    FirstPartLost(maxPayload, a, key);
    LastPartAlone(Opened(maxPayload).(last := CWS_BINARY.(first := true)), b, key);
    DoOne(w0.conn, c0);
    assert [c0, c1][..1] == [c0];
    RunUnfold(w0, [call]);
    assert [call][..0] == [];
    OnlyCall(w0, call);
    var f := Run(w0, [call]).frames[0];
    OneMore([], f);
    assert Run(w0, [call]).frames == [] + [f];
  }

  lemma OnlyCall(w: World, call: Call)
    requires Inv(w) && CallOk(call) && call.UserCalls? && w.frames == []
    requires 0 < w.conn.maxPayload && QueueOk(w.conn.queue)
    ensures Act(w, call).frames == DoAll(w.conn, call.apis).frames
  {
    hide DoAll;
  }

  lemma FirstPartLost(maxPayload: nat, a: seq<byte>, key: Key)
    requires IsObject(a)
    ensures SendStream(Opened(maxPayload), false, NO_FLAGS.(first := true), a, Draw(key, false)) ==
            Result(Opened(maxPayload).(last := CWS_BINARY.(first := true)), OUT_OF_MEMORY, [])
  {}

  lemma LastPartAlone(c: Conn, b: seq<byte>, key: Key)
    requires IsObject(b) && !c.Closing() && c.last == CWS_BINARY.(first := true)
    ensures var r := SendStream(c, false, NO_FLAGS.(last := true), b, Draw(key, true));
            |r.frames| == 1 && r.frames[0].opcode == CONTINUATION && !r.frames[0].isControl
  {
    hide NodeFor, Enqueued;
  }
}
