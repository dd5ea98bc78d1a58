/**
 * A well-formed server stream is delivered message by message: an independent,
 * frame-at-a-time account of what the user should be told, and the proof that the
 * receiver tells exactly that.
 */
module ServerStream {
  import opened Bytes
  import opened Utf8
  import opened Utf8Theory
  import opened Frames
  import opened FrameTheory
  import opened Events
  import opened ReceiveSpec
  import opened Handlers
  import opened ChunkTheory
  import opened Delivery

  // ----- What a server may send, and what it means -----

  /** Any frame that can be written down, with its payload. */
  predicate WellMade(f: Frame) {
    Encodable(f) && |f.payload| == f.payloadLen && f.(payload := []) == OnWire(f)
  }

  function Octets(f: Frame): seq<byte> {
    HeaderBytes(f) + f.payload
  }

  function Wire(fs: seq<Frame>): seq<byte> {
    if fs == [] then [] else Octets(fs[0]) + Wire(fs[1..])
  }

  /** What is wrong with the payload of a close frame: section 7.1.5 of RFC 6455 asks for no
      status, or a valid one with a UTF-8 reason. */
  ghost function CloseRefusal(p: seq<byte>): Option<Event> {
    if p == [] then None
    else if |p| == 1 then Some(Shut(1002, "invalid close payload length"))
    else if !IsCloseCodeValid(p[0] as int * 0x100 + p[1]) then Some(Shut(1002, "invalid close reason"))
    else if !IsText(p[2..]) then Some(Shut(1007, ""))
    else None
  }

  function NextType(k: Stream, f: Frame): Stream {
    if f.isControl then k
    else if f.fin then NoStream
    else if f.opcode == TEXT then TextStream
    else if f.opcode == BINARY then BinaryStream
    else k
  }

  /** The header of frame f may come while a message of type k is in progress (section 5.4). */
  predicate InPlace(k: Stream, f: Frame) {
    && ValidByRfc(f, ServerToClient)
    && (f.opcode == CONTINUATION ==> k != NoStream)
    && (f.opcode == TEXT || f.opcode == BINARY ==> k == NoStream)
  }

  predicate HeaderLegal(k: Stream, f: Frame) {
    WellMade(f) && InPlace(k, f)
  }

  predicate CarriesText(k: Stream, f: Frame) {
    f.opcode == TEXT || (f.opcode == CONTINUATION && k == TextStream)
  }

  ghost predicate LegalFrame(k: Stream, f: Frame) {
    && HeaderLegal(k, f)
    && (f.opcode == CLOSE ==> CloseRefusal(f.payload) == None)
    && (CarriesText(k, f) ==> IsText(f.payload))
  }

  /** Nothing is asked of what follows a close frame. */
  ghost predicate Legal(k: Stream, fs: seq<Frame>)
    decreases |fs|
  {
    fs == [] || (LegalFrame(k, fs[0]) && (fs[0].opcode == CLOSE || Legal(NextType(k, fs[0]), fs[1..])))
  }

  function ExpectFrame(a: App, f: Frame): App {
    if f.opcode == PING then a.(out := a.out + [GotPing(f.payload)])
    else if f.opcode == PONG then a.(out := a.out + [GotPong(f.payload)])
    else if f.opcode == CLOSE then
      if |f.payload| < 2 then App(None, a.out + [GotClose(1005, []), ShutDown(0, "")])
      else
        var status := f.payload[0] as int * 0x100 + f.payload[1];
        App(None, a.out + [GotClose(status, f.payload[2..]), ShutDown(status, "")])
    else
      var now := if f.opcode == CONTINUATION then Extended(a.open, f.payload)
                 else Some(Partial(f.opcode == BINARY, f.payload));
      if f.fin && now.Some? then App(None, a.out + [Message(now.value.binary, now.value.data)])
      else App(now, a.out)
  }

  function Expect(a: App, fs: seq<Frame>): App
    decreases |fs|
  {
    if fs == [] then a
    else if fs[0].opcode == CLOSE then ExpectFrame(a, fs[0])
    else Expect(ExpectFrame(a, fs[0]), fs[1..])
  }

  // ----- One header -----

  predicate Between(r: Recv, k: Stream) {
    Wf(r) && r.Open? && r.frame.None? && r.header == [] && r.stream == k
  }

  /** Between frames, with no character pending. */
  predicate Idle(r: Recv, k: Stream) {
    Between(r, k) && r.more == 0
  }

  predicate SameOutcome(s: Step, t: Step) {
    s.next == t.next && s.events == t.events
  }

  /** What remains to be done once the header of the current frame is complete. */
  function Finish(m: Recv, rest: seq<byte>): Step
    requires WfAtPayload(m)
  {
    PayloadKeepsWf(m, rest);
    var p := PayloadStep(m, rest);
    if p.next.Closed? then p else Then(p, Receive(p.next, rest[p.used..]))
  }

  lemma PayloadKeepsWf(m: Recv, rest: seq<byte>)
    requires WfAtPayload(m)
    ensures ReadyForPayload(m) && Wf(PayloadStep(m, rest).next)
  {
    FrameOpen(m);
    if m.frame.value.isControl { ControlStepOk(m, rest); } else { DataStepOk(m, rest); }
  }

  predicate AsciiRest(m: Recv, rest: seq<byte>)
    requires WfAtPayload(m)
  {
    PayloadKeepsWf(m, rest);
    var p := PayloadStep(m, rest);
    AsciiPiece(m, rest) && (p.next.Closed? || AsciiText(p.next, rest[p.used..]))
  }

  /** After the header octets x the receiver is at the payload, in state m. */
  predicate Arrives(r: Recv, x: seq<byte>, rest: seq<byte>, m: Recv)
    requires Wf(r) && WfAtPayload(m)
  {
    && SameOutcome(Receive(r, x + rest), Finish(m, rest))
    && (AsciiText(r, x + rest) <==> AsciiRest(m, rest))
  }

  predicate Accepts(r: Recv, f: Frame, m: Recv)
    requires r.Open?
  {
    WfAtPayload(m) && AcceptFrame(r.(header := [], needed := 0), f, 0) == Step(m, 0, [])
  }

  /** The octets of a header are taken in as many passes as it needs. */
  lemma {:induction false} HeaderArrives(r: Recv, x: seq<byte>, rest: seq<byte>, f: Frame, m: Recv)
    requires Wf(r) && r.Open? && r.frame.None? && x != []
    requires Decode(r.header + x) == Got(f, |r.header + x|) && FrameValidate(f, ServerToClient) == 0
    requires Accepts(r, f, m)
    ensures Arrives(r, x, rest, m)
    decreases |x|
  {
    assert WfAtPayload(m);
    hide Accepts, Arrives, FrameValidate, WfAtPayload;
    assert Decode(r.header) == Need(Wanted(r));
    hide Decode, Wf, Wanted;
    HeaderSplits(r.header, x, Wanted(r), f);
    var y, z := x[..Wanted(r)], x[Wanted(r)..];
    Cut(r.header, x, rest, |y|);
    if z != [] {
      var r' := r.(header := r.header + y, needed := Decode(r.header + y).more);
      HeaderPassNeeds(r, y, z + rest, r');
      AcceptsSame(r, r', f, m);
      HeaderArrives(r', z, rest, f, m);
      ArrivesEarlier(r, r', x, z, rest, m);
    } else {
      HeaderPassGot(r, x, rest, f, m);
    }
  }

  lemma Cut(h: seq<byte>, x: seq<byte>, rest: seq<byte>, n: nat)
    requires n <= |x|
    ensures x + rest == x[..n] + (x[n..] + rest) && h + x[..n] + x[n..] == h + x
    ensures n == |x| ==> x[..n] == x
  {}

  /** The octets asked for are within the header; unless they complete it, more are asked for. */
  lemma HeaderSplits(h: seq<byte>, x: seq<byte>, n: nat, f: Frame)
    requires Decode(h) == Need(n) && Decode(h + x) == Got(f, |h + x|)
    ensures 0 < n <= |x|
    ensures n < |x| ==> Decode(h + x[..n]).Need?
  {
    NeedPositive(h);
    DeficitStaysInHeader(h, x);
    hide Decode;
    var y, z := x[..n], x[n..];
    assert h + x == h + y + z;
    if !Decode(h + y).Need? {
      DecodeIsStable(h + y, z);
      GotWithin(h + y);
    }
  }

  lemma NeedPositive(h: seq<byte>)
    requires Decode(h).Need?
    ensures 0 < Decode(h).more
  {}

  lemma GotWithin(b: seq<byte>)
    requires Decode(b).Got?
    ensures Decode(b).used <= |b|
  {}

  lemma AcceptsSame(r: Recv, r': Recv, f: Frame, m: Recv)
    requires r.Open? && r'.Open? && r' == r.(header := r'.header, needed := r'.needed)
    requires Accepts(r, f, m)
    ensures Accepts(r', f, m)
  {
    assert r'.(header := [], needed := 0) == r.(header := [], needed := 0);
    hide AcceptFrame;
  }

  lemma ArrivesEarlier(r: Recv, r': Recv, x: seq<byte>, z: seq<byte>, rest: seq<byte>, m: Recv)
    requires Wf(r) && Wf(r') && WfAtPayload(m) && Arrives(r', z, rest, m)
    requires SameOutcome(Receive(r, x + rest), Receive(r', z + rest))
    requires AsciiText(r, x + rest) <==> AsciiText(r', z + rest)
    ensures Arrives(r, x, rest, m)
  {
    hide Wf, WfAtPayload, Receive, Finish, AsciiRest, AsciiText;
  }

  /** A pass that takes the octets y and asks for more. */
  lemma HeaderPassNeeds(r: Recv, y: seq<byte>, rest: seq<byte>, r': Recv)
    requires Wf(r) && r.Open? && r.frame.None? && Wanted(r) == |y| && y != []
    requires Decode(r.header + y).Need?
    requires r' == r.(header := r.header + y, needed := Decode(r.header + y).more)
    ensures Wf(r') && SameOutcome(Receive(r, y + rest), Receive(r', rest))
    ensures AsciiText(r, y + rest) <==> AsciiText(r', rest)
  {
    HeaderPassIs(r, y, rest);
    hide Decode, ProcessFrame, HeaderStep, Wf;
    ProcessFrameUnfold(r, y + rest);
    ReceiveUnfold(r, y + rest);
    AsciiUnfold(r, y + rest);
    assert (y + rest)[|y|..] == rest;
    var t := Receive(r', rest);
    assert [] + t.events == t.events;
  }

  lemma HeaderPassIs(r: Recv, y: seq<byte>, rest: seq<byte>)
    requires Wf(r) && r.Open? && r.frame.None? && Wanted(r) == |y| && y != []
    requires Decode(r.header + y).Need?
    ensures var r' := r.(header := r.header + y, needed := Decode(r.header + y).more);
            HeaderStep(r, y + rest) == Step(r', |y|, []) && Wf(r')
  {
    assert (y + rest)[..|y|] == y;
    HeaderStepOk(r, y + rest);
    hide Decode, Wf, FrameValidate, AcceptFrame;
  }

  lemma HeaderPassGot(r: Recv, x: seq<byte>, rest: seq<byte>, f: Frame, m: Recv)
    requires Wf(r) && r.Open? && r.frame.None? && Wanted(r) == |x| && x != []
    requires Decode(r.header + x) == Got(f, |r.header + x|) && FrameValidate(f, ServerToClient) == 0
    requires Accepts(r, f, m)
    ensures Arrives(r, x, rest, m)
  {
    hide Decode, ProcessFrame, Wf, WfAtPayload, PayloadStep, AsciiPiece, Accepts, Receive, AtPayload, AsciiText;
    PassGotIs(r, x, rest, f, m);
    PayloadKeepsWf(m, rest);
    assert x + rest != [];
    ReceiveUnfold(r, x + rest);
    AsciiUnfold(r, x + rest);
    var p := PayloadStep(m, rest);
    if p.next.Open? { DropBoth(x, rest, p.used); }
  }

  lemma DropBoth(x: seq<byte>, rest: seq<byte>, n: nat)
    requires n <= |rest|
    ensures (x + rest)[|x| + n..] == rest[n..]
  {}

  lemma PassGotIs(r: Recv, x: seq<byte>, rest: seq<byte>, f: Frame, m: Recv)
    requires Wf(r) && r.Open? && r.frame.None? && Wanted(r) == |x| && x != []
    requires Decode(r.header + x) == Got(f, |r.header + x|) && FrameValidate(f, ServerToClient) == 0
    requires Accepts(r, f, m)
    ensures WfAtPayload(m) && ReadyForPayload(m)
    ensures AtPayload(r, x + rest) == Step(m, |x|, []) && (x + rest)[|x|..] == rest
    ensures var p := PayloadStep(m, rest);
            ReceiveSpec.ProcessFrame(r, x + rest) == Step(p.next, |x| + p.used, p.events)
  {
    FrameOpen(m);
    HeaderGotIs(r, x, rest, f, m);
    hide Decode, ProcessFrame, Wf, HeaderStep, WfAtPayload, PayloadStep, Accepts;
    ProcessFrameUnfold(r, x + rest);
    assert (x + rest)[|x|..] == rest;
    var p := PayloadStep(m, rest);
    assert [] + p.events == p.events;
  }

  lemma HeaderGotIs(r: Recv, x: seq<byte>, rest: seq<byte>, f: Frame, m: Recv)
    requires Wf(r) && r.Open? && r.frame.None? && Wanted(r) == |x| && x != []
    requires Decode(r.header + x) == Got(f, |r.header + x|) && FrameValidate(f, ServerToClient) == 0
    requires Accepts(r, f, m)
    ensures HeaderStep(r, x + rest) == Step(m, |x|, [])
  {
    assert (x + rest)[..|x|] == x;
    FrameOpen(m);
    AcceptUse(r.(header := [], needed := 0), f, |x|, 0);
    hide AcceptFrame, Decode, FrameValidate, Wf, WfAtPayload;
  }

  // ----- One frame -----

  /** What a legal frame must do, in the state m at its payload. */
  ghost predicate Delivers(s: Step, k: Stream, f: Frame) {
    && (forall a: App :: (k == NoStream <==> a.open == None) ==> DeliverAll(a, s.events) == ExpectFrame(a, f))
    && if f.opcode == CLOSE then s.next.Closed? else Idle(s.next, NextType(k, f)) && s.used == |f.payload|
  }

  /** A control frame, whether or not it stands inside a message or a character. */
  ghost predicate TellsControl(m: Recv, s: Step, k: Stream, f: Frame)
    requires m.Open?
  {
    && (forall a: App :: DeliverAll(a, s.events) == ExpectFrame(a, f))
    && if f.opcode == CLOSE then s.next.Closed?
       else Between(s.next, k) && s.next.stash == m.stash && s.next.more == m.more && s.used == |f.payload|
  }

  lemma ControlTells(m: Recv, k: Stream, f: Frame, rest: seq<byte>)
    requires WfAtPayload(m) && ReadyForPayload(m) && LegalFrame(k, f) && f.isControl && m.control == []
    requires m.frame == Some(OnWire(f)) && m.stream == k
    ensures TellsControl(m, PayloadStep(m, f.payload + rest), k, f)
  {
    var p := f.payload;
    assert (p + rest)[..|p|] == p && [] + p == p;
    if f.opcode == CLOSE {
      hide CloseEvents, IsText, ExpectFrame, WfAtPayload;
      forall a: App ensures DeliverAll(a, CloseEvents(p)) == ExpectFrame(a, f) { CloseDelivers(a, f); }
    } else {
      PingTells(m, k, f, rest);
    }
  }

  lemma PingTells(m: Recv, k: Stream, f: Frame, rest: seq<byte>)
    requires WfAtPayload(m) && ReadyForPayload(m) && (f.opcode == PING || f.opcode == PONG) && f.isControl
    requires m.control == [] && |f.payload| == f.payloadLen
    requires m.frame == Some(OnWire(f)) && m.stream == k
    ensures TellsControl(m, PayloadStep(m, f.payload + rest), k, f)
  {
    hide DeliverAll, Wf, ControlStep;
    var p := f.payload;
    var e := if f.opcode == PING then Ping(p) else Pong(p);
    PingIsTold(m, f, rest);
    ControlStepOk(m, p + rest);
    hide WfAtPayload;
    forall a: App ensures DeliverAll(a, [e]) == ExpectFrame(a, f) { DeliverOne(a, e); }
  }

  lemma PingIsTold(m: Recv, f: Frame, rest: seq<byte>)
    requires WfAtPayload(m) && ReadyForPayload(m) && (f.opcode == PING || f.opcode == PONG) && f.isControl
    requires m.control == [] && |f.payload| == f.payloadLen && m.frame == Some(OnWire(f))
    ensures var s, e := PayloadStep(m, f.payload + rest), if f.opcode == PING then Ping(f.payload) else Pong(f.payload);
            s == Step(m.(frame := None, header := [], needed := HEADER_MIN, control := []), |f.payload|, [e])
  {
    var p := f.payload;
    assert (p + rest)[..|p|] == p && [] + p == p;
  }

  lemma CloseDelivers(a: App, f: Frame)
    requires f.opcode == CLOSE && CloseRefusal(f.payload) == None
    ensures DeliverAll(a, CloseEvents(f.payload)) == ExpectFrame(a, f)
  {
    hide IsText, WholePrefix;
    var p := f.payload;
    if p != [] { TextIsWhole(p[2..]); }
    var es := CloseEvents(p);
    assert es == [es[0]] + [es[1]];
    DeliverConcat(a, [es[0]], [es[1]]);
    DeliverOne(a, es[0]);
    DeliverOne(Deliver(a, es[0]), es[1]);
  }

  lemma ControlDelivers(m: Recv, k: Stream, f: Frame, rest: seq<byte>)
    requires WfAtPayload(m) && ReadyForPayload(m) && LegalFrame(k, f) && f.isControl && m.control == []
    requires m.frame == Some(OnWire(f)) && m.more == 0 && m.stream == k
    ensures Delivers(PayloadStep(m, f.payload + rest), k, f)
  {
    hide WfAtPayload, ReadyForPayload, PayloadStep, ExpectFrame, DeliverAll, Between;
    ControlTells(m, k, f, rest);
  }

  lemma DataDelivers(m: Recv, k: Stream, f: Frame, rest: seq<byte>)
    requires WfAtPayload(m) && ReadyForPayload(m) && LegalFrame(k, f) && !f.isControl && m.more == 0
    requires m.frame == Some(OnWire(f))
    requires f.opcode == CONTINUATION ==> m.info == CWS_CONT && m.stream == k
    requires f.opcode == TEXT ==> m.info == CWS_TEXT.(first := true) && m.stream == TextStream
    requires f.opcode == BINARY ==> m.info == CWS_BINARY.(first := true) && m.stream == BinaryStream
    ensures Delivers(PayloadStep(m, f.payload + rest), k, f)
  {
    var p := f.payload;
    StashOkFits(m);
    assert (p + rest)[..|p|] == p;
    if m.stream == TextStream { TextIsWhole(p); }
    hide WholePrefix, IsText;
    assert m.(stash := [], more := 0) == m;
    assert PayloadStep(m, p + rest) == SendStep(m, |p|, p);
    SendDelivers(m, k, f);
  }

  lemma SendDelivers(m: Recv, k: Stream, f: Frame)
    requires WfAtPayload(m) && !f.isControl && m.more == 0 && IsDataOpcode(f.opcode)
    requires m.frame == Some(OnWire(f)) && |f.payload| == f.payloadLen
    requires f.opcode == CONTINUATION ==> m.info == CWS_CONT && m.stream == k && k != NoStream
    requires f.opcode == TEXT ==> m.info == CWS_TEXT.(first := true) && m.stream == TextStream
    requires f.opcode == BINARY ==> m.info == CWS_BINARY.(first := true) && m.stream == BinaryStream
    ensures var s := SendStep(m, |f.payload|, f.payload);
            && (forall a: App :: (k == NoStream <==> a.open == None) ==> DeliverAll(a, s.events) == ExpectFrame(a, f))
            && Idle(s.next, NextType(k, f))
  {
    var s := SendStep(m, |f.payload|, f.payload);
    hide DeliverAll, FragmentEvents;
    forall a: App | k == NoStream <==> a.open == None ensures DeliverAll(a, s.events) == ExpectFrame(a, f) {
      DeliverFragment(a, m.info.(last := f.fin), f.payload);
    }
  }

  /** The state in which an idle receiver meets the payload of frame f. */
  function AtFrame(r: Recv, f: Frame): Recv
    requires r.Open?
  {
    AcceptFrame(r.(header := [], needed := 0), OnWire(f), 0).next
  }

  lemma FrameAccepted(r: Recv, k: Stream, f: Frame)
    requires Between(r, k) && HeaderLegal(k, f)
    ensures var m := AtFrame(r, f);
            && Accepts(r, OnWire(f), m) && m.frame == Some(OnWire(f)) && m.more == r.more && m.stash == r.stash
            && m.stream == (if f.opcode == TEXT then TextStream
                            else if f.opcode == BINARY then BinaryStream else k)
            && (f.isControl ==> m.control == [])
            && (f.opcode == CONTINUATION ==> m.info == CWS_CONT)
            && (f.opcode == TEXT ==> m.info == CWS_TEXT.(first := true))
            && (f.opcode == BINARY ==> m.info == CWS_BINARY.(first := true))
  {
    hide HeaderBytes;
  }

  lemma HeaderArrivesAt(r: Recv, k: Stream, f: Frame, rest: seq<byte>)
    requires Between(r, k) && HeaderLegal(k, f)
    ensures var m := AtFrame(r, f);
            && WfAtPayload(m) && ReadyForPayload(m) && Wf(r) && Arrives(r, HeaderBytes(f), rest, m)
  {
    var x := HeaderBytes(f);
    var m := AtFrame(r, f);
    FrameAccepted(r, k, f);
    assert FrameValidate(OnWire(f), ServerToClient) == 0;
    hide FrameValidate, Arrives, AcceptFrame, HeaderBytes, AtFrame;
    DecodeEncoded(f, []);
    assert x + [] == x && r.header + x == x;
    hide Decode;
    assert x != [] by { HeaderNotEmpty(f); }
    HeaderArrives(r, x, rest, OnWire(f), m);
    FrameOpen(m);
  }

  /** A legal frame moves an idle receiver to the next idle state and tells its message. */
  lemma FrameDelivers(r: Recv, k: Stream, f: Frame, rest: seq<byte>)
    requires Idle(r, k) && LegalFrame(k, f)
    ensures var m := AtFrame(r, f);
            && WfAtPayload(m) && ReadyForPayload(m) && Delivers(PayloadStep(m, f.payload + rest), k, f)
            && Wf(r) && Arrives(r, HeaderBytes(f), f.payload + rest, m)
  {
    var m := AtFrame(r, f);
    FrameAccepted(r, k, f);
    HeaderArrivesAt(r, k, f, f.payload + rest);
    hide Arrives, Delivers, HeaderBytes, AtFrame, WfAtPayload, ReadyForPayload;
    if f.isControl { ControlDelivers(m, k, f, rest); } else { DataDelivers(m, k, f, rest); }
  }

  lemma HeaderNotEmpty(f: Frame)
    ensures 2 <= |HeaderBytes(f)|
  {}

  /** The same for a frame at the start of the wire. */
  lemma FrameOnWire(r: Recv, k: Stream, f: Frame, rest: seq<byte>)
    requires Idle(r, k) && LegalFrame(k, f)
    ensures var m := AtFrame(r, f);
            && WfAtPayload(m) && ReadyForPayload(m)
            && var s := PayloadStep(m, f.payload + rest);
            && Delivers(s, k, f) && Wf(s.next)
            && SameOutcome(Receive(r, Octets(f) + rest),
                           if f.opcode == CLOSE then s else Then(s, Receive(s.next, rest)))
            && (AsciiText(r, Octets(f) + rest) <==>
                AsciiPiece(m, f.payload + rest) && (f.opcode == CLOSE || AsciiText(s.next, rest)))
  {
    FrameDelivers(r, k, f, rest);
    hide LegalFrame, Receive, Wf, WfAtPayload, ReadyForPayload, AsciiText, AsciiPiece, HeaderBytes, PayloadStep, AtFrame, Arrives;
    var m := AtFrame(r, f);
    ArrivedOutcome(r, HeaderBytes(f), f.payload, rest, m, f.opcode == CLOSE);
  }

  lemma ArrivedOutcome(r: Recv, x: seq<byte>, p: seq<byte>, rest: seq<byte>, m: Recv, closes: bool)
    requires Wf(r) && WfAtPayload(m) && ReadyForPayload(m) && Arrives(r, x, p + rest, m)
    requires var s := PayloadStep(m, p + rest); if closes then s.next.Closed? else s.next.Open? && s.used == |p|
    ensures var s := PayloadStep(m, p + rest);
            && Wf(s.next)
            && SameOutcome(Receive(r, x + p + rest), if closes then s else Then(s, Receive(s.next, rest)))
            && (AsciiText(r, x + p + rest) <==> AsciiPiece(m, p + rest) && (closes || AsciiText(s.next, rest)))
  {
    assert x + p + rest == x + (p + rest);
    ArrivesMeans(r, x, p + rest, m);
    AfterPayload(m, p, rest, closes);
    hide *;
  }

  lemma ArrivesMeans(r: Recv, x: seq<byte>, rest: seq<byte>, m: Recv)
    requires Wf(r) && WfAtPayload(m) && Arrives(r, x, rest, m)
    ensures SameOutcome(Receive(r, x + rest), Finish(m, rest)) && (AsciiText(r, x + rest) <==> AsciiRest(m, rest))
  {
    hide Receive, Wf, WfAtPayload, AsciiText, AsciiRest, Finish, SameOutcome;
  }

  lemma AfterPayload(m: Recv, p: seq<byte>, rest: seq<byte>, closes: bool)
    requires WfAtPayload(m) && ReadyForPayload(m)
    requires var s := PayloadStep(m, p + rest); if closes then s.next.Closed? else s.next.Open? && s.used == |p|
    ensures var s := PayloadStep(m, p + rest);
            && Wf(s.next)
            && Finish(m, p + rest) == (if closes then s else Then(s, Receive(s.next, rest)))
            && (AsciiRest(m, p + rest) <==> AsciiPiece(m, p + rest) && (closes || AsciiText(s.next, rest)))
  {
    PayloadKeepsWf(m, p + rest);
    hide Receive, Wf, WfAtPayload, ReadyForPayload, AsciiText, AsciiPiece, PayloadStep;
    assert (p + rest)[|p|..] == rest;
  }

  // ----- The whole stream -----

  lemma ExpectKeepsType(k: Stream, a: App, f: Frame)
    requires LegalFrame(k, f) && f.opcode != CLOSE && (k == NoStream <==> a.open == None)
    ensures NextType(k, f) == NoStream <==> ExpectFrame(a, f).open == None
  {}

  function TypeAfter(k: Stream, fs: seq<Frame>): Stream
    decreases |fs|
  {
    if fs == [] then k else TypeAfter(NextType(k, fs[0]), fs[1..])
  }

  predicate NoClose(fs: seq<Frame>) {
    forall i {:trigger fs[i]} :: 0 <= i < |fs| ==> fs[i].opcode != CLOSE
  }

  /** Legal frames without a close, and then anything: the user has been told their messages
      when an idle receiver meets what follows. */
  lemma {:induction false} StreamThen(r: Recv, k: Stream, a: App, fs: seq<Frame>, rest: seq<byte>) returns (r': Recv)
    requires Idle(r, k) && Legal(k, fs) && NoClose(fs) && (k == NoStream <==> a.open == None)
    ensures Idle(r', TypeAfter(k, fs)) && (TypeAfter(k, fs) == NoStream <==> Expect(a, fs).open == None)
    ensures var s, t := Receive(r, Wire(fs) + rest), Receive(r', rest);
            s.next == t.next && DeliverAll(a, s.events) == DeliverAll(Expect(a, fs), t.events)
    decreases |fs|
  {
    hide LegalFrame, Receive, WfAtPayload, AsciiText, AsciiPiece, Octets, PayloadStep, AtFrame, NextType, ExpectFrame;
    if fs == [] {
      assert Wire(fs) + rest == rest;
      r' := r;
    } else {
      var f, more := fs[0], Wire(fs[1..]) + rest;
      assert Wire(fs) + rest == Octets(f) + more;
      FrameOnWire(r, k, f, more);
      var s := PayloadStep(AtFrame(r, f), f.payload + more);
      assert DeliverAll(a, s.events) == ExpectFrame(a, f);
      ExpectKeepsType(k, a, f);
      r' := StreamThen(s.next, NextType(k, f), ExpectFrame(a, f), fs[1..], rest);
      hide DeliverAll, Wf, ReadyForPayload;
      DeliverConcat(a, s.events, Receive(s.next, more).events);
    }
  }

  /** Received in one piece, a legal stream tells the user exactly its messages, and leaves the
      receiver idle in the message it is in, or closed after a close frame. */
  lemma {:induction false} StreamDelivers(r: Recv, k: Stream, a: App, fs: seq<Frame>)
    requires Idle(r, k) && Legal(k, fs) && (k == NoStream <==> a.open == None)
    ensures var s := Receive(r, Wire(fs));
            && DeliverAll(a, s.events) == Expect(a, fs)
            && if NoClose(fs) then Idle(s.next, TypeAfter(k, fs)) else s.next.Closed?
    decreases |fs|
  {
    if fs != [] {
      var f, rest := fs[0], Wire(fs[1..]);
      FrameOnWire(r, k, f, rest);
      var s := PayloadStep(AtFrame(r, f), f.payload + rest);
      NoCloseCons(fs);
      hide LegalFrame, Receive, WfAtPayload, Wf, AsciiText, AsciiPiece, Octets, PayloadStep, AtFrame, NextType, ExpectFrame, NoClose;
      assert DeliverAll(a, s.events) == ExpectFrame(a, f);
      if f.opcode != CLOSE {
        ExpectKeepsType(k, a, f);
        StreamDelivers(s.next, NextType(k, f), ExpectFrame(a, f), fs[1..]);
        DeliverConcat(a, s.events, Receive(s.next, rest).events);
      }
    } else {
      ReceiveUnfold(r, []);
    }
  }

  lemma NoCloseCons(fs: seq<Frame>)
    requires fs != []
    ensures NoClose(fs) <==> fs[0].opcode != CLOSE && NoClose(fs[1..])
  {
    if fs[0].opcode != CLOSE && NoClose(fs[1..]) {
      forall i | 0 <= i < |fs| ensures fs[i].opcode != CLOSE {
        if 0 < i { assert fs[i] == fs[1..][i - 1]; }
      }
    }
  }

  /** Every data payload is ASCII unless it belongs to a binary message. */
  predicate AsciiFrames(k: Stream, fs: seq<Frame>)
    decreases |fs|
  {
    fs == [] ||
    var f := fs[0];
    && (f.opcode == TEXT || (f.opcode == CONTINUATION && k == TextStream) ==> IsAscii(f.payload))
    && (f.opcode == CLOSE || AsciiFrames(NextType(k, f), fs[1..]))
  }

  lemma {:induction false} AsciiStream(r: Recv, k: Stream, fs: seq<Frame>)
    requires Idle(r, k) && Legal(k, fs) && AsciiFrames(k, fs)
    ensures AsciiText(r, Wire(fs))
    decreases |fs|
  {
    if fs != [] {
      var f, rest := fs[0], Wire(fs[1..]);
      FrameAccepted(r, k, f);
      FrameOnWire(r, k, f, rest);
      FrameIsAscii(AtFrame(r, f), k, f, rest);
      hide LegalFrame, Receive, WfAtPayload, Wf, AsciiText, AsciiPiece, Octets, PayloadStep, AtFrame, NextType, Accepts;
      if f.opcode != CLOSE {
        AsciiStream(PayloadStep(AtFrame(r, f), f.payload + rest).next, NextType(k, f), fs[1..]);
      }
    }
  }

  lemma FrameIsAscii(m: Recv, k: Stream, f: Frame, rest: seq<byte>)
    requires m.Open? && m.frame == Some(OnWire(f)) && LegalFrame(k, f)
    requires m.stream == (if f.opcode == TEXT then TextStream else if f.opcode == BINARY then BinaryStream else k)
    requires f.opcode == TEXT || (f.opcode == CONTINUATION && k == TextStream) ==> IsAscii(f.payload)
    ensures AsciiPiece(m, f.payload + rest)
  {
    assert (f.payload + rest)[..|f.payload|] == f.payload;
  }

  /** End to end: a server sends any legal sequence of frames whose text is ASCII, the network
      cuts the octets anywhere, and the user is told exactly the messages sent. */
  lemma DeliveredHoweverCut(fs: seq<Frame>, chunks: seq<seq<byte>>)
    requires Legal(NoStream, fs) && AsciiFrames(NoStream, fs) && Flatten(chunks) == Wire(fs)
    ensures DeliverAll(NOTHING, ReceiveAll(INITIAL, chunks).events) == Expect(NOTHING, fs)
  {
    assert Idle(INITIAL, NoStream);
    AsciiStream(INITIAL, NoStream, fs);
    AsciiChunkingIndependence(chunks);
    StreamDelivers(INITIAL, NoStream, NOTHING, fs);
  }

  /** The same for any text, as long as no cut falls where it matters. */
  lemma DeliveredIfHarmless(fs: seq<Frame>, chunks: seq<seq<byte>>)
    requires Legal(NoStream, fs) && AllHarmless(INITIAL, chunks) && Flatten(chunks) == Wire(fs)
    ensures DeliverAll(NOTHING, ReceiveAll(INITIAL, chunks).events) == Expect(NOTHING, fs)
  {
    assert Idle(INITIAL, NoStream);
    ChunkingIndependence(INITIAL, chunks);
    StreamDelivers(INITIAL, NoStream, NOTHING, fs);
  }
}
