/**
 * Text messages whose characters span frames, with control frames in between, which section
 * 5.4 of RFC 6455 allows: exactly what the receiver makes of them.
 */
module SpanningText {
  import opened Bytes
  import opened Utf8
  import opened Utf8Theory
  import opened Frames
  import opened FrameTheory
  import opened Events
  import opened ReceiveSpec
  import opened Handlers
  import opened ChunkTheory
  import opened ServerStream
  import opened TextFragments

  // ----- The frames of one message -----

  /** The rest of a text message, or a whole one if k is NoStream, with control frames in
      between: TEXT first, and only the last data frame ends the message; a close frame cuts it
      short. */
  ghost predicate MessagePart(k: Stream, fs: seq<Frame>)
    decreases |fs|
  {
    fs != [] && (k == NoStream || k == TextStream)
    && var f := fs[0];
    if f.isControl then LegalFrame(k, f) && if f.opcode == CLOSE then |fs| == 1 else MessagePart(k, fs[1..])
    else
      && HeaderLegal(k, f) && f.opcode == (if k == NoStream then TEXT else CONTINUATION)
      && if f.fin then |fs| == 1 else MessagePart(TextStream, fs[1..])
  }

  /** The message is complete. */
  predicate Ends(fs: seq<Frame>) {
    fs != [] && !fs[|fs| - 1].isControl
  }

  /** The payloads of the data frames. */
  function Payloads(fs: seq<Frame>): seq<seq<byte>> {
    if fs == [] then [] else (if fs[0].isControl then [] else [fs[0].payload]) + Payloads(fs[1..])
  }

  /** What the control frames tell. */
  function Controls(fs: seq<Frame>): seq<Output> {
    if fs == [] then [] else (if fs[0].isControl then ExpectFrame(NOTHING, fs[0]).out else []) + Controls(fs[1..])
  }

  /** How many frames come before the one that is refused. */
  function RefusedAt(stash: seq<byte>, more: nat, fs: seq<Frame>): (n: nat)
    requires StashShape(stash, more) && |stash| + more <= 4
    ensures n <= |fs|
    decreases |fs|
  {
    if fs == [] then 0
    else if fs[0].isControl then 1 + RefusedAt(stash, more, fs[1..])
    else
      match TextStep(stash, more, fs[0].fin, fs[0].payload)
      case TextBad => 0
      case TextOk(s1, m1, _) =>
        TextStepOk(stash, more, fs[0].fin, fs[0].payload);
        1 + RefusedAt(s1, m1, fs[1..])
  }

  /** What the user has been told in the end, if t became of the payloads and n frames came
      before the one that is refused. */
  function ToldInTheEnd(a: App, d: seq<byte>, fs: seq<Frame>, t: TextResult, n: nat): App
    requires t.TextBad? ==> n <= |fs|
  {
    match t
    case TextBad => App(None, a.out + Controls(fs[..n]) + [ShutDown(1007, "")])
    case TextOk(_, _, sent) => App(None, a.out + Controls(fs) + if Ends(fs) then [Message(false, d + sent)] else [])
  }

  lemma EndsRest(fs: seq<Frame>)
    requires fs != []
    ensures Ends(fs[1..]) <==> |fs| > 1 && Ends(fs)
  {
    if |fs| > 1 { assert fs[1..][|fs| - 2] == fs[|fs| - 1]; }
  }

  lemma {:induction false} EndsHasPayload(fs: seq<Frame>)
    requires Ends(fs)
    ensures Payloads(fs) != []
  {
    EndsRest(fs);
    if |fs| > 1 { EndsHasPayload(fs[1..]); }
  }

  /** The last data frame is the one that ends the message. */
  lemma FinIsLast(k: Stream, fs: seq<Frame>)
    requires MessagePart(k, fs) && !fs[0].isControl
    ensures Payloads(fs) == [fs[0].payload] + Payloads(fs[1..])
    ensures fs[0].fin <==> Ends(fs) && |Payloads(fs)| == 1
    ensures !fs[0].fin ==> |fs| > 1
  {
    hide HeaderLegal, LegalFrame;
    EndsRest(fs);
    if Ends(fs[1..]) { EndsHasPayload(fs[1..]); }
  }

  // ----- Frame by frame -----

  lemma ShapedBetween(r: Recv, k: Stream)
    requires Between(r, k)
    ensures r.Open? && StashShape(r.stash, r.more) && |r.stash| + r.more <= 4
  {}

  /** One frame of a text message. */
  lemma FrameOfText(r: Recv, k: Stream, a: App, f: Frame, rest: seq<byte>)
    requires Between(r, k) && (k == NoStream || k == TextStream) && HeaderLegal(k, f)
    requires f.opcode == (if k == NoStream then TEXT else CONTINUATION)
    ensures StashShape(r.stash, r.more) && |r.stash| + r.more <= 4
    ensures var s, t := Receive(r, Octets(f) + rest), TextStep(r.stash, r.more, f.fin, f.payload);
            if t.TextBad? then s.next.Closed? && DeliverAll(a, s.events) == Deliver(a, Shut(1007, ""))
            else
              var next := AfterFrame(f, t.stash, t.more);
              && Between(next, if f.fin then NoStream else TextStream)
              && s.next == Receive(next, rest).next
              && DeliverAll(a, s.events) ==
                 DeliverAll(Deliver(a, Fragment(FirstInfo(k).(last := f.fin), t.send)), Receive(next, rest).events)
  {
    hide HeaderBytes, PayloadStep, WfAtPayload, ReadyForPayload, Wf, DeliverAll, Receive, AsciiRest, AtFrame, Finish, Arrives,
         TextStep, Deliver, AfterFrame, StashShape;
    ShapedBetween(r, k);
    FrameAccepted(r, k, f);
    var m := AtFrame(r, f);
    HeaderArrivesAt(r, k, f, f.payload + rest);
    TextPayload(m, k, a, f, rest);
    var s, t := PayloadStep(m, f.payload + rest), TextStep(r.stash, r.more, f.fin, f.payload);
    hide HeaderLegal;
    ArrivedOutcome(r, HeaderBytes(f), f.payload, rest, m, t.TextBad?);
    if t.TextOk? { DeliverConcat(a, s.events, Receive(s.next, rest).events); }
  }

  function FirstInfo(k: Stream): Flags {
    if k == NoStream then CWS_TEXT.(first := true) else CWS_CONT
  }

  /** Between messages, perhaps with a character pending. */
  function AfterMessage(stash: seq<byte>, more: nat): Recv {
    INITIAL.(stash := stash, more := more)
  }

  /** The state after a frame of a text message. */
  function AfterFrame(f: Frame, stash: seq<byte>, more: nat): Recv {
    if f.fin then AfterMessage(stash, more) else Open([], 0, None, [], stash, more, TextStream, CWS_CONT)
  }

  lemma TextPayload(m: Recv, k: Stream, a: App, f: Frame, rest: seq<byte>)
    requires WfAtPayload(m) && ReadyForPayload(m) && HeaderLegal(k, f) && !f.isControl && m.stream == TextStream
    requires m.frame == Some(OnWire(f)) && m.info == FirstInfo(k)
    ensures var s, t := PayloadStep(m, f.payload + rest), TextStep(m.stash, m.more, f.fin, f.payload);
            if t.TextBad? then s.next.Closed? && DeliverAll(a, s.events) == Deliver(a, Shut(1007, ""))
            else
              && s.next == AfterFrame(f, t.stash, t.more) && s.used == |f.payload|
              && Between(s.next, if f.fin then NoStream else TextStream)
              && DeliverAll(a, s.events) == Deliver(a, Fragment(m.info.(last := f.fin), t.send))
  {
    StashOkFits(m);
    var p := f.payload;
    assert (p + rest)[..|p|] == p;
    var t := TextStep(m.stash, m.more, f.fin, p);
    TextStepOk(m.stash, m.more, f.fin, p);
    hide TextStep;
    if t.TextBad? {
      DeliverOne(a, Shut(1007, ""));
      hide DeliverAll;
    } else {
      SendsFrame(m.(stash := t.stash, more := t.more), k, a, f, t.send);
      hide SendStep, DeliverAll;
    }
  }

  lemma SendsFrame(m: Recv, k: Stream, a: App, f: Frame, send: seq<byte>)
    requires WfAtPayload(m) && m.frame == Some(OnWire(f)) && m.info == FirstInfo(k) && m.stream == TextStream
    requires !f.isControl && |f.payload| == f.payloadLen && f.(payload := []) == OnWire(f)
    ensures var s := SendStep(m, |f.payload|, send);
            && s.next == AfterFrame(f, m.stash, m.more) && s.used == |f.payload|
            && Between(s.next, if f.fin then NoStream else TextStream)
            && DeliverAll(a, s.events) == Deliver(a, Fragment(m.info.(last := f.fin), send))
  {
    hide FragmentEvents, Deliver, DeliverAll;
    DeliverFragment(a, m.info.(last := f.fin), send);
  }

  /** One control frame. */
  lemma ControlInside(r: Recv, k: Stream, a: App, f: Frame, rest: seq<byte>) returns (next: Recv)
    requires Between(r, k) && LegalFrame(k, f) && f.isControl
    ensures var s := Receive(r, Octets(f) + rest);
            if f.opcode == CLOSE then s.next.Closed? && DeliverAll(a, s.events) == ExpectFrame(a, f)
            else
              && Between(next, k) && next.Open? && next.stash == r.stash && next.more == r.more
              && s.next == Receive(next, rest).next
              && DeliverAll(a, s.events) == DeliverAll(ExpectFrame(a, f), Receive(next, rest).events)
  {
    hide HeaderBytes, PayloadStep, WfAtPayload, ReadyForPayload, Wf, DeliverAll, Receive, AsciiRest, ExpectFrame, AtFrame, Finish,
         CloseRefusal, Arrives;
    FrameAccepted(r, k, f);
    var m := AtFrame(r, f);
    HeaderArrivesAt(r, k, f, f.payload + rest);
    ControlTells(m, k, f, rest);
    var s := PayloadStep(m, f.payload + rest);
    next := s.next;
    hide LegalFrame, HeaderLegal;
    ArrivedOutcome(r, HeaderBytes(f), f.payload, rest, m, f.opcode == CLOSE);
    assert DeliverAll(a, s.events) == ExpectFrame(a, f);
    if f.opcode != CLOSE { DeliverConcat(a, s.events, Receive(s.next, rest).events); }
  }

  lemma ControlIsTold(a: App, d: seq<byte>, fs: seq<Frame>, t: TextResult, n: nat)
    requires fs != [] && fs[0].isControl && IsControlOpcode(fs[0].opcode) && fs[0].opcode != CLOSE
    requires n <= |fs| - 1 && |fs| > 1
    ensures ToldInTheEnd(ExpectFrame(a, fs[0]), d, fs[1..], t, n) == ToldInTheEnd(a, d, fs, t, n + 1)
    ensures ExpectFrame(a, fs[0]).open == a.open
  {
    var o := ExpectFrame(NOTHING, fs[0]).out;
    EndsRest(fs);
    FirstOf(fs, n);
    assert ExpectFrame(a, fs[0]) == a.(out := a.out + o);
    Joined(a.out, o, Controls(fs[1..]));
    Joined(a.out, o, Controls(fs[1..][..n]));
  }

  lemma FirstOf(fs: seq<Frame>, n: nat)
    requires n < |fs|
    ensures Controls(fs[..n + 1]) ==
            (if fs[0].isControl then ExpectFrame(NOTHING, fs[0]).out else []) + Controls(fs[1..][..n])
  {
    assert fs[..n + 1][0] == fs[0] && fs[..n + 1][1..] == fs[1..][..n];
    hide ExpectFrame;
  }

  lemma Joined(x: seq<Output>, y: seq<Output>, z: seq<Output>)
    ensures x + (y + z) == x + y + z && [] + y == y && x + [] == x
  {}

  /** All payloads from a frame and the later ones. */
  predicate Follows(t: TextResult, later: TextResult, all: TextResult) {
    if t.TextBad? || later.TextBad? then all == TextBad
    else all == TextOk(later.stash, later.more, t.send + later.send)
  }

  lemma TextIsTold(a: App, b: App, d: seq<byte>, fs: seq<Frame>, t: TextResult, later: TextResult, all: TextResult, n: nat)
    requires |fs| > 1 && !fs[0].isControl && n <= |fs| - 1 && t.TextOk? && b.out == a.out && Follows(t, later, all)
    ensures ToldInTheEnd(b, d + t.send, fs[1..], later, n) == ToldInTheEnd(a, d, fs, all, n + 1)
  {
    hide ExpectFrame;
    EndsRest(fs);
    FirstOf(fs, n);
    Joined([], Controls(fs[1..]), []);
    Joined([], Controls(fs[1..][..n]), []);
    if later.TextOk? { assert d + t.send + later.send == d + (t.send + later.send); }
  }

  /** The octets d of the message in progress have been handed on. */
  predicate HoldsPart(k: Stream, a: App, d: seq<byte>) {
    if k == NoStream then d == [] else a.open == Some(Partial(false, d))
  }

  /** What the user holds after a part of a text message. */
  lemma PartDelivered(k: Stream, a: App, d: seq<byte>, f: Frame, send: seq<byte>)
    requires HoldsPart(k, a, d)
    ensures Deliver(a, Fragment(FirstInfo(k).(last := f.fin), send)) ==
            if f.fin then App(None, a.out + [Message(false, d + send)]) else App(Some(Partial(false, d + send)), a.out)
  {
    assert [] + send == send;
  }

  // ----- The whole message -----

  /** What has become of a message, and what of the octets that follow it. */
  ghost predicate TellsMessage(s: Step, a: App, d: seq<byte>, fs: seq<Frame>, t: TextResult, n: nat, rest: seq<byte>) {
    && (t.TextBad? ==> n < |fs|)
    && if t.TextOk? && Ends(fs) then
         var next := AfterMessage(t.stash, t.more);
         && Between(next, NoStream)
         && s.next == Receive(next, rest).next
         && DeliverAll(a, s.events) == DeliverAll(ToldInTheEnd(a, d, fs, t, n), Receive(next, rest).events)
       else s.next.Closed? && DeliverAll(a, s.events) == ToldInTheEnd(a, d, fs, t, n)
  }

  predicate SamePending(t: TextResult, t1: TextResult) {
    if t1.TextOk? then t.TextOk? && t.stash == t1.stash && t.more == t1.more else t.TextBad?
  }

  /** Frames later the same holds of the whole message. */
  lemma TellsEarlier(s: Step, s1: Step, a: App, a1: App, d: seq<byte>, d1: seq<byte>, fs: seq<Frame>,
                     t: TextResult, t1: TextResult, n: nat, rest: seq<byte>)
    requires |fs| > 1 && n <= |fs| - 1 && TellsMessage(s1, a1, d1, fs[1..], t1, n, rest)
    requires s.next == s1.next && DeliverAll(a, s.events) == DeliverAll(a1, s1.events)
    requires SamePending(t, t1)
    requires ToldInTheEnd(a1, d1, fs[1..], t1, n) == ToldInTheEnd(a, d, fs, t, n + 1)
    ensures TellsMessage(s, a, d, fs, t, n + 1, rest)
  {
    hide Receive, DeliverAll, ToldInTheEnd, Between;
    EndsRest(fs);
  }

  lemma AfterIsShaped(stash: seq<byte>, more: nat, final: bool, p: seq<byte>)
    requires StashShape(stash, more) && |stash| + more <= 4 && TextStep(stash, more, final, p).TextOk?
    ensures var t := TextStep(stash, more, final, p); StashShape(t.stash, t.more) && |t.stash| + t.more <= 4
  {
    TextStepOk(stash, more, final, p);
    hide TextStep;
  }

  /** A message that a close frame cuts short. */
  lemma CutShort(a: App, d: seq<byte>, fs: seq<Frame>, stash: seq<byte>, more: nat)
    requires |fs| == 1 && fs[0].isControl && fs[0].opcode == CLOSE && StashShape(stash, more) && |stash| + more <= 4
    ensures Payloads(fs) == [] && !Ends(fs) && Fragments(stash, more, Payloads(fs), Ends(fs)) == TextOk(stash, more, [])
    ensures forall n: nat :: ToldInTheEnd(a, d, fs, TextOk(stash, more, []), n) == ExpectFrame(a, fs[0])
  {
    var o := ExpectFrame(NOTHING, fs[0]).out;
    assert fs[1..] == [] && Controls(fs) == o + [];
    Joined(o, [], []);
    assert ExpectFrame(a, fs[0]) == App(None, a.out + o);
    Joined(a.out + o, [], []);
  }

  lemma ControlFirst(k: Stream, fs: seq<Frame>, stash: seq<byte>, more: nat)
    requires MessagePart(k, fs) && fs[0].isControl && fs[0].opcode != CLOSE && StashShape(stash, more) && |stash| + more <= 4
    ensures |fs| > 1 && MessagePart(k, fs[1..]) && LegalFrame(k, fs[0]) && IsControlOpcode(fs[0].opcode)
    ensures Fragments(stash, more, Payloads(fs), Ends(fs)) == Fragments(stash, more, Payloads(fs[1..]), Ends(fs[1..]))
    ensures RefusedAt(stash, more, fs) == 1 + RefusedAt(stash, more, fs[1..])
  {
    hide Fragments;
    EndsRest(fs);
    assert [] + Payloads(fs[1..]) == Payloads(fs[1..]);
  }

  /** What becomes of the payloads if the first frame is part of the text. */
  lemma FirstOfText(k: Stream, fs: seq<Frame>, stash: seq<byte>, more: nat)
    requires MessagePart(k, fs) && !fs[0].isControl && StashShape(stash, more) && |stash| + more <= 4
    ensures HeaderLegal(k, fs[0]) && fs[0].opcode == (if k == NoStream then TEXT else CONTINUATION)
    ensures var f, t := fs[0], TextStep(stash, more, fs[0].fin, fs[0].payload);
            var all, n := Fragments(stash, more, Payloads(fs), Ends(fs)), RefusedAt(stash, more, fs);
            if t.TextBad? then all == TextBad && n == 0
            else if f.fin then all == TextOk(t.stash, t.more, t.send) && |fs| == 1 && Ends(fs)
            else
              && |fs| > 1 && MessagePart(TextStream, fs[1..]) && StashShape(t.stash, t.more) && |t.stash| + t.more <= 4
              && n == 1 + RefusedAt(t.stash, t.more, fs[1..])
              && Follows(t, Fragments(t.stash, t.more, Payloads(fs[1..]), Ends(fs[1..])), all)
  {
    hide TextStep, HeaderLegal, LegalFrame, StashShape;
    FinIsLast(k, fs);
    EndsRest(fs);
    var f, t := fs[0], TextStep(stash, more, fs[0].fin, fs[0].payload);
    if t.TextOk? {
      AfterIsShaped(stash, more, f.fin, f.payload);
      assert Payloads(fs)[0] == f.payload && Payloads(fs)[1..] == Payloads(fs[1..]);
      if f.fin { assert t.send + [] == t.send && fs[1..] == []; }
    }
  }

  lemma RefusedFirst(a: App, d: seq<byte>, fs: seq<Frame>)
    ensures ToldInTheEnd(a, d, fs, TextBad, 0) == Deliver(a, Shut(1007, ""))
  {
    assert fs[..0] == [];
    Joined(a.out, [], []);
  }

  lemma OnlyFrame(k: Stream, a: App, d: seq<byte>, fs: seq<Frame>, t: TextResult)
    requires |fs| == 1 && Ends(fs) && fs[0].fin && t.TextOk?
    requires HoldsPart(k, a, d)
    ensures forall n: nat :: ToldInTheEnd(a, d, fs, t, n) == Deliver(a, Fragment(FirstInfo(k).(last := true), t.send))
  {
    PartDelivered(k, a, d, fs[0], t.send);
    assert fs[1..] == [] && Controls(fs) == [] + [];
    Joined(a.out, [], []);
    hide Deliver;
  }

  lemma WireFirst(fs: seq<Frame>, rest: seq<byte>)
    requires fs != []
    ensures Wire(fs) + rest == Octets(fs[0]) + (Wire(fs[1..]) + rest)
    ensures |fs| == 1 ==> Wire(fs[1..]) + rest == rest
  {
    hide Octets;
    Appended(Octets(fs[0]), Wire(fs[1..]), rest);
    hide Wire;
    if |fs| == 1 { NoWire(fs[1..], rest); }
  }

  lemma Appended(x: seq<byte>, y: seq<byte>, z: seq<byte>)
    ensures x + y + z == x + (y + z)
  {}

  lemma NoWire(fs: seq<Frame>, rest: seq<byte>)
    requires |fs| == 0
    ensures Wire(fs) + rest == rest
  {
    assert [] + rest == rest;
  }

  lemma AfterControlFrame(s: Step, s1: Step, k: Stream, a: App, d: seq<byte>, fs: seq<Frame>, stash: seq<byte>, more: nat,
                     rest: seq<byte>)
    requires MessagePart(k, fs) && fs[0].isControl && fs[0].opcode != CLOSE && StashShape(stash, more) && |stash| + more <= 4
    requires s.next == s1.next && DeliverAll(a, s.events) == DeliverAll(ExpectFrame(a, fs[0]), s1.events)
    requires TellsMessage(s1, ExpectFrame(a, fs[0]), d, fs[1..], Fragments(stash, more, Payloads(fs[1..]), Ends(fs[1..])),
                          RefusedAt(stash, more, fs[1..]), rest)
    ensures TellsMessage(s, a, d, fs, Fragments(stash, more, Payloads(fs), Ends(fs)), RefusedAt(stash, more, fs), rest)
  {
    hide *;
    ControlFirst(k, fs, stash, more);
    var t, n := Fragments(stash, more, Payloads(fs[1..]), Ends(fs[1..])), RefusedAt(stash, more, fs[1..]);
    SameAsItself(t);
    ControlIsTold(a, d, fs, t, n);
    TellsEarlier(s, s1, a, ExpectFrame(a, fs[0]), d, d, fs, t, t, n, rest);
  }

  lemma AfterTextFrame(s: Step, s1: Step, a: App, b: App, d: seq<byte>, fs: seq<Frame>, t: TextResult, t1: TextResult,
                  all: TextResult, n: nat, rest: seq<byte>)
    requires |fs| > 1 && n <= |fs| - 1 && !fs[0].isControl && t.TextOk? && b.out == a.out && Follows(t, t1, all)
    requires s.next == s1.next && DeliverAll(a, s.events) == DeliverAll(b, s1.events)
    requires TellsMessage(s1, b, d + t.send, fs[1..], t1, n, rest)
    ensures TellsMessage(s, a, d, fs, all, n + 1, rest)
  {
    hide *;
    TextIsTold(a, b, d, fs, t, t1, all, n);
    FollowsSame(t, t1, all);
    TellsEarlier(s, s1, a, b, d, d + t.send, fs, all, t1, n, rest);
  }

  lemma SameAsItself(t: TextResult)
    ensures SamePending(t, t)
  {}

  lemma FollowsSame(t: TextResult, t1: TextResult, all: TextResult)
    requires t.TextOk? && Follows(t, t1, all)
    ensures SamePending(all, t1)
  {}

  /** A text frame that is refused or ends the message. */
  lemma LastText(s: Step, r: Recv, k: Stream, a: App, d: seq<byte>, fs: seq<Frame>, rest: seq<byte>)
    requires MessagePart(k, fs) && !fs[0].isControl && HoldsPart(k, a, d)
    requires r.Open? && StashShape(r.stash, r.more) && |r.stash| + r.more <= 4
    requires var f, t := fs[0], TextStep(r.stash, r.more, fs[0].fin, fs[0].payload);
             if t.TextBad? then s.next.Closed? && DeliverAll(a, s.events) == Deliver(a, Shut(1007, ""))
             else
               var next := AfterFrame(f, t.stash, t.more);
               && f.fin && Between(next, NoStream) && s.next == Receive(next, rest).next
               && DeliverAll(a, s.events) ==
                  DeliverAll(Deliver(a, Fragment(FirstInfo(k).(last := f.fin), t.send)), Receive(next, rest).events)
    ensures TellsMessage(s, a, d, fs, Fragments(r.stash, r.more, Payloads(fs), Ends(fs)), RefusedAt(r.stash, r.more, fs), rest)
  {
    hide Receive, DeliverAll, Deliver, Between, TextStep, Fragments, RefusedAt, ToldInTheEnd, HeaderLegal, LegalFrame, StashShape, Payloads;
    FirstOfText(k, fs, r.stash, r.more);
    var t := TextStep(r.stash, r.more, fs[0].fin, fs[0].payload);
    if t.TextBad? { RefusedFirst(a, d, fs); } else { OnlyFrame(k, a, d, fs, t); }
  }

  /** What one message tells: what its control frames tell, and all that its payloads hand on,
      or a refusal; and what follows is judged from there. */
  lemma {:induction false} MessageTells(r: Recv, k: Stream, a: App, d: seq<byte>, fs: seq<Frame>, rest: seq<byte>)
    requires Between(r, k) && MessagePart(k, fs) && HoldsPart(k, a, d)
    ensures r.Open? && StashShape(r.stash, r.more) && |r.stash| + r.more <= 4
    ensures TellsMessage(Receive(r, Wire(fs) + rest), a, d, fs, Fragments(r.stash, r.more, Payloads(fs), Ends(fs)),
                         RefusedAt(r.stash, r.more, fs), rest)
    decreases |fs|
  {
    hide Octets, Receive, DeliverAll, Deliver, Wf, TextStep, Fragments, RefusedAt, ToldInTheEnd, Wire, ExpectFrame, LegalFrame,
         HeaderLegal, StashShape, Payloads, AfterFrame;
    ShapedBetween(r, k);
    var f, later := fs[0], Wire(fs[1..]) + rest;
    WireFirst(fs, rest);
    var s := Receive(r, Wire(fs) + rest);
    if !f.isControl {
      FirstOfText(k, fs, r.stash, r.more);
      FrameOfText(r, k, a, f, later);
      var t := TextStep(r.stash, r.more, f.fin, f.payload);
      if t.TextOk? && !f.fin {
        var next, b := AfterFrame(f, t.stash, t.more), Deliver(a, Fragment(FirstInfo(k).(last := false), t.send));
        PartDelivered(k, a, d, f, t.send);
        MessageTells(next, TextStream, b, d + t.send, fs[1..], rest);
        NextHolds(f, t.stash, t.more);
        AfterTextFrame(s, Receive(next, later), a, b, d, fs, t, Fragments(t.stash, t.more, Payloads(fs[1..]), Ends(fs[1..])),
                  Fragments(r.stash, r.more, Payloads(fs), Ends(fs)), RefusedAt(t.stash, t.more, fs[1..]), rest);
      } else {
        LastText(s, r, k, a, d, fs, rest);
      }
    } else if f.opcode == CLOSE {
      var _ := ControlInside(r, k, a, f, later);
      CutShort(a, d, fs, r.stash, r.more);
    } else {
      ControlFirst(k, fs, r.stash, r.more);
      var next := ControlInside(r, k, a, f, later);
      OpenStays(a, f);
      MessageTells(next, k, ExpectFrame(a, f), d, fs[1..], rest);
      AfterControlFrame(s, Receive(next, later), k, a, d, fs, r.stash, r.more, rest);
    }
  }

  lemma NextHolds(f: Frame, stash: seq<byte>, more: nat)
    ensures var next := AfterFrame(f, stash, more); next.Open? && next.stash == stash && next.more == more
  {}

  lemma OpenStays(a: App, f: Frame)
    requires IsControlOpcode(f.opcode) && f.opcode != CLOSE
    ensures ExpectFrame(a, f).open == a.open
  {}

  // ----- Messages from the start -----

  /** A message received whole, and nothing else. */
  lemma Alone(fs: seq<Frame>)
    requires MessagePart(NoStream, fs) && Ends(fs)
    ensures var s, t := Receive(INITIAL, Wire(fs)), Fragments([], 0, Payloads(fs), true);
            && (s.next.Open? <==> t.TextOk?)
            && (t.TextOk? ==> s.next == AfterMessage(t.stash, t.more)
                              && DeliverAll(NOTHING, s.events) == App(None, Controls(fs) + [Message(false, t.send)]))
            && (t.TextBad? ==>
                  var n := RefusedAt([], 0, fs);
                  n < |fs| && DeliverAll(NOTHING, s.events) == App(None, Controls(fs[..n]) + [ShutDown(1007, "")]))
  {
    hide Fragments, RefusedAt, MessagePart, Wire, Controls, Receive, Between, DeliverAll, StashShape;
    InitialIsBetween();
    MessageTells(INITIAL, NoStream, NOTHING, [], fs, []);
    assert Wire(fs) + [] == Wire(fs);
    var t := Fragments([], 0, Payloads(fs), true);
    if t.TextOk? {
      NothingMore(AfterMessage(t.stash, t.more));
      assert [] + t.send == t.send && [] + Controls(fs) == Controls(fs);
      assert DeliverAll(App(None, Controls(fs) + [Message(false, t.send)]), []) == App(None, Controls(fs) + [Message(false, t.send)])
        by { NothingTold(App(None, Controls(fs) + [Message(false, t.send)])); }
    } else {
      assert [] + Controls(fs[..RefusedAt([], 0, fs)]) == Controls(fs[..RefusedAt([], 0, fs)]);
    }
  }

  lemma NothingTold(a: App)
    ensures DeliverAll(a, []) == a
  {}

  lemma NothingMore(r: Recv)
    requires Between(r, NoStream)
    ensures r.Open? && Receive(r, []) == Step(r, 0, [])
  {
    hide Receive, Wf;
    ReceiveUnfold(r, []);
  }

  lemma InitialIsBetween()
    ensures Between(INITIAL, NoStream) && StashShape([], 0)
  {}

  lemma ExpectControl(a: App, f: Frame, out: seq<Output>)
    requires IsControlOpcode(f.opcode) && f.opcode != CLOSE
    ensures ExpectFrame(a, f).out + out == a.out + (ExpectFrame(NOTHING, f).out + out)
  {
    var o := ExpectFrame(NOTHING, f).out;
    assert ExpectFrame(a, f).out == a.out + o;
  }

  lemma ExpectText(k: Stream, a: App, d: seq<byte>, f: Frame)
    requires HoldsPart(k, a, d) && f.opcode == (if k == NoStream then TEXT else CONTINUATION)
    ensures ExpectFrame(a, f) ==
            if f.fin then App(None, a.out + [Message(false, d + f.payload)]) else App(Some(Partial(false, d + f.payload)), a.out)
  {
    assert [] + f.payload == f.payload;
  }

  /** The independent account of a message. */
  lemma {:induction false} ExpectIs(k: Stream, a: App, d: seq<byte>, fs: seq<Frame>)
    requires MessagePart(k, fs) && Ends(fs)
    requires HoldsPart(k, a, d)
    ensures Expect(a, fs) == App(None, a.out + Controls(fs) + [Message(false, d + Flatten(Payloads(fs)))])
    decreases |fs|
  {
    hide HeaderLegal, LegalFrame, ExpectFrame, Payloads, Controls, Expect, Flatten;
    var f := fs[0];
    EndsRest(fs);
    if f.isControl {
      ControlFirst(k, fs, [], 0);
      OpenStays(a, f);
      ExpectIs(k, ExpectFrame(a, f), d, fs[1..]);
      ExpectAfterControl(a, d, fs);
    } else {
      FinIsLast(k, fs);
      ExpectText(k, a, d, f);
      if !f.fin { ExpectIs(TextStream, ExpectFrame(a, f), d + f.payload, fs[1..]); }
      ExpectAfterText(a, d, fs);
    }
  }

  lemma ExpectAfterControl(a: App, d: seq<byte>, fs: seq<Frame>)
    requires fs != [] && fs[0].isControl && IsControlOpcode(fs[0].opcode) && fs[0].opcode != CLOSE
    ensures Expect(a, fs) == Expect(ExpectFrame(a, fs[0]), fs[1..])
    ensures Payloads(fs) == Payloads(fs[1..])
    ensures ExpectFrame(a, fs[0]).out + Controls(fs[1..]) == a.out + Controls(fs)
  {
    hide ExpectFrame;
    ExpectControl(a, fs[0], Controls(fs[1..]));
    assert [] + Payloads(fs[1..]) == Payloads(fs[1..]);
  }

  lemma ExpectAfterText(a: App, d: seq<byte>, fs: seq<Frame>)
    requires fs != [] && !fs[0].isControl && fs[0].opcode != CLOSE
    ensures Expect(a, fs) == Expect(ExpectFrame(a, fs[0]), fs[1..])
    ensures Controls(fs) == Controls(fs[1..])
    ensures |fs| == 1 ==> Expect(a, fs) == ExpectFrame(a, fs[0]) && a.out + Controls(fs) == a.out
    ensures |fs| == 1 ==> d + Flatten(Payloads(fs)) == d + fs[0].payload
    ensures d + Flatten(Payloads(fs)) == d + fs[0].payload + Flatten(Payloads(fs[1..]))
  {
    hide ExpectFrame;
    var p, ps := fs[0].payload, Payloads(fs[1..]);
    assert Payloads(fs)[0] == p && Payloads(fs)[1..] == ps;
    assert d + Flatten(Payloads(fs)) == d + p + Flatten(ps);
    assert [] + Controls(fs[1..]) == Controls(fs[1..]);
    if |fs| == 1 { assert fs[1..] == [] && d + p + [] == d + p; }
  }

  lemma SameMessage(controls: seq<Output>, x: seq<byte>, y: seq<byte>)
    ensures App(None, controls + [Message(false, x)]) == App(None, controls + [Message(false, y)]) <==> x == y
  {
    var n := |controls|;
    assert (controls + [Message(false, x)])[n] == Message(false, x) && (controls + [Message(false, y)])[n] == Message(false, y);
  }

  lemma NotRefused(controls: seq<Output>, before: seq<Output>, x: seq<byte>)
    ensures App(None, before + [ShutDown(1007, "")]) != App(None, controls + [Message(false, x)])
  {
    var u, v := before + [ShutDown(1007, "")], controls + [Message(false, x)];
    assert u[|u| - 1].ShutDown? && v[|v| - 1].Message?;
  }

  /** A text message whose payloads together are valid UTF-8, with or without control frames in
      between, received in one piece, is told as the independent account says if and only if no
      frame that begins inside a character goes beyond that character or fails the early test. */
  lemma DeliveredExactly(fs: seq<Frame>)
    requires MessagePart(NoStream, fs) && Ends(fs) && IsText(Flatten(Payloads(fs)))
    ensures DeliverAll(NOTHING, Receive(INITIAL, Wire(fs)).events) == Expect(NOTHING, fs)
       <==> AllEnterHarmlessly([], Payloads(fs))
  {
    hide *;
    var ps := Payloads(fs);
    FirstArrives(ps);
    Alone(fs);
    var t, n := Fragments([], 0, ps, true), RefusedAt([], 0, fs);
    FirstExpected(fs);
    if t.TextOk? {
      SameMessage(Controls(fs), t.send, Flatten(ps));
    } else {
      NotRefused(Controls(fs), Controls(fs[..n]), Flatten(ps));
    }
  }

  lemma FirstArrives(ps: seq<seq<byte>>)
    requires IsText(Flatten(ps))
    ensures StashShape([], 0)
    ensures var t := Fragments([], 0, ps, true);
            t.TextOk? && t.send == Flatten(ps) <==> AllEnterHarmlessly([], ps)
  {
    hide Fragments, AllEnterHarmlessly, Flatten;
    assert [] + [] + Flatten(ps) == Flatten(ps) && [] + Flatten(ps) == Flatten(ps);
    assert IsText([]);
    AllArriveExactly([], [], 0, ps);
  }

  lemma FirstExpected(fs: seq<Frame>)
    requires MessagePart(NoStream, fs) && Ends(fs)
    ensures Expect(NOTHING, fs) == App(None, Controls(fs) + [Message(false, Flatten(Payloads(fs)))])
  {
    hide MessagePart, Ends, Expect, Controls, Payloads, Flatten;
    ExpectIs(NoStream, NOTHING, [], fs);
    assert [] + Controls(fs) == Controls(fs) && [] + Flatten(Payloads(fs)) == Flatten(Payloads(fs));
  }

  /** Whatever its payloads are, a message leaves the connection open exactly when every frame
      passes; the user is then given the octets looked at, but for the beginning of a character
      in which they end, and that stays pending. */
  lemma OpenExactly(fs: seq<Frame>)
    requires MessagePart(NoStream, fs) && Ends(fs)
    ensures var s, x := Receive(INITIAL, Wire(fs)), Looked([], Payloads(fs));
            && (s.next.Open? <==> AllPass([], Payloads(fs), true))
            && (s.next.Open? ==>
                  && s.next == AfterMessage(Unfinished(x), Missing(x))
                  && DeliverAll(NOTHING, s.events) == App(None, Controls(fs) + [Message(false, x[..|x| - |Unfinished(x)|])]))
  {
    hide *;
    var ps := Payloads(fs);
    FirstAccepted(ps);
    Alone(fs);
    var t, x := Fragments([], 0, ps, true), Looked([], ps);
    assert t.TextOk? ==> t.send == x[..|x| - |t.stash|];
  }

  lemma FirstAccepted(ps: seq<seq<byte>>)
    ensures StashShape([], 0)
    ensures var t, x := Fragments([], 0, ps, true), Looked([], ps);
            && (t.TextOk? <==> AllPass([], ps, true))
            && (t.TextOk? ==> x == t.send + t.stash && t.stash == Unfinished(x) && t.more == Missing(x))
  {
    hide Fragments, AllPass, Looked, Unfinished, Missing;
    var t := Fragments([], 0, ps, true);
    assert IsText([]);
    hide IsText;
    AcceptedExactly([], [], 0, ps, true);
    var none: seq<byte> := [];
    assert none + [] == [];
    if t.TextOk? {
      assert [] + t.send == t.send;
      AtIs(t.send, t.stash, t.more);
    }
  }

  /** If no frame goes beyond the character in which it begins and all pass the early test, a
      message is accepted exactly when it is a text or its last frame stays inside the character
      in which it begins. */
  lemma HarmlessIsOpen(fs: seq<Frame>)
    requires MessagePart(NoStream, fs) && Ends(fs) && AllEnterHarmlessly([], Payloads(fs))
    ensures Receive(INITIAL, Wire(fs)).next.Open? <==> IsText(Flatten(Payloads(fs))) || StaysInside(Payloads(fs))
  {
    hide *;
    OpenExactly(fs);
    EndsHasPayload(fs);
    HarmlessAccepted(Payloads(fs));
  }

  // ----- Inputs -----

  /** A frame of an unmasked message with a short payload. */
  function ShortFrame(opcode: Nibble, fin: bool, p: seq<byte>): Frame
    requires |p| <= 125
  {
    Frame(fin, false, false, false, opcode, ZERO_KEY, |p|, p)
  }

  /** TEXT and then CONTINUATION. */
  function InTwoFrames(p: seq<byte>, q: seq<byte>): seq<Frame>
    requires |p| <= 125 && |q| <= 125
  {
    [ShortFrame(TEXT, false, p), ShortFrame(CONTINUATION, true, q)]
  }

  lemma InTwoFramesIs(p: seq<byte>, q: seq<byte>)
    requires |p| <= 125 && |q| <= 125
    ensures MessagePart(NoStream, InTwoFrames(p, q)) && Ends(InTwoFrames(p, q)) && Payloads(InTwoFrames(p, q)) == [p, q] && Controls(InTwoFrames(p, q)) == []
  {
    var fs := InTwoFrames(p, q);
    assert fs[1..] == [fs[1]] && [fs[1]][1..] == [];
    assert Payloads([fs[1]]) == [q] + [] && Controls([fs[1]]) == [] + [];
    ShortIsLegal(NoStream, TEXT, false, p);
    ShortIsLegal(TextStream, CONTINUATION, true, q);
    hide HeaderLegal;
    assert [p] + [q] == [p, q];
  }

  lemma ShortIsLegal(k: Stream, opcode: Nibble, fin: bool, p: seq<byte>)
    requires |p| <= 125 && opcode == (if k == NoStream then TEXT else CONTINUATION)
    ensures HeaderLegal(k, ShortFrame(opcode, fin, p))
  {}

  /** The octets C3, A9 and x, the first in a frame of its own: whatever x is, the message is
      accepted and the user is given the first two.  It is a text only if x is ASCII. */
  lemma AcceptsNoText(x: byte)
    ensures var fs, s := InTwoFrames([0xC3], [0xA9, x]), Receive(INITIAL, Wire(InTwoFrames([0xC3], [0xA9, x])));
            && MessagePart(NoStream, fs) && Ends(fs)
            && s.next == INITIAL && DeliverAll(NOTHING, s.events) == App(None, [Message(false, [0xC3, 0xA9])])
    ensures Flatten([[0xC3], [0xA9, x]]) == [0xC3, 0xA9, x] && (IsText([0xC3, 0xA9, x]) <==> x < 0x80)
  {
    hide InTwoFrames, Receive;
    InTwoFramesIs([0xC3], [0xA9, x]);
    TwoPayloads([0xC3], [0xA9, x]);
    LeadAndTail(x);
    hide *;
    Alone(InTwoFrames([0xC3], [0xA9, x]));
    assert AfterMessage([], 0) == INITIAL by { InitialIs(); }
    assert [] + [Message(false, [0xC3, 0xA9])] == [Message(false, [0xC3, 0xA9])];
  }

  lemma InitialIs()
    ensures AfterMessage([], 0) == INITIAL
  {}

  lemma TwoPayloads(p: seq<byte>, q: seq<byte>)
    ensures Flatten([p, q]) == p + q
  {
    assert [p, q][1..] == [q] && [q][1..] == [];
    assert Flatten([q]) == q + [] == q;
  }

  lemma LeadAndTail(x: byte)
    ensures StashShape([], 0) && Fragments([], 0, [[0xC3], [0xA9, x]], true) == TextOk([], 0, [0xC3, 0xA9])
    ensures [0xC3] + [0xA9, x] == [0xC3, 0xA9, x]
    ensures IsText([0xC3, 0xA9, x]) <==> x < 0x80
  {
    hide TextStep, IsText;
    var ps: seq<seq<byte>> := [[0xC3], [0xA9, x]];
    assert ps[1..] == [[0xA9, x]] && [[0xA9, x]][1..] == [];
    LeadPends();
    TailCompletes(x);
    hide StashShape;
    assert Fragments([0xC3], 1, [[0xA9, x]], true) == TextOk([], 0, [0xC3, 0xA9] + []);
    assert [] + ([0xC3, 0xA9] + []) == [0xC3, 0xA9];
    LastOctet(x);
  }

  lemma LeadPends()
    ensures TextStep([], 0, false, [0xC3]) == TextOk([0xC3], 1, []) && StashShape([0xC3], 1) && StashShape([], 0)
  {
    WholePrefixEnds([0xC3]);
    hide WholePrefix;
  }

  lemma TailCompletes(x: byte)
    ensures TextStep([0xC3], 1, true, [0xA9, x]) == TextOk([], 0, [0xC3, 0xA9])
  {
    assert [0xC3] + [0xA9, x][..1] == [0xC3, 0xA9];
    CharIsText([0xC3, 0xA9]);
    hide WholePrefix;
  }

  lemma LastOctet(x: byte)
    ensures IsText([0xC3, 0xA9, x]) <==> x < 0x80
  {
    CharIsText([0xC3, 0xA9]);
    assert [0xC3, 0xA9, x] == [0xC3, 0xA9] + [x];
    TextConcat([0xC3, 0xA9], [x]);
    hide IsText;
    if x < 0x80 { CharIsText([x]); } else if IsText([x]) { TextFirst([x]); }
  }

  /** After a message that ends inside a character, which is accepted, the next text message that
      has any octets is refused although it is valid. */
  lemma SpoilsTheNext(fs: seq<Frame>, gs: seq<Frame>)
    requires MessagePart(NoStream, fs) && Ends(fs) && MessagePart(NoStream, gs) && Ends(gs)
    requires AllPass([], Payloads(fs), true) && 0 < Missing(Looked([], Payloads(fs)))
    requires IsText(Flatten(Payloads(gs))) && Flatten(Payloads(gs)) != []
    ensures var s, x := Receive(INITIAL, Wire(fs) + Wire(gs)), Looked([], Payloads(fs));
            var told := Controls(fs) + [Message(false, x[..|x| - |Unfinished(x)|])];
            && s.next.Closed?
            && exists n: nat :: n < |gs| && DeliverAll(NOTHING, s.events) == App(None, told + Controls(gs[..n]) + [ShutDown(1007, "")])
  {
    hide *;
    var ps, qs := Payloads(fs), Payloads(gs);
    FirstAccepted(ps);
    var t, x := Fragments([], 0, ps, true), Looked([], ps);
    FirstThen(fs, Wire(gs));
    var told := Controls(fs) + [Message(false, t.send)];
    var next := AfterMessage(t.stash, t.more);
    assert t.send == x[..|x| - |t.stash|];
    SpoilsNext(t.stash, t.more, qs);
    RefusedAfter(t.stash, t.more, told, gs);
  }

  lemma FirstThen(fs: seq<Frame>, rest: seq<byte>)
    requires MessagePart(NoStream, fs) && Ends(fs)
    ensures StashShape([], 0) && Between(INITIAL, NoStream)
    ensures var s, t := Receive(INITIAL, Wire(fs) + rest), Fragments([], 0, Payloads(fs), true);
            t.TextOk? ==>
              var next := AfterMessage(t.stash, t.more);
              && Between(next, NoStream) && StashShape(t.stash, t.more) && |t.stash| + t.more <= 4
              && s.next == Receive(next, rest).next
              && DeliverAll(NOTHING, s.events) ==
                 DeliverAll(App(None, Controls(fs) + [Message(false, t.send)]), Receive(next, rest).events)
  {
    hide Fragments, RefusedAt, MessagePart, Wire, Controls, Receive, DeliverAll, Between, StashShape;
    InitialIsBetween();
    MessageTells(INITIAL, NoStream, NOTHING, [], fs, rest);
    var t := Fragments([], 0, Payloads(fs), true);
    if t.TextOk? {
      ShapedBetween(AfterMessage(t.stash, t.more), NoStream);
      assert [] + t.send == t.send && [] + Controls(fs) == Controls(fs);
    }
  }

  lemma RefusedAfter(stash: seq<byte>, more: nat, told: seq<Output>, gs: seq<Frame>)
    requires Between(AfterMessage(stash, more), NoStream) && StashShape(stash, more) && |stash| + more <= 4
    requires MessagePart(NoStream, gs) && Ends(gs) && Fragments(stash, more, Payloads(gs), true).TextBad?
    ensures var s := Receive(AfterMessage(stash, more), Wire(gs));
            && s.next.Closed?
            && exists n: nat :: n < |gs| && DeliverAll(App(None, told), s.events) ==
                                            App(None, told + Controls(gs[..n]) + [ShutDown(1007, "")])
  {
    hide Fragments, RefusedAt, MessagePart, Wire, Controls, Receive, DeliverAll, Between, StashShape;
    MessageTells(AfterMessage(stash, more), NoStream, App(None, told), [], gs, []);
    assert Wire(gs) + [] == Wire(gs);
    var n := RefusedAt(stash, more, gs);
    assert n < |gs|;
  }
}
