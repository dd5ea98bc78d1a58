/**
 * What is not legal is refused: a server stream that goes wrong is told to the user up to the
 * frame where it does, and then the connection is shut with the code of the fault.
 */
module Refusals {
  import opened Bytes
  import opened Utf8
  import opened Utf8Theory
  import opened Frames
  import opened FrameTheory
  import opened Events
  import opened ReceiveSpec
  import opened Handlers
  import opened ChunkTheory
  import opened Delivery
  import opened ServerStream

  // ----- Headers -----

  /** The octets of a header end in a fault: they cannot be decoded, or the frame may not come
      now. */
  predicate Faulty(r: Recv, h: seq<byte>)
    requires r.Open?
  {
    match Decode(h)
    case Need(_) => false
    case Bad(_) => true
    case Got(f, used) =>
      used == |h| && (FrameValidate(f, ServerToClient) != 0 ||
                      AcceptFrame(r.(header := [], needed := 0), f, 0) == Fail(1002))
  }

  predicate IsShut(s: Step, code: nat, why: string) {
    s.next.Closed? && s.events == [Shut(code, why)]
  }

  /** A faulty header closes the connection with 1002, in however many passes it is taken. */
  lemma {:induction false} HeaderRefused(r: Recv, x: seq<byte>, rest: seq<byte>)
    requires Wf(r) && r.Open? && r.frame.None? && x != [] && Faulty(r, r.header + x)
    ensures IsShut(Receive(r, x + rest), 1002, "") && AsciiText(r, x + rest)
    decreases |x|
  {
    var n := Wanted(r);
    WantedIsShort(r, x);
    var y, z := x[..n], x[n..];
    assert x + rest == y + (z + rest) && r.header + x == r.header + y + z;
    if Decode(r.header + y).Need? {
      var r' := r.(header := r.header + y, needed := Decode(r.header + y).more);
      assert z != [] by { assert r.header + y + [] == r.header + y; }
      hide Decode, AcceptFrame, FrameValidate;
      HeaderPassNeeds(r, y, z + rest, r');
      FaultySame(r, r', r.header + x);
      HeaderRefused(r', z, rest);
    } else {
      DecodeIsStable(r.header + y, z);
      FaultyPass(r, y, z);
      PassIsShut(r, y, z + rest);
    }
  }

  lemma WantedIsShort(r: Recv, x: seq<byte>)
    requires Wf(r) && r.Open? && r.frame.None? && Faulty(r, r.header + x)
    ensures 0 < Wanted(r) <= |x|
  {
    DecodeDeficit(r.header, x);
  }

  lemma FaultySame(r: Recv, r': Recv, h: seq<byte>)
    requires r.Open? && r'.Open? && r' == r.(header := r'.header, needed := r'.needed) && Faulty(r, h)
    ensures Faulty(r', h)
  {
    assert r'.(header := [], needed := 0) == r.(header := [], needed := 0);
    hide Decode, AcceptFrame, FrameValidate;
  }

  lemma FaultyPass(r: Recv, y: seq<byte>, z: seq<byte>)
    requires r.Open? && Faulty(r, r.header + y + z) && Decode(r.header + y + z) == Decode(r.header + y)
    ensures Faulty(r, r.header + y)
  {
    if Decode(r.header + y).Got? { GotWithin(r.header + y); }
    hide Decode, AcceptFrame, FrameValidate;
  }

  lemma PassIsShut(r: Recv, y: seq<byte>, rest: seq<byte>)
    requires Wf(r) && r.Open? && r.frame.None? && |y| == Wanted(r) && y != [] && Faulty(r, r.header + y)
    ensures IsShut(Receive(r, y + rest), 1002, "") && AsciiText(r, y + rest)
  {
    assert (y + rest)[..|y|] == y;
    var d := Decode(r.header + y);
    if d.Got? && FrameValidate(d.frame, ServerToClient) == 0 { AcceptFails(r, r.header + y, |y|); }
    hide Decode, AcceptFrame, FrameValidate, Wf, Receive, ProcessFrame;
    ProcessFrameUnfold(r, y + rest);
    ReceiveUnfold(r, y + rest);
    AsciiUnfold(r, y + rest);
  }

  lemma AcceptFails(r: Recv, h: seq<byte>, used: nat)
    requires r.Open? && Faulty(r, h) && Decode(h).Got? && FrameValidate(Decode(h).frame, ServerToClient) == 0
    ensures forall needed: nat :: AcceptFrame(r.(header := [], needed := needed), Decode(h).frame, used) == Fail(1002)
  {
    hide Decode, FrameValidate;
  }

  // ----- Frames -----

  /** Why frame f must be refused while a message of type k is in progress, and how. */
  ghost function Refusal(k: Stream, f: Frame): Option<Event> {
    if !InPlace(k, f) then Some(Shut(1002, ""))
    else if f.opcode == CLOSE then CloseRefusal(f.payload)
    else if CarriesText(k, f) && !IsText(f.payload) then Some(Shut(1007, ""))
    else None
  }

  lemma RefusedIsNotLegal(k: Stream, f: Frame)
    requires WellMade(f)
    ensures Refusal(k, f) == None <==> LegalFrame(k, f)
  {
    hide IsText;
  }

  /** Text that breaks off inside a character, with more of the message to come. */
  predicate BreaksOff(k: Stream, f: Frame) {
    CarriesText(k, f) && !f.fin && WholePrefix(f.payload).Some? && WholePrefix(f.payload).value < |f.payload|
  }

  lemma HeaderIsFaulty(r: Recv, k: Stream, f: Frame)
    requires Idle(r, k) && WellMade(f) && !InPlace(k, f)
    ensures !HeaderLegal(k, f) && Faulty(r, HeaderBytes(f)) && Refusal(k, f) == Some(Shut(1002, ""))
  {
    DecodeEncoded(f, []);
    assert HeaderBytes(f) + [] == HeaderBytes(f);
    EncodeDecoded(HeaderBytes(f));
    ReceivedIsValid(HeaderBytes(f), ServerToClient);
    hide Decode, FrameValidate, HeaderBytes, IsText;
  }

  lemma TextRefused(k: Stream, f: Frame, m: Recv, rest: seq<byte>)
    requires WfAtPayload(m) && HeaderLegal(k, f) && CarriesText(k, f) && !IsText(f.payload) && !BreaksOff(k, f)
    requires m.frame == Some(OnWire(f)) && m.more == 0 && m.stream == TextStream
    ensures ReadyForPayload(m) && IsShut(PayloadStep(m, f.payload + rest), 1007, "")
  {
    var p := f.payload;
    StashOkFits(m);
    assert (p + rest)[..|p|] == p;
    TextIsWhole(p);
    if WholePrefix(p).Some? { WholePrefixIsGrammar(p, WholePrefix(p).value); }
    hide WholePrefix, IsText;
  }

  lemma CloseRefused(f: Frame, m: Recv, rest: seq<byte>)
    requires WfAtPayload(m) && f.opcode == CLOSE && CloseRefusal(f.payload).Some? && |f.payload| == f.payloadLen
    requires m.frame == Some(OnWire(f)) && m.control == []
    ensures ReadyForPayload(m)
    ensures var e := CloseRefusal(f.payload).value;
            e.Shut? && IsShut(PayloadStep(m, f.payload + rest), e.code, e.why)
  {
    hide CloseEvents, CloseRefusal;
    var p := f.payload;
    assert (p + rest)[..|p|] == p && [] + p == p;
    CloseRefusalTells(p);
  }

  lemma CloseRefusalTells(p: seq<byte>)
    requires CloseRefusal(p).Some?
    ensures CloseRefusal(p).value.Shut? && CloseEvents(p) == [CloseRefusal(p).value]
  {
    hide WholePrefix, IsText;
    if 2 <= |p| { TextIsWhole(p[2..]); }
  }

  /** A frame that is not legal closes the connection with the code of its fault, and none of
      it is told; text that breaks off inside a character is not refused yet. */
  lemma FrameRefused(r: Recv, k: Stream, f: Frame, rest: seq<byte>)
    requires Idle(r, k) && WellMade(f) && Refusal(k, f).Some? && !BreaksOff(k, f)
    ensures var e := Refusal(k, f).value;
            e.Shut? && IsShut(Receive(r, Octets(f) + rest), e.code, e.why)
  {
    var x := HeaderBytes(f);
    HeaderNotEmpty(f);
    assert Octets(f) + rest == x + (f.payload + rest) && r.header + x == x;
    if !InPlace(k, f) {
      HeaderIsFaulty(r, k, f);
      hide Refusal, Faulty;
      HeaderRefused(r, x, f.payload + rest);
    } else {
      var m := AtFrame(r, f);
      FrameAccepted(r, k, f);
      HeaderArrivesAt(r, k, f, f.payload + rest);
      hide Idle, Wf, WfAtPayload, HeaderLegal, BreaksOff, AtFrame, PayloadStep, ReadyForPayload, IsText;
      if f.opcode == CLOSE {
        CloseRefused(f, m, rest);
      } else {
        TextRefused(k, f, m, rest);
      }
    }
  }

  /** What the receiver does with a frame, received whole: it shuts the connection and tells
      nothing else if and only if the frame is not legal. */
  lemma RefusedExactly(r: Recv, k: Stream, f: Frame)
    requires Idle(r, k) && WellMade(f) && !BreaksOff(k, f)
    ensures LegalFrame(k, f) <==> !OnlyShuts(Receive(r, Octets(f) + []))
    ensures !LegalFrame(k, f) ==>
              var e := Refusal(k, f).value; e.Shut? && IsShut(Receive(r, Octets(f) + []), e.code, e.why)
  {
    RefusedIsNotLegal(k, f);
    hide Refusal, BreaksOff, Idle, Octets, Receive, LegalFrame;
    if LegalFrame(k, f) { LegalIsTold(r, k, f); } else { FrameRefused(r, k, f, []); }
  }

  lemma LegalIsTold(r: Recv, k: Stream, f: Frame)
    requires Idle(r, k) && LegalFrame(k, f)
    ensures r.Open? && !OnlyShuts(Receive(r, Octets(f) + []))
  {
    hide ExpectFrame, Octets, NextType, PayloadStep, AtFrame, AsciiText, AsciiPiece, WfAtPayload, LegalFrame, ReadyForPayload,
         DeliverAll, Receive;
    FrameOnWire(r, k, f, []);
    var s := PayloadStep(AtFrame(r, f), f.payload + []);
    hide Wf;
    if f.opcode == CLOSE {
      var a := App(if k == NoStream then None else Some(Partial(false, [])), []);
      assert DeliverAll(a, s.events) == ExpectFrame(a, f);
      CloseIsTold(a, f, s.events);
    } else {
      ReceiveUnfold(s.next, []);
    }
  }

  predicate OnlyShuts(s: Step) {
    s.next.Closed? && |s.events| == 1 && s.events[0].Shut?
  }

  lemma CloseIsTold(a: App, f: Frame, events: seq<Event>)
    requires f.opcode == CLOSE && a.out == [] && DeliverAll(a, events) == ExpectFrame(a, f)
    ensures !(|events| == 1 && events[0].Shut?)
  {
    if |events| == 1 {
      assert events == [events[0]];
      DeliverOne(a, events[0]);
      assert |ExpectFrame(a, f).out| == 2;
    }
  }

  // ----- Streams -----

  /** After any legal frames a frame that is not legal ends the stream: the user has been told
      the messages of the legal frames, then that the connection is shut and why, and nothing
      of what follows. */
  lemma StreamRefused(r: Recv, k: Stream, a: App, fs: seq<Frame>, f: Frame, rest: seq<byte>)
    requires Idle(r, k) && Legal(k, fs) && NoClose(fs) && (k == NoStream <==> a.open == None)
    requires WellMade(f) && Refusal(TypeAfter(k, fs), f).Some? && !BreaksOff(TypeAfter(k, fs), f)
    ensures var e := Refusal(TypeAfter(k, fs), f).value;
            && e.Shut?
            && DeliverAll(a, Receive(r, Wire(fs) + (Octets(f) + rest)).events)
               == App(None, Expect(a, fs).out + [ShutDown(e.code, e.why)])
            && Receive(r, Wire(fs) + (Octets(f) + rest)).next == Closed
  {
    hide Refusal, BreaksOff, Octets, Legal, Receive, DeliverAll, Wire, Expect;
    var r' := StreamThen(r, k, a, fs, Octets(f) + rest);
    FrameRefused(r', TypeAfter(k, fs), f, rest);
    var e := Refusal(TypeAfter(k, fs), f).value;
    DeliverOne(Expect(a, fs), Shut(e.code, e.why));
  }

  /** The same for octets that cannot be decoded as a header: a reserved bit, an unknown opcode,
      or a length that is not in its shortest form or is 2^63 or more. */
  lemma StreamUndecodable(r: Recv, k: Stream, a: App, fs: seq<Frame>, x: seq<byte>)
    requires Idle(r, k) && Legal(k, fs) && NoClose(fs) && (k == NoStream <==> a.open == None) && Decode(x).Bad?
    ensures DeliverAll(a, Receive(r, Wire(fs) + x).events) == App(None, Expect(a, fs).out + [ShutDown(1002, "")])
    ensures Receive(r, Wire(fs) + x).next == Closed
  {
    hide Decode, Legal, Receive, DeliverAll, Wire, Expect, Idle, AsciiText;
    var r' := StreamThen(r, k, a, fs, x);
    UndecodableShuts(r', TypeAfter(k, fs), x);
    DeliverOne(Expect(a, fs), Shut(1002, ""));
  }

  lemma UndecodableShuts(r: Recv, k: Stream, x: seq<byte>)
    requires Idle(r, k) && Decode(x).Bad?
    ensures IsShut(Receive(r, x), 1002, "") && AsciiText(r, x)
  {
    assert x != [] && r.header + x == x && x + [] == x;
    assert Faulty(r, x);
    hide Decode, Faulty, Receive, AsciiText;
    HeaderRefused(r, x, []);
  }

  /** The same however the octets are cut, as long as no cut falls where it matters. */
  lemma RefusedHoweverCut(fs: seq<Frame>, f: Frame, rest: seq<byte>, chunks: seq<seq<byte>>)
    requires Legal(NoStream, fs) && NoClose(fs) && WellMade(f)
    requires Refusal(TypeAfter(NoStream, fs), f).Some? && !BreaksOff(TypeAfter(NoStream, fs), f)
    requires Flatten(chunks) == Wire(fs) + (Octets(f) + rest) && AllHarmless(INITIAL, chunks)
    ensures var e := Refusal(TypeAfter(NoStream, fs), f).value;
            && e.Shut? && ReceiveAll(INITIAL, chunks).next == Closed
            && DeliverAll(NOTHING, ReceiveAll(INITIAL, chunks).events)
               == App(None, Expect(NOTHING, fs).out + [ShutDown(e.code, e.why)])
  {
    assert Idle(INITIAL, NoStream);
    hide Refusal, BreaksOff, Legal, AllHarmless;
    StreamRefused(INITIAL, NoStream, NOTHING, fs, f, rest);
    ChunkingIndependence(INITIAL, chunks);
  }
}
