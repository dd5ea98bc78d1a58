/**
 * A reference parse of a whole byte stream, well formed or not, and the proof that the
 * receiver tells the user exactly what it says, for every cutting of the stream where the text
 * is ASCII.
 */
module Reference {
  import opened Bytes
  import opened Utf8
  import opened Utf8Theory
  import opened Frames
  import opened FrameTheory
  import opened Events
  import opened ReceiveSpec
  import opened Handlers
  import opened ChunkTheory
  import opened Delivery
  import opened ServerStream
  import opened Refusals

  // ----- The reference -----

  /** What the user has been told, and whether the connection is shut. */
  datatype Account = Account(app: App, closed: bool)

  function ShutWith(a: App, code: nat, why: string): Account {
    Account(Deliver(a, Shut(code, why)), true)
  }

  /** The message of a data frame of which the octets x have been handed on. */
  function PartTaken(a: App, h: Frame, x: seq<byte>): App {
    App(if h.opcode == CONTINUATION then Extended(a.open, x) else Some(Partial(h.opcode == BINARY, x)), a.out)
  }

  /** The stream ends inside the payload of frame h, after the octets p. */
  function Broken(k: Stream, a: App, h: Frame, p: seq<byte>): Account {
    if h.isControl then Account(a, false)
    else if !CarriesText(k, h) then Account(PartTaken(a, h, p), false)
    else
      match WholePrefix(p)
      case None => ShutWith(a, 1007, "")
      case Some(v) => Account(PartTaken(a, h, p[..v]), false)
  }

  /** The whole stream is at hand: decode a header, judge it, take its payload, go on.  A stream
      may stop anywhere, and nothing is read after a close or a fault. */
  ghost function Reference(k: Stream, a: App, b: seq<byte>): Account
    decreases |b|
  {
    match Decode(b)
    case Need(_) => Account(a, false)
    case Bad(_) => ShutWith(a, 1002, "")
    case Got(h, used) =>
      SomeUsed(b);
      var p := b[used..];
      if !InPlace(k, h) then ShutWith(a, 1002, "")
      else if |p| < h.payloadLen then Broken(k, a, h, p)
      else
        var f := h.(payload := p[..h.payloadLen]);
        match Refusal(k, f)
        case Some(e) => Account(Deliver(a, e), true)
        case None =>
          if f.opcode == CLOSE then Account(ExpectFrame(a, f), true)
          else Reference(NextType(k, f), ExpectFrame(a, f), p[h.payloadLen..])
  }

  lemma SomeUsed(b: seq<byte>)
    requires Decode(b).Got?
    ensures 0 < Decode(b).used <= |b|
  {
    hide LengthValue, LengthError;
  }

  /** No frame but the last of a message ends inside a character. */
  predicate Unbroken(k: Stream, b: seq<byte>)
    decreases |b|
  {
    match Decode(b)
    case Got(h, used) =>
      SomeUsed(b);
      var p := b[used..];
      InPlace(k, h) && h.payloadLen <= |p| ==>
        var f := h.(payload := p[..h.payloadLen]);
        !BreaksOff(k, f) && (f.opcode != CLOSE ==> Unbroken(NextType(k, f), p[h.payloadLen..]))
    case _ => true
  }

  /** All payload octets of text messages are ASCII. */
  predicate AsciiWire(k: Stream, b: seq<byte>)
    decreases |b|
  {
    match Decode(b)
    case Got(h, used) =>
      SomeUsed(b);
      var p := b[used..];
      InPlace(k, h) ==>
        if |p| < h.payloadLen then CarriesText(k, h) ==> IsAscii(p)
        else
          var f := h.(payload := p[..h.payloadLen]);
          && (CarriesText(k, f) ==> IsAscii(f.payload))
          && (f.opcode != CLOSE ==> AsciiWire(NextType(k, f), p[h.payloadLen..]))
    case _ => true
  }

  lemma {:induction false} AsciiIsUnbroken(k: Stream, b: seq<byte>)
    requires AsciiWire(k, b)
    ensures Unbroken(k, b)
    decreases |b|
  {
    if Decode(b).Got? {
      SomeUsed(b);
      var h, p := Decode(b).frame, b[Decode(b).used..];
      hide Decode, WholePrefix;
      if InPlace(k, h) && h.payloadLen <= |p| {
        var f := h.(payload := p[..h.payloadLen]);
        if CarriesText(k, f) { AsciiIsText(f.payload); }
        if f.opcode != CLOSE { AsciiIsUnbroken(NextType(k, f), p[h.payloadLen..]); }
      }
    }
  }

  // ----- A stream that stops inside a header -----

  lemma {:induction false} HeaderIncomplete(r: Recv, x: seq<byte>)
    requires Wf(r) && r.Open? && r.frame.None? && Decode(r.header + x).Need?
    ensures var s := Receive(r, x); s.next.Open? && s.events == [] && AsciiText(r, x)
    decreases |x|
  {
    if x == [] {
      ReceiveUnfold(r, x);
    } else if |x| < Wanted(r) {
      HeaderShort(r, x);
      ShortPass(r, x);
    } else {
      var n := Wanted(r);
      var y, z := x[..n], x[n..];
      assert x == y + z && r.header + x == r.header + y + z;
      StillNeeds(r.header + y, z);
      WantsSome(r);
      var r' := r.(header := r.header + y, needed := Decode(r.header + y).more);
      hide Decode;
      HeaderPassNeeds(r, y, z, r');
      HeaderIncomplete(r', z);
    }
  }

  lemma WantsSome(r: Recv)
    requires Wf(r) && r.Open? && r.frame.None?
    ensures 0 < Wanted(r)
  {}

  lemma StillNeeds(h: seq<byte>, z: seq<byte>)
    requires Decode(h + z).Need?
    ensures Decode(h).Need?
  {
    if !Decode(h).Need? { DecodeIsStable(h, z); }
  }

  lemma ShortPass(r: Recv, x: seq<byte>)
    requires Wf(r) && r.Open? && r.frame.None? && x != [] && |x| < Wanted(r)
    requires var next := r.(header := r.header + x, needed := Wanted(r) - |x|);
             HeaderStep(r, x) == Step(next, |x|, []) && Wf(next)
    ensures var s := Receive(r, x); s.next.Open? && s.events == [] && AsciiText(r, x)
  {
    hide HeaderStep, Wf, Receive, ProcessFrame, AsciiText;
    ProcessFrameUnfold(r, x);
    ReceiveUnfold(r, x);
    AsciiUnfold(r, x);
    var next := r.(header := r.header + x, needed := Wanted(r) - |x|);
    assert x[|x|..] == [];
    ReceiveUnfold(next, []);
    assert AsciiText(next, []) by { NothingIsAscii(next); }
  }

  lemma NothingIsAscii(r: Recv)
    requires Wf(r)
    ensures AsciiText(r, [])
  {}

  // ----- A stream that stops inside a payload -----

  /** Some payload of the right length. */
  function AnyPayload(h: Frame): (f: Frame)
    ensures |f.payload| == h.payloadLen
  {
    h.(payload := seq(h.payloadLen, _ => 0))
  }

  lemma AnyPayloadIs(k: Stream, h: Frame)
    requires Encodable(h) && h == OnWire(h)
    ensures var f := AnyPayload(h);
            && WellMade(f) && HeaderBytes(f) == HeaderBytes(h) && OnWire(f) == h
            && (InPlace(k, f) <==> InPlace(k, h)) && (InPlace(k, h) <==> HeaderLegal(k, f))
  {
    hide LengthExtension;
  }

  /** The payload octets that there are, taken by the receiver at m. */
  lemma PartTells(m: Recv, k: Stream, a: App, h: Frame, p: seq<byte>)
    requires WfAtPayload(m) && ReadyForPayload(m) && InPlace(k, h) && |p| < h.payloadLen && h == OnWire(h)
    requires m.frame == Some(h) && m.more == 0
    requires m.stream == (if h.opcode == TEXT then TextStream else if h.opcode == BINARY then BinaryStream else k)
    requires h.isControl ==> m.control == []
    requires h.opcode == CONTINUATION ==> m.info == CWS_CONT
    requires h.opcode == TEXT ==> m.info == CWS_TEXT.(first := true)
    requires h.opcode == BINARY ==> m.info == CWS_BINARY.(first := true)
    ensures var s, c := PayloadStep(m, p), Broken(k, a, h, p);
            && DeliverAll(a, s.events) == c.app && (s.next.Closed? <==> c.closed)
            && (s.next.Open? ==> s.used == |p|)
            && (AsciiPiece(m, p) <==> (CarriesText(k, h) ==> IsAscii(p)))
  {
    assert p[..|p|] == p;
    if h.isControl {
      ControlPart(m, p);
    } else if CarriesText(k, h) {
      TextPart(m, a, h, p);
    } else {
      DataPart(m, a, h, p, m.stash, 0, p);
      hide FragmentEvents, Deliver, DeliverAll, SendStep;
      assert m.(stash := m.stash, more := 0) == m;
    }
  }

  lemma ControlPart(m: Recv, p: seq<byte>)
    requires WfAtPayload(m) && m.frame.value.isControl && m.control == [] && |p| < m.frame.value.payloadLen
    ensures var s := ControlStep(m, p); s.next.Open? && s.events == [] && s.used == |p|
  {
    hide CloseEvents;
  }

  lemma DataPart(m: Recv, a: App, h: Frame, p: seq<byte>, stash: seq<byte>, more: nat, x: seq<byte>)
    requires WfAtPayload(m) && !h.isControl && |p| < h.payloadLen && m.frame == Some(h)
    requires h.opcode == CONTINUATION ==> m.info == CWS_CONT
    requires h.opcode == TEXT ==> m.info == CWS_TEXT.(first := true)
    requires h.opcode == BINARY ==> m.info == CWS_BINARY.(first := true)
    ensures var s := SendStep(m.(stash := stash, more := more), |p|, x);
            s.next.Open? && s.used == |p| && DeliverAll(a, s.events) == PartTaken(a, h, x)
  {
    SendOnce(m.(stash := stash, more := more), |p|, x);
    hide FragmentEvents, DeliverAll, SendStep;
    DeliverFragment(a, m.info, x);
  }

  lemma TextPart(m: Recv, a: App, h: Frame, p: seq<byte>)
    requires WfAtPayload(m) && StashFits(m) && !h.isControl && |p| < h.payloadLen
    requires m.frame == Some(h) && m.more == 0 && m.stream == TextStream && (h.opcode == CONTINUATION || h.opcode == TEXT)
    requires h.opcode == CONTINUATION ==> m.info == CWS_CONT
    requires h.opcode == TEXT ==> m.info == CWS_TEXT.(first := true)
    ensures var s := DataStep(m, p);
            match WholePrefix(p)
            case None => s.next.Closed? && DeliverAll(a, s.events) == Deliver(a, Shut(1007, ""))
            case Some(v) => s.next.Open? && s.used == |p| && DeliverAll(a, s.events) == PartTaken(a, h, p[..v])
  {
    assert p[..|p|] == p;
    match WholePrefix(p) {
      case None =>
        DeliverOne(a, Shut(1007, ""));
        hide DeliverAll, WholePrefix;
      case Some(v) =>
        PrefixStops(p);
        hide WholePrefix, SendStep, DeliverAll, Deliver;
        var t := TextStep(m.stash, 0, false, p);
        assert t.TextOk? && t.send == p[..v];
        DataPart(m, a, h, p, t.stash, t.more, t.send);
    }
  }

  lemma PrefixStops(p: seq<byte>)
    requires WholePrefix(p).Some?
    ensures var v := WholePrefix(p).value; v <= |p| && (v < |p| ==> |p| - v < GetSize(p[v]))
  {
    WholePrefixIsGrammar(p, WholePrefix(p).value);
    if WholePrefix(p).value < |p| { WholePrefixStops(p); }
  }

  lemma StopsInPayload(r: Recv, k: Stream, a: App, h: Frame, p: seq<byte>)
    requires Idle(r, k) && InPlace(k, h) && Encodable(h) && h == OnWire(h) && |p| < h.payloadLen
    ensures var s, c := Receive(r, HeaderBytes(h) + p), Broken(k, a, h, p);
            && DeliverAll(a, s.events) == c.app && (s.next.Closed? <==> c.closed)
            && (AsciiText(r, HeaderBytes(h) + p) <==> (CarriesText(k, h) ==> IsAscii(p)))
  {
    var f := AnyPayload(h);
    AnyPayloadIs(k, h);
    FrameAccepted(r, k, f);
    HeaderArrivesAt(r, k, f, p);
    var m := AtFrame(r, f);
    PartTells(m, k, a, h, p);
    hide Idle, Wf, WfAtPayload, ReadyForPayload, Broken, PayloadStep, HeaderBytes, AtFrame, AnyPayload, Receive, AsciiText, AsciiPiece;
    FinishPart(m, p);
  }

  lemma FinishPart(m: Recv, p: seq<byte>)
    requires WfAtPayload(m) && ReadyForPayload(m)
    requires PayloadStep(m, p).next.Open? ==> PayloadStep(m, p).used == |p|
    ensures Wf(PayloadStep(m, p).next)
    ensures Finish(m, p) == PayloadStep(m, p) && (AsciiRest(m, p) <==> AsciiPiece(m, p))
  {
    PayloadKeepsWf(m, p);
    hide Wf, WfAtPayload, ReadyForPayload, PayloadStep, Receive, AsciiPiece, AsciiText;
    var s := PayloadStep(m, p);
    if s.next.Open? {
      assert p[|p|..] == [];
      ReceiveUnfold(s.next, []);
      assert s.events + [] == s.events;
      NothingIsAscii(s.next);
    }
  }

  // ----- The receiver and the reference -----

  lemma HeaderOf(b: seq<byte>)
    requires Decode(b).Got?
    ensures var Got(h, used) := Decode(b);
            && 0 < used <= |b| && Encodable(h) && h == OnWire(h) && b == HeaderBytes(h) + b[used..]
  {
    EncodeDecoded(b);
    SomeUsed(b);
    hide Decode, HeaderBytes;
  }

  /** A frame that is all there. */
  lemma FrameOf(h: Frame, p: seq<byte>)
    requires Encodable(h) && h == OnWire(h) && h.payloadLen <= |p|
    ensures var f := h.(payload := p[..h.payloadLen]);
            && WellMade(f) && Octets(f) + p[h.payloadLen..] == HeaderBytes(h) + p
  {
    var f := h.(payload := p[..h.payloadLen]);
    assert HeaderBytes(f) == HeaderBytes(h) by { hide LengthExtension; }
    hide HeaderBytes;
    assert p == p[..h.payloadLen] + p[h.payloadLen..];
  }

  lemma MisplacedTells(r: Recv, k: Stream, a: App, h: Frame, p: seq<byte>)
    requires Idle(r, k) && Encodable(h) && h == OnWire(h) && !InPlace(k, h)
    ensures var s := Receive(r, HeaderBytes(h) + p);
            s.next.Closed? && DeliverAll(a, s.events) == Deliver(a, Shut(1002, "")) && AsciiText(r, HeaderBytes(h) + p)
  {
    AnyPayloadIs(k, h);
    HeaderIsFaulty(r, k, AnyPayload(h));
    HeaderNotEmpty(h);
    hide Faulty, HeaderBytes, Receive, AsciiText, AnyPayload, DeliverAll;
    assert r.header + HeaderBytes(h) == HeaderBytes(h);
    HeaderRefused(r, HeaderBytes(h), p);
    DeliverOne(a, Shut(1002, ""));
  }

  lemma UndecodableTells(r: Recv, k: Stream, a: App, b: seq<byte>)
    requires Idle(r, k) && Decode(b).Bad?
    ensures var s := Receive(r, b);
            s.next.Closed? && DeliverAll(a, s.events) == Deliver(a, Shut(1002, "")) && AsciiText(r, b)
  {
    UndecodableShuts(r, k, b);
    hide Receive, AsciiText, DeliverAll, Decode;
    DeliverOne(a, Shut(1002, ""));
  }

  lemma RefusedTells(r: Recv, k: Stream, a: App, f: Frame, rest: seq<byte>)
    requires Idle(r, k) && WellMade(f) && Refusal(k, f).Some? && !BreaksOff(k, f)
    ensures var s := Receive(r, Octets(f) + rest);
            s.next.Closed? && DeliverAll(a, s.events) == Deliver(a, Refusal(k, f).value)
  {
    FrameRefused(r, k, f, rest);
    var e := Refusal(k, f).value;
    hide Refusal, BreaksOff, Receive, DeliverAll, Octets;
    DeliverOne(a, Shut(e.code, e.why));
  }

  /** Received in one piece, any stream is told as the reference says. */
  lemma {:induction false} TellsReference(r: Recv, k: Stream, a: App, b: seq<byte>)
    requires Idle(r, k) && Unbroken(k, b) && (k == NoStream <==> a.open == None)
    ensures var s, c := Receive(r, b), Reference(k, a, b);
            DeliverAll(a, s.events) == c.app && (s.next.Closed? <==> c.closed)
    decreases |b|
  {
    hide PayloadStep, Wf;
    var d := Decode(b);
    if d.Need? {
      assert r.header + b == b;
      hide Decode, Receive;
      HeaderIncomplete(r, b);
    } else if d.Bad? {
      UndecodableTells(r, k, a, b);
    } else {
      HeaderOf(b);
      var h, p := d.frame, b[d.used..];
      hide Decode, Idle, Receive, DeliverAll, Deliver, HeaderBytes, Refusal, InPlace, BreaksOff, Broken;
      if !InPlace(k, h) {
        MisplacedTells(r, k, a, h, p);
      } else if |p| < h.payloadLen {
        StopsInPayload(r, k, a, h, p);
      } else {
        FrameOf(h, p);
        FrameTellsReference(r, k, a, h.(payload := p[..h.payloadLen]), p[h.payloadLen..]);
        var f, rest := h.(payload := p[..h.payloadLen]), p[h.payloadLen..];
        if Refusal(k, f) == None && f.opcode != CLOSE {
          var next := PayloadStep(AtFrame(r, f), f.payload + rest).next;
          hide NextType, ExpectFrame;
          TellsReference(next, NextType(k, f), ExpectFrame(a, f), rest);
        }
      }
    }
  }

  /** A complete frame and what follows it. */
  lemma FrameTellsReference(r: Recv, k: Stream, a: App, f: Frame, rest: seq<byte>)
    requires Idle(r, k) && WellMade(f) && !BreaksOff(k, f) && (k == NoStream <==> a.open == None)
    ensures r.Open?
    ensures var s := Receive(r, Octets(f) + rest);
            match Refusal(k, f)
            case Some(e) => s.next.Closed? && DeliverAll(a, s.events) == Deliver(a, e)
            case None =>
              if f.opcode == CLOSE then s.next.Closed? && DeliverAll(a, s.events) == ExpectFrame(a, f)
              else
                var m := AtFrame(r, f);
                && ReadyForPayload(m)
                && var next := PayloadStep(m, f.payload + rest).next;
                && Idle(next, NextType(k, f)) && (NextType(k, f) == NoStream <==> ExpectFrame(a, f).open == None)
                && s.next == Receive(next, rest).next
                && DeliverAll(a, s.events) == DeliverAll(ExpectFrame(a, f), Receive(next, rest).events)
  {
    RefusedIsNotLegal(k, f);
    if Refusal(k, f).Some? {
      RefusedTells(r, k, a, f, rest);
    } else {
      FrameOnWire(r, k, f, rest);
      var s := PayloadStep(AtFrame(r, f), f.payload + rest);
      hide Refusal, BreaksOff, Idle, Octets, NextType, ExpectFrame, PayloadStep, AtFrame, AsciiText, AsciiPiece, Receive, WfAtPayload;
      assert DeliverAll(a, s.events) == ExpectFrame(a, f);
      if f.opcode != CLOSE {
        ExpectKeepsType(k, a, f);
        hide LegalFrame, DeliverAll, ReadyForPayload;
        DeliverConcat(a, s.events, Receive(s.next, rest).events);
      }
    }
  }

  // ----- ASCII -----

  /** A complete frame whose payload the receiver looks at. */
  lemma AsciiFrame(r: Recv, k: Stream, f: Frame, rest: seq<byte>)
    requires Idle(r, k) && WellMade(f) && InPlace(k, f)
    ensures AsciiText(r, Octets(f) + rest) ==> (CarriesText(k, f) ==> IsAscii(f.payload))
    ensures f.opcode == CLOSE ==> AsciiText(r, Octets(f) + rest)
    ensures Refusal(k, f) == None && f.opcode != CLOSE ==>
              var m := AtFrame(r, f);
              && ReadyForPayload(m)
              && var next := PayloadStep(m, f.payload + rest).next;
              && Idle(next, NextType(k, f))
              && (AsciiText(r, Octets(f) + rest) <==> (CarriesText(k, f) ==> IsAscii(f.payload)) && AsciiText(next, rest))
  {
    hide IsAscii, NextType, LegalFrame, Refusal, HeaderBytes, PayloadStep, AtFrame, WfAtPayload, ReadyForPayload,
         AsciiText, AsciiPiece, Wf, InPlace, Receive;
    var m := AtFrame(r, f);
    FrameAccepted(r, k, f);
    HeaderArrivesAt(r, k, f, f.payload + rest);
    AsciiAtPayload(m, k, f, rest);
    PayloadKeepsWf(m, f.payload + rest);
    assert Octets(f) + rest == HeaderBytes(f) + (f.payload + rest);
    RefusedIsNotLegal(k, f);
    hide Octets;
    if f.opcode == CLOSE {
      CloseCloses(m, f, rest);
    } else if Refusal(k, f) == None {
      FrameOnWire(r, k, f, rest);
    }
  }

  lemma AsciiAtPayload(m: Recv, k: Stream, f: Frame, rest: seq<byte>)
    requires m.Open? && m.frame == Some(OnWire(f)) && WellMade(f) && InPlace(k, f)
    requires m.stream == (if f.opcode == TEXT then TextStream else if f.opcode == BINARY then BinaryStream else k)
    ensures AsciiPiece(m, f.payload + rest) <==> (CarriesText(k, f) ==> IsAscii(f.payload))
  {
    assert (f.payload + rest)[..|f.payload|] == f.payload;
  }

  lemma CloseCloses(m: Recv, f: Frame, rest: seq<byte>)
    requires WfAtPayload(m) && ReadyForPayload(m) && f.opcode == CLOSE && WellMade(f)
    requires m.frame == Some(OnWire(f)) && m.control == []
    ensures PayloadStep(m, f.payload + rest).next == Closed
  {
    hide CloseEvents;
  }

  lemma {:induction false} AsciiTextIsWire(r: Recv, k: Stream, b: seq<byte>)
    requires Idle(r, k)
    ensures AsciiText(r, b) <==> AsciiWire(k, b)
    decreases |b|
  {
    var d := Decode(b);
    if d.Need? {
      assert r.header + b == b;
      hide Decode, AsciiText;
      HeaderIncomplete(r, b);
    } else if d.Bad? {
      UndecodableTells(r, k, NOTHING, b);
    } else {
      HeaderOf(b);
      var h, p := d.frame, b[d.used..];
      hide Decode, Idle, AsciiText, HeaderBytes, Refusal, InPlace, Broken, IsAscii;
      if !InPlace(k, h) {
        MisplacedTells(r, k, NOTHING, h, p);
      } else if |p| < h.payloadLen {
        StopsInPayload(r, k, NOTHING, h, p);
      } else {
        FrameOf(h, p);
        var f, rest := h.(payload := p[..h.payloadLen]), p[h.payloadLen..];
        SamePlace(k, h, f);
        AsciiFrame(r, k, f, rest);
        hide NextType;
        if f.opcode != CLOSE && (CarriesText(k, f) ==> IsAscii(f.payload)) {
          AsciiIsNotRefused(k, f);
          AsciiTextIsWire(PayloadStep(AtFrame(r, f), f.payload + rest).next, NextType(k, f), rest);
        }
      }
    }
  }

  lemma SamePlace(k: Stream, h: Frame, f: Frame)
    requires f.(payload := h.payload) == h
    ensures (InPlace(k, f) <==> InPlace(k, h)) && (CarriesText(k, f) <==> CarriesText(k, h))
  {}

  lemma AsciiIsNotRefused(k: Stream, f: Frame)
    requires InPlace(k, f) && f.opcode != CLOSE && (CarriesText(k, f) ==> IsAscii(f.payload))
    ensures Refusal(k, f) == None
  {
    if CarriesText(k, f) { AsciiIsText(f.payload); }
    hide IsText, WholePrefix;
  }

  // ----- The theorems -----

  /** For every byte stream whose text payloads are ASCII, well formed or not, complete or not,
      and every way of cutting it: the user is told exactly what the reference parse of the
      whole stream says, and the connection is shut exactly when it says so. */
  lemma AsciiIsReference(b: seq<byte>, chunks: seq<seq<byte>>)
    requires AsciiWire(NoStream, b) && Flatten(chunks) == b
    ensures var s, c := ReceiveAll(INITIAL, chunks), Reference(NoStream, NOTHING, b);
            DeliverAll(NOTHING, s.events) == c.app && (s.next.Closed? <==> c.closed)
  {
    assert Idle(INITIAL, NoStream);
    AsciiTextIsWire(INITIAL, NoStream, b);
    AsciiIsUnbroken(NoStream, b);
    TellsReference(INITIAL, NoStream, NOTHING, b);
    AsciiChunkingIndependence(chunks);
  }

  /** The same for any text, if no frame but the last of a message ends inside a character and
      no cut falls where it matters. */
  lemma HarmlessIsReference(b: seq<byte>, chunks: seq<seq<byte>>)
    requires Unbroken(NoStream, b) && AllHarmless(INITIAL, chunks) && Flatten(chunks) == b
    ensures var s, c := ReceiveAll(INITIAL, chunks), Reference(NoStream, NOTHING, b);
            DeliverAll(NOTHING, s.events) == c.app && (s.next.Closed? <==> c.closed)
  {
    assert Idle(INITIAL, NoStream);
    TellsReference(INITIAL, NoStream, NOTHING, b);
    ChunkingIndependence(INITIAL, chunks);
  }
}
