/**
 * Where the receiver's treatment of text falls short of what it is for: exactly when octets
 * are lost, when a message may end inside a character, and when an unfinished character is
 * refused although it can still be completed.
 */
module TextLimits {
  import opened Bytes
  import opened Utf8
  import opened Utf8Theory
  import opened TextTheory
  import opened Frames
  import opened Events
  import opened ReceiveSpec
  import opened Handlers
  import opened ChunkTheory

  // ----- One piece of text -----

  /** All octets of an accepted piece are handed on or kept exactly when no character was
      pending or the piece does not go beyond it; otherwise what goes beyond is lost. */
  lemma ConservedExactly(stash: seq<byte>, more: nat, final: bool, p: seq<byte>)
    requires StashShape(stash, more) && |stash| + more <= 4
    ensures var t := TextStep(stash, more, final, p);
            t.TextOk? ==> (t.send + t.stash == stash + p <==> more == 0 || |p| <= more)
    ensures 0 < more < |p| ==> TextStep(stash, more, final, p) == TextStep(stash, more, final, p[..more])
  {
    hide WholePrefix, MaybeValidSpec;
    var t := TextStep(stash, more, final, p);
    if more == 0 {
      if t.TextOk? && t.send != p { assert t.send + t.stash == p; }
      assert stash + p == p && p + [] == p;
    } else {
      if |p| <= more { assert p[..|p|] == p; } else { assert p[..more][..more] == p[..more]; }
      if t.TextOk? { assert |t.send + t.stash| == |stash| + Min(more, |p|); }
    }
  }

  /** The last piece of a message is accepted with a character still unfinished exactly when
      it begins inside that character, does not finish it, and passes the early test. */
  lemma EndsInsideCharacterExactly(stash: seq<byte>, more: nat, p: seq<byte>)
    requires StashShape(stash, more) && |stash| + more <= 4
    ensures var t := TextStep(stash, more, true, p);
            t.TextOk? && 0 < t.more <==> |p| < more && MaybeValidSpec(stash + p)
  {
    hide WholePrefix, MaybeValidSpec;
    if |p| < more { assert p[..|p|] == p; }
  }

  /** A first octet alone, when a piece without octets follows, is refused exactly if it is
      0xE0 or 0xF0. */
  lemma LoneLeadRefusedExactly(b: byte, final: bool)
    requires 1 < GetSize(b)
    ensures TextStep([b], GetSize(b) - 1, final, []) == TextBad <==> b == 0xE0 || b == 0xF0
    ensures Viable([b])
  {
    assert [b] + [] == [b];
    ViableLead(b);
    MaybeValidExact([b]);
    hide MaybeValidSpec, Viable, IsChar;
  }

  // ----- One frame, cut in two -----

  function InTwoPieces(m: Recv, p: seq<byte>, q: seq<byte>): Step
    requires WfAtPayload(m) && IsTextPiece(m) && Straddles(m, p)
  {
    StashOkFits(m);
    var s := DataStep(m, p);
    DataStepOk(m, p);
    DataKeepsKind(m, p);
    if s.next.Closed? then s else Then(s, DataStep(s.next, q))
  }

  /** Different treatment of the text shows: in the state or in what some user is told. */
  lemma TextShows(m: Recv, n: nat, t: TextResult, u: TextResult)
    requires m.Open? && m.frame.Some? && n <= m.frame.value.payloadLen
    requires Same(TextSend(m, n, t), TextSend(m, n, u))
    ensures t == u
  {
    if t.TextOk? && u.TextOk? {
      var a := App(Some(Partial(false, [])), []);
      var info := SentInfo(m, n);
      assert DeliverAll(a, TextSend(m, n, t).events) == DeliverAll(a, TextSend(m, n, u).events);
      assert TextSend(m, n, t).next == TextSend(m, n, u).next;
      assert t.stash == u.stash && t.more == u.more;
      hide FragmentEvents, DeliverAll, Same;
      assert TextSend(m, n, t).events == FragmentEvents(info, t.send);
      assert TextSend(m, n, u).events == FragmentEvents(info, u.send);
      DeliverFragment(a, info, t.send);
      DeliverFragment(a, info, u.send);
      FragmentShows(info, t.send, u.send);
    }
  }

  lemma FragmentShows(info: Flags, x: seq<byte>, y: seq<byte>)
    requires var a := App(Some(Partial(false, [])), []); Deliver(a, Fragment(info, x)) == Deliver(a, Fragment(info, y))
    ensures x == y
  {
    var a := App(Some(Partial(false, [])), []);
    assert [] + x == x && [] + y == y;
    if info.last {
      assert Deliver(a, Fragment(info, x)).out[0].data == x && Deliver(a, Fragment(info, y)).out[0].data == y;
    }
  }

  /** The flags with which the octets up to the n-th of the rest of a frame are reported. */
  function SentInfo(m: Recv, n: nat): Flags
    requires m.Open? && m.frame.Some?
  {
    m.info.(last := m.info.last || (n == m.frame.value.payloadLen && m.frame.value.fin))
  }

  /** Within a frame, cutting a piece of text in two changes nothing for any user exactly when
      the condition of CutIsHarmless holds. */
  lemma PieceCutExactly(m: Recv, p: seq<byte>, q: seq<byte>)
    requires WfAtPayload(m) && IsTextPiece(m) && Straddles(m, p)
    requires q != [] && |p| + |q| <= m.frame.value.payloadLen
    ensures StashShape(m.stash, m.more) && |m.stash| + m.more <= 4
    ensures Same(DataStep(m, p + q), InTwoPieces(m, p, q)) <==>
              CutIsHarmless(m.stash, m.more, m.frame.value.fin && m.frame.value.payloadLen == |p| + |q|, p, q)
  {
    hide TextStep, TextTwice, CutIsHarmless, TextSend, DataStep, Same;
    StashOkFits(m);
    hide WfAtPayload;
    var final := m.frame.value.fin && m.frame.value.payloadLen == |p| + |q|;
    var n := |p| + |q|;
    var t, u := TextStep(m.stash, m.more, final, p + q), TextTwice(m.stash, m.more, final, p, q);
    CutExactly(m.stash, m.more, final, p, q);
    assert q[..|q|] == q;
    FirstPiece(m, p, q, q, final);
    TwoPiecesAre(m, p, q, final);
    hide InTwoPieces;
    if Same(DataStep(m, p + q), InTwoPieces(m, p, q)) {
      SameTrans(TextSend(m, n, t), InTwoPieces(m, p, q), TextSend(m, n, u));
      TextShows(m, n, t, u);
    }
  }

  /** Two pieces are treated as the text is in two steps. */
  lemma TwoPiecesAre(m: Recv, p: seq<byte>, q: seq<byte>, final: bool)
    requires WfAtPayload(m) && IsTextPiece(m) && Straddles(m, p) && StashFits(m) && StashShape(m.stash, m.more)
    requires q != [] && |p| + |q| <= m.frame.value.payloadLen
    requires final == (m.frame.value.fin && m.frame.value.payloadLen == |p| + |q|)
    ensures Same(TextSend(m, |p| + |q|, TextTwice(m.stash, m.more, final, p, q)), InTwoPieces(m, p, q))
  {
    hide TextStep, TextTwice, TextSend, DataStep, Same, WfAtPayload;
    var t := TextStep(m.stash, m.more, false, p);
    TextStepOk(m.stash, m.more, false, p);
    assert q[..|q|] == q;
    FirstPiece(m, p, q, q, final);
    TextSendTwice(m, final, p, q);
    SecondPiece(m, p, q, t);
    BadIsBad(m, |p|);
    SameIsSame(TextSend(m, |p|, t));
  }

  lemma SameTrans(s: Step, t: Step, u: Step)
    requires Same(s, t) && Same(u, t)
    ensures Same(s, u)
  {}

  // ----- Whole streams -----

  /** A callback whose octets one pass takes. */
  lemma OnePass(r: Recv, buf: seq<byte>)
    requires Wf(r) && r.Open? && buf != [] && ReceiveSpec.ProcessFrame(r, buf).used == |buf|
    ensures Receive(r, buf) == ReceiveSpec.ProcessFrame(r, buf)
  {
    ReceiveUnfold(r, buf);
    hide ProcessFrame, Receive;
    var s := ReceiveSpec.ProcessFrame(r, buf);
    if s.next.Open? {
      assert buf[s.used..] == [];
      ReceiveUnfold(s.next, []);
      assert s.events + [] == s.events;
    }
  }

  lemma TwoCalls(r: Recv, a: seq<byte>, b: seq<byte>)
    requires Wf(r)
    ensures ReceiveAll(r, [a, b]) == Then(Receive(r, a), Receive(Receive(r, a).next, b))
  {
    hide Receive;
    var chunks: seq<seq<byte>> := [a, b];
    var first: seq<seq<byte>> := [a];
    assert chunks[..1] == first && first[..0] == [];
    var s := Receive(r, a);
    assert [] + s.events == s.events;
    assert ReceiveAll(r, first) == s;
  }

  /** A header whose octets the receiver has, and a payload it takes at once. */
  lemma HeaderAndPayload(r: Recv, head: seq<byte>, p: seq<byte>, m: Recv)
    requires Wf(r) && r.Open? && r.frame.None? && r.header == [] && |head| == 2 == Wanted(r)
    requires HeaderStep(r, head + p) == Step(m, 2, []) && m.Open? && m.frame.Some?
    ensures ReadyForPayload(m) && ReceiveSpec.ProcessFrame(r, head + p) ==
                                  Step(PayloadStep(m, p).next, 2 + PayloadStep(m, p).used, PayloadStep(m, p).events)
  {
    ProcessFrameUnfold(r, head + p);
    assert (head + p)[2..] == p;
    hide HeaderStep, PayloadStep, ProcessFrame;
    assert [] + PayloadStep(m, p).events == PayloadStep(m, p).events;
  }

  const INFO_FIRST := CWS_TEXT.(first := true)

  function TextFrame(left: nat): Frame
    requires left < 126
  {
    Frame(true, false, false, false, TEXT, ZERO_KEY, left, [])
  }

  /** At the payload of a whole text message of n octets. */
  function AtText(n: nat): Recv
    requires n < 126
  {
    Open([], 0, Some(TextFrame(n)), [], [], 0, TextStream, INFO_FIRST)
  }

  lemma TextHeader(n: nat, p: seq<byte>)
    requires n < 126
    ensures HeaderStep(INITIAL, [0x81, n] + p) == Step(AtText(n), 2, [])
  {
    assert ([0x81, n] + p)[..2] == [0x81, n];
    assert [] + [0x81, n] == [0x81, n];
    assert Decode([0x81, n]) == Got(TextFrame(n), 2);
  }

  /** The same after the first octet of a two-octet character. */
  const HALF: Recv := Open([], 0, Some(TextFrame(2)), [], [0xC3], 1, TextStream, CWS_CONT)

  lemma ReceivesHalf()
    ensures Receive(INITIAL, [0x81, 3] + [0xC3]) == Step(HALF, 3, [Fragment(INFO_FIRST, [])])
  {
    TextHeader(3, [0xC3]);
    HeaderAndPayload(INITIAL, [0x81, 3], [0xC3], AtText(3));
    assert WholePrefix([0xC3]) == Some(0) && [0xC3][..1] == [0xC3] && [0xC3][0..] == [0xC3];
    hide HeaderStep, WholePrefix;
    assert PayloadStep(AtText(3), [0xC3]) == Step(HALF, 1, [Fragment(INFO_FIRST, [])]);
    OnePass(INITIAL, [0x81, 3] + [0xC3]);
  }

  lemma TwoAndOne()
    ensures WholePrefix([0xC3, 0xA9, 0x41]) == Some(3) && WholePrefix([0xC3, 0xA9]) == Some(2)
  {
    var s: seq<byte> := [0xC3, 0xA9, 0x41];
    assert s[..2] == [0xC3, 0xA9] && s[2..] == [0x41];
    AsciiIsText([0x41]);
    CharIsText([0xC3, 0xA9]);
    TextIsWhole([0xC3, 0xA9]);
    hide WholePrefix;
    WholePrefixStep(s);
  }

  /** Lost octets: cut inside its first character, the same text message loses its last. */
  lemma CutLosesOctets()
    ensures var whole := [0x81, 3] + [0xC3, 0xA9, 0x41];
            && Receive(INITIAL, whole) == Step(INITIAL, 5, [Fragment(INFO_FIRST.(last := true), [0xC3, 0xA9, 0x41])])
            && DeliverAll(NOTHING, Receive(INITIAL, whole).events) == App(None, [Message(false, [0xC3, 0xA9, 0x41])])
    ensures var cut := ReceiveAll(INITIAL, [[0x81, 3] + [0xC3], [0xA9, 0x41]]);
            cut.next == INITIAL && DeliverAll(NOTHING, cut.events) == App(None, [Message(false, [0xC3, 0xA9])])
  {
    WholeMessage();
    CutMessage();
    hide *;
    DeliverOne(NOTHING, Fragment(INFO_FIRST.(last := true), [0xC3, 0xA9, 0x41]));
    assert Deliver(NOTHING, Fragment(INFO_FIRST.(last := true), [0xC3, 0xA9, 0x41]))
        == App(None, [Message(false, [0xC3, 0xA9, 0x41])]) by { OnePart([0xC3, 0xA9, 0x41]); }
    TwoParts([0xC3, 0xA9]);
  }

  lemma CutMessage()
    ensures ReceiveAll(INITIAL, [[0x81, 3] + [0xC3], [0xA9, 0x41]]) ==
            Step(INITIAL, 5, [Fragment(INFO_FIRST, [])] + [Fragment(CWS_CONT.(last := true), [0xC3, 0xA9])])
  {
    SecondHalf();
    ReceivesHalf();
    TwoCalls(INITIAL, [0x81, 3] + [0xC3], [0xA9, 0x41]);
    hide Receive, ReceiveAll;
  }

  lemma OnePart(x: seq<byte>)
    ensures Deliver(NOTHING, Fragment(INFO_FIRST.(last := true), x)) == App(None, [Message(false, x)])
  {}

  lemma TwoParts(x: seq<byte>)
    ensures DeliverAll(NOTHING, [Fragment(INFO_FIRST, [])] + [Fragment(CWS_CONT.(last := true), x)])
         == App(None, [Message(false, x)])
  {
    var a, b := Fragment(INFO_FIRST, []), Fragment(CWS_CONT.(last := true), x);
    hide DeliverAll;
    DeliverConcat(NOTHING, [a], [b]);
    DeliverOne(NOTHING, a);
    DeliverOne(Deliver(NOTHING, a), b);
    assert [] + x == x;
  }

  lemma WholeMessage()
    ensures Receive(INITIAL, [0x81, 3] + [0xC3, 0xA9, 0x41])
         == Step(INITIAL, 5, [Fragment(INFO_FIRST.(last := true), [0xC3, 0xA9, 0x41])])
  {
    var p: seq<byte> := [0xC3, 0xA9, 0x41];
    TextHeader(3, p);
    HeaderAndPayload(INITIAL, [0x81, 3], p, AtText(3));
    TwoAndOne();
    assert p[..3] == p;
    hide HeaderStep, WholePrefix;
    assert PayloadStep(AtText(3), p) == Step(INITIAL, 3, [Fragment(INFO_FIRST.(last := true), p)]);
    OnePass(INITIAL, [0x81, 3] + p);
  }

  lemma SecondHalf()
    ensures Receive(HALF, [0xA9, 0x41]) == Step(INITIAL, 2, [Fragment(CWS_CONT.(last := true), [0xC3, 0xA9])])
  {
    var p: seq<byte> := [0xA9, 0x41];
    assert p[..2] == p && p[..1] == [0xA9] && [0xC3] + [0xA9] == [0xC3, 0xA9];
    TwoAndOne();
    hide WholePrefix;
    assert PayloadStep(HALF, p) == Step(INITIAL, 2, [Fragment(CWS_CONT.(last := true), [0xC3, 0xA9])]);
    ProcessFrameUnfold(HALF, p);
    assert p[0..] == p;
    assert [] + PayloadStep(HALF, p).events == PayloadStep(HALF, p).events;
    OnePass(HALF, p);
  }

  // ----- A message of two frames, the first of them one octet of a longer character -----

  function HoldingLead(b: byte): Recv
    requires 1 < GetSize(b)
  {
    INITIAL.(stash := [b], more := GetSize(b) - 1, stream := TextStream, info := CWS_CONT)
  }

  function LastFrame(n: nat): Frame
    requires n < 126
  {
    TextFrame(n).(opcode := CONTINUATION)
  }

  lemma FirstFragment(b: byte)
    requires 1 < GetSize(b)
    ensures Receive(INITIAL, [0x01, 1] + [b]) == Step(HoldingLead(b), 3, [Fragment(INFO_FIRST, [])])
  {
    assert AtText(1).Open?;
    var m := AtText(1).(frame := Some(TextFrame(1).(fin := false)));
    assert ([0x01, 1] + [b])[..2] == [0x01, 1] && [] + [0x01, 1] == [0x01, 1];
    assert Decode([0x01, 1]) == Got(TextFrame(1).(fin := false), 2);
    HeaderAndPayload(INITIAL, [0x01, 1], [b], m);
    assert WholePrefix([b]) == Some(0) && [b][..1] == [b] && [b][0..] == [b];
    hide HeaderStep, WholePrefix;
    assert PayloadStep(m, [b]) == Step(HoldingLead(b), 1, [Fragment(INFO_FIRST, [])]);
    OnePass(INITIAL, [0x01, 1] + [b]);
  }

  lemma LastHeader(b: byte, n: nat, p: seq<byte>)
    requires 1 < GetSize(b) && n < 126
    ensures Wf(HoldingLead(b)) && HeaderStep(HoldingLead(b), [0x80, n] + p) == Step(HoldingLead(b).(frame := Some(LastFrame(n))), 2, [])
  {
    assert ([0x80, n] + p)[..2] == [0x80, n] && [] + [0x80, n] == [0x80, n];
    assert Decode([0x80, n]) == Got(LastFrame(n), 2);
  }

  lemma EmptyEnd()
    ensures Receive(HoldingLead(0xC3), [0x80, 0] + []) ==
            Step(INITIAL.(stash := [0xC3], more := 1), 2, [Fragment(CWS_CONT.(last := true), [])])
  {
    LastHeader(0xC3, 0, []);
    var m := HoldingLead(0xC3).(frame := Some(LastFrame(0)));
    HeaderAndPayload(HoldingLead(0xC3), [0x80, 0], [], m);
    LoneLeadRefusedExactly(0xC3, true);
    assert [0xC3] + [] == [0xC3];
    hide HeaderStep, MaybeValidSpec, Receive;
    assert PayloadStep(m, []) ==
           Step(INITIAL.(stash := [0xC3], more := 1), 0, [Fragment(CWS_CONT.(last := true), [])]);
    OnePass(HoldingLead(0xC3), [0x80, 0] + []);
  }

  /** A message that is one octet of a two-octet character is reported as an empty text
      message, and the octet stays pending between messages. */
  lemma EndsInsideCharacter()
    ensures var s := ReceiveAll(INITIAL, [[0x01, 1] + [0xC3], [0x80, 0] + []]);
            && s.next == INITIAL.(stash := [0xC3], more := 1)
            && DeliverAll(NOTHING, s.events) == App(None, [Message(false, [])])
  {
    FirstFragment(0xC3);
    EmptyEnd();
    TwoCalls(INITIAL, [0x01, 1] + [0xC3], [0x80, 0] + []);
    TwoParts([]);
    hide Receive, ReceiveAll, DeliverAll;
  }

  /** A valid message whose first character begins with 0xE0: if the second header comes alone
      the connection is closed with 1007, otherwise the message is delivered. */
  lemma HeaderAloneRefusesE0()
    ensures var s := Receive(HoldingLead(0xE0), [0x80, 2] + []); s.next.Closed? && s.events == [Shut(1007, "")]
    ensures Receive(HoldingLead(0xE0), [0x80, 2] + [0xA0, 0x80])
         == Step(INITIAL, 4, [Fragment(CWS_CONT.(last := true), [0xE0, 0xA0, 0x80])])
  {
    assert HoldingLead(0xE0).Open?;
    var m := HoldingLead(0xE0).(frame := Some(LastFrame(2)));
    LastHeader(0xE0, 2, []);
    HeaderAndPayload(HoldingLead(0xE0), [0x80, 2], [], m);
    LoneLeadRefusedExactly(0xE0, false);
    var p: seq<byte> := [0xA0, 0x80];
    LastHeader(0xE0, 2, p);
    HeaderAndPayload(HoldingLead(0xE0), [0x80, 2], p, m);
    var u: seq<byte> := [0xE0, 0xA0, 0x80];
    assert p[..2] == p && [0xE0] + p == u;
    assert IsChar(u);
    CharIsText(u);
    TextIsWhole(u);
    hide HeaderStep, MaybeValidSpec, WholePrefix, IsChar, Receive;
    assert PayloadStep(m, []) == Fail(1007);
    assert PayloadStep(m, p) == Step(INITIAL, 2, [Fragment(CWS_CONT.(last := true), u)]);
    OnePass(HoldingLead(0xE0), [0x80, 2] + p);
    ReceiveUnfold(HoldingLead(0xE0), [0x80, 2] + []);
  }
}
