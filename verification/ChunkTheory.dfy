/**
 * Chunking independence: when the way a byte stream is cut into receive callbacks makes no
 * difference to the state reached and to what the user is told.
 */
module ChunkTheory {
  import opened Bytes
  import opened TextTheory
  import opened Frames
  import opened FrameTheory
  import opened Events
  import opened ReceiveSpec
  import opened Handlers

  /** Two computations reach the same state and tell the user the same. */
  ghost predicate Same(s: Step, t: Step) {
    s.next == t.next && forall a :: DeliverAll(a, s.events) == DeliverAll(a, t.events)
  }

  ghost predicate SameUse(s: Step, t: Step) {
    Same(s, t) && (s.next.Open? ==> s.used == t.used)
  }

  // ----- Where a cut falls -----

  function Remaining(m: Recv): int
    requires m.Open? && m.frame.Some?
  {
    if m.frame.value.isControl then m.frame.value.payloadLen - |m.control| else m.frame.value.payloadLen
  }

  /** The octets p end before the payload of the current frame does. */
  predicate Straddles(m: Recv, p: seq<byte>) {
    m.Open? && m.frame.Some? && |p| < Remaining(m)
  }

  predicate IsTextPiece(m: Recv) {
    m.Open? && m.frame.Some? && !m.frame.value.isControl && m.stream == TextStream
  }

  /** The payload octets before the cut are p; b comes after it. */
  predicate PieceHarmless(m: Recv, p: seq<byte>, b: seq<byte>)
    requires WfAtPayload(m) && Straddles(m, p)
  {
    IsTextPiece(m) ==>
      var f := m.frame.value;
      var q := b[..Min(f.payloadLen - |p|, |b|)];
      StashOkFits(m);
      CutIsHarmless(m.stash, m.more, f.fin && f.payloadLen <= |p| + |q|, p, q)
  }

  /** Cutting a ++ b between a and b is harmless unless the cut breaks the payload of a text
      frame where TextTheory.CutIsHarmless does not hold. */
  predicate HarmlessCut(r: Recv, a: seq<byte>, b: seq<byte>)
    requires Wf(r)
    decreases |a|
  {
    a == [] || b == [] || r.Closed? ||
    (AtPayloadOk(r, a);
     var h := AtPayload(r, a);
     var p := a[h.used..];
     if Straddles(h.next, p) then PieceHarmless(h.next, p, b)
     else
       var t := ReceiveSpec.ProcessFrame(r, a);
       ProcessFrameKeepsWf(r, a);
       t.next.Closed? || HarmlessCut(t.next, a[t.used..], b))
  }

  // ----- One pass, cut inside a payload -----

  lemma ControlCut(m: Recv, p: seq<byte>, b: seq<byte>)
    requires WfAtPayload(m) && m.frame.value.isControl && Straddles(m, p)
    ensures var s := ControlStep(m, p);
            && s.next.Open? && WfAtPayload(s.next) && s.next.frame == m.frame
            && ControlStep(m, p + b) == Then(s, ControlStep(s.next, b))
  {
    hide CloseEvents;
    var s := ControlStep(m, p);
    var n := m.frame.value.payloadLen;
    var min := Min(n - |m.control|, |p + b|);
    assert (p + b)[..min] == p + b[..min - |p|];
    assert m.control + (p + b)[..min] == s.next.control + b[..min - |p|];
  }

  /** A fragment that is not reported would not have changed anything. */
  lemma DeliverFragment(a: App, info: Flags, x: seq<byte>)
    ensures DeliverAll(a, FragmentEvents(info, x)) == Deliver(a, Fragment(info, x))
  {
    DeliverAtMostOne(a, FragmentEvents(info, x));
    if x == [] && a.open.Some? { assert a.open.value.data + x == a.open.value.data; }
  }

  lemma DeliverTwice(a: App, info: Flags, last: bool, x: seq<byte>, y: seq<byte>)
    requires !info.last
    ensures Deliver(a, Fragment(info.(last := last), x + y)) ==
            Deliver(Deliver(a, Fragment(info, x)), Fragment(Continued(info).(first := false, last := last), y))
  {
    if a.open.Some? { assert a.open.value.data + (x + y) == a.open.value.data + x + y; }
  }

  lemma EventsTwice(a: App, info: Flags, last: bool, x: seq<byte>, y: seq<byte>)
    requires !info.last
    ensures DeliverAll(a, FragmentEvents(info.(last := last), x + y)) ==
            DeliverAll(a, FragmentEvents(info, x)
                          + FragmentEvents(Continued(info).(first := false, last := last), y))
  {
    hide Deliver, FragmentEvents, Continued;
    var info2 := Continued(info).(first := false, last := last);
    DeliverConcat(a, FragmentEvents(info, x), FragmentEvents(info2, y));
    DeliverFragment(a, info.(last := last), x + y);
    DeliverFragment(a, info, x);
    DeliverFragment(Deliver(a, Fragment(info, x)), info2, y);
    DeliverTwice(a, info, last, x, y);
  }

  /** The effect on any user of sending x ++ y at once, or x and then y. */
  lemma SendTwice(m: Recv, i: nat, j: nat, x: seq<byte>, y: seq<byte>)
    requires m.Open? && m.frame.Some? && i < m.frame.value.payloadLen && i + j <= m.frame.value.payloadLen
    requires !m.info.last
    ensures var s := SendStep(m, i, x);
            && s.next.Open? && s.next.frame.Some? && i + j <= m.frame.value.payloadLen
            && s.next.frame.value.payloadLen == m.frame.value.payloadLen - i
            && SameUse(SendStep(m, i + j, x + y), Then(s, SendStep(s.next, j, y)))
  {
    SendOnce(m, i, x);
    SendTwiceState(m, i, j, x, y);
    var last := i + j == m.frame.value.payloadLen && m.frame.value.fin;
    hide FragmentEvents, Deliver, DeliverAll, SendStep, Continued;
    var s := SendStep(m, i, x);
    forall a ensures DeliverAll(a, SendStep(m, i + j, x + y).events)
                  == DeliverAll(a, s.events + SendStep(s.next, j, y).events) {
      EventsTwice(a, m.info, last, x, y);
    }
  }

  lemma SendOnce(m: Recv, i: nat, x: seq<byte>)
    requires m.Open? && m.frame.Some? && i < m.frame.value.payloadLen && !m.info.last
    ensures var f := m.frame.value;
            SendStep(m, i, x) ==
            Step(m.(frame := Some(f.(payloadLen := f.payloadLen - i)), info := Continued(m.info).(first := false)),
                 i, FragmentEvents(m.info, x))
  {
    assert m.info.(last := false) == m.info;
    hide FragmentEvents;
  }

  lemma SendTwiceState(m: Recv, i: nat, j: nat, x: seq<byte>, y: seq<byte>)
    requires m.Open? && m.frame.Some? && i < m.frame.value.payloadLen && i + j <= m.frame.value.payloadLen
    requires !m.info.last
    ensures var f := m.frame.value;
            var next := m.(frame := Some(f.(payloadLen := f.payloadLen - i)), info := Continued(m.info).(first := false));
            var last := i + j == f.payloadLen && f.fin;
            var w, t := SendStep(m, i + j, x + y), SendStep(next, j, y);
            && w.next == t.next && w.used == i + j && t.used == j
            && w.events == FragmentEvents(m.info.(last := last), x + y)
            && t.events == FragmentEvents(Continued(m.info).(first := false, last := last), y)
  {
    hide FragmentEvents;
  }

  lemma DeliverAtMostOne(a: App, es: seq<Event>)
    requires |es| <= 1
    ensures DeliverAll(a, es) == if es == [] then a else Deliver(a, es[0])
  {
    if es != [] { assert es == [es[0]]; DeliverOne(a, es[0]); }
  }

  lemma BinaryCut(m: Recv, p: seq<byte>, b: seq<byte>)
    requires WfAtPayload(m) && !m.frame.value.isControl && m.stream != TextStream && Straddles(m, p)
    ensures var s := DataStep(m, p);
            && s.next.Open? && WfAtPayload(s.next) && s.used == |p|
            && SameUse(DataStep(m, p + b), Then(s, DataStep(s.next, b)))
  {
    hide SendStep, DataStep;
    StashOkFits(m);
    var n := m.frame.value.payloadLen;
    var q := b[..Min(n - |p|, |b|)];
    StillAtPayload(m, |p|, p);
    var next := SendStep(m, |p|, p).next;
    StashOkFits(next);
    BinaryPiece(m, p);
    BinaryPiece(m, p + b);
    BinaryPiece(next, b);
    assert p[..|p|] == p && (p + b)[..|p| + |q|] == p + q;
    hide SameUse, WfAtPayload, StashFits;
    SendTwice(m, |p|, |q|, p, q);
  }

  lemma BinaryPiece(m: Recv, p: seq<byte>)
    requires m.Open? && m.frame.Some? && m.stream != TextStream && StashFits(m)
    ensures var min := Min(m.frame.value.payloadLen, |p|); DataStep(m, p) == SendStep(m, min, p[..min])
  {
    hide SendStep;
  }

  /** An unfinished frame stays ready for more payload. */
  lemma StillAtPayload(m: Recv, i: nat, x: seq<byte>)
    requires WfAtPayload(m) && !m.frame.value.isControl && i < m.frame.value.payloadLen
    ensures var s := SendStep(m, i, x);
            && WfAtPayload(s.next) && s.next.stream == m.stream && s.used == i && !m.info.last
            && s.next.frame == Some(m.frame.value.(payloadLen := m.frame.value.payloadLen - i))
            && s.next.stash == m.stash && s.next.more == m.more
  {}

  lemma TextCut(m: Recv, p: seq<byte>, b: seq<byte>)
    requires WfAtPayload(m) && IsTextPiece(m) && Straddles(m, p) && b != [] && PieceHarmless(m, p, b)
    ensures var s := DataStep(m, p);
            if s.next.Closed? then Same(DataStep(m, p + b), s)
            else && WfAtPayload(s.next) && s.used == |p|
                 && SameUse(DataStep(m, p + b), Then(s, DataStep(s.next, b)))
  {
    StashOkFits(m);
    var f := m.frame.value;
    var q := b[..Min(f.payloadLen - |p|, |b|)];
    var final := f.fin && f.payloadLen <= |p| + |q|;
    CutExactly(m.stash, m.more, final, p, q);
    TextStepOk(m.stash, m.more, false, p);
    var t1 := TextStep(m.stash, m.more, false, p);
    FirstPiece(m, p, b, q, final);
    hide TextStep, CutIsHarmless, TextSend, DataStep, WfAtPayload, TextTwice, Same;
    TextSendTwice(m, final, p, q);
    SecondPiece(m, p, b, t1);
    BadIsBad(m, |p|);
    if t1.TextBad? { SameIsSame(DataStep(m, p)); }
  }

  lemma SameIsSame(s: Step)
    ensures Same(s, s)
  {}

  lemma FirstPiece(m: Recv, p: seq<byte>, b: seq<byte>, q: seq<byte>, final: bool)
    requires WfAtPayload(m) && IsTextPiece(m) && Straddles(m, p) && StashFits(m)
    requires q == b[..Min(m.frame.value.payloadLen - |p|, |b|)]
    requires final == (m.frame.value.fin && m.frame.value.payloadLen <= |p| + |q|)
    ensures DataStep(m, p) == TextSend(m, |p|, TextStep(m.stash, m.more, false, p))
    ensures DataStep(m, p + b) == TextSend(m, |p| + |q|, TextStep(m.stash, m.more, final, p + q))
  {
    hide TextStep, TextSend, WfAtPayload, DataStep;
    var min := |p| + |q|;
    assert Min(m.frame.value.payloadLen, |p|) == |p| && Min(m.frame.value.payloadLen, |p + b|) == min;
    assert p[..|p|] == p && (p + b)[..min] == p + q;
    TextPieceIs(m, p);
    TextPieceIs(m, p + b);
  }

  lemma TextPieceIs(m: Recv, p: seq<byte>)
    requires m.Open? && m.frame.Some? && m.stream == TextStream && StashFits(m)
    ensures var f, min := m.frame.value, Min(m.frame.value.payloadLen, |p|);
            DataStep(m, p) == TextSend(m, min, TextStep(m.stash, m.more, f.fin && f.payloadLen <= min, p[..min]))
  {
    hide TextStep, TextSend;
  }

  lemma BadIsBad(m: Recv, min: nat)
    requires m.Open? && m.frame.Some? && min <= m.frame.value.payloadLen
    ensures TextSend(m, min, TextBad) == Fail(1007)
  {}

  /** The rest of the payload after an accepted first piece. */
  lemma SecondPiece(m: Recv, p: seq<byte>, b: seq<byte>, t1: TextResult)
    requires WfAtPayload(m) && IsTextPiece(m) && Straddles(m, p)
    requires t1.TextOk? ==> StashShape(t1.stash, t1.more)
    ensures t1.TextOk? ==>
              var s := TextSend(m, |p|, t1);
              var q := b[..Min(m.frame.value.payloadLen - |p|, |b|)];
              && WfAtPayload(s.next) && s.used == |p| && IsTextPiece(s.next) && StashFits(s.next)
              && DataStep(s.next, b) == TextSend(s.next, |q|,
                   TextStep(t1.stash, t1.more, m.frame.value.fin && m.frame.value.payloadLen <= |p| + |q|, q))
  {
    hide SendStep, TextStep;
    if t1.TextOk? {
      StillAtPayload(m.(stash := t1.stash, more := t1.more), |p|, t1.send);
      StashOkFits(TextSend(m, |p|, t1).next);
    }
  }

  lemma TextSendTwice(m: Recv, final: bool, p: seq<byte>, q: seq<byte>)
    requires WfAtPayload(m) && IsTextPiece(m) && Straddles(m, p) && |p| + |q| <= m.frame.value.payloadLen
    requires StashShape(m.stash, m.more) && |m.stash| + m.more <= 4
    ensures var t1 := TextStep(m.stash, m.more, false, p);
            var s := TextSend(m, |p|, t1);
            var w := TextSend(m, |p| + |q|, TextTwice(m.stash, m.more, final, p, q));
            if t1.TextBad? then w == s
            else && s.next.Open? && s.next.frame.Some? && StashShape(t1.stash, t1.more) && |t1.stash| + t1.more <= 4
                 && |q| <= s.next.frame.value.payloadLen
                 && SameUse(w, Then(s, TextSend(s.next, |q|, TextStep(t1.stash, t1.more, final, q))))
  {
    hide TextStep, SendStep, SameUse;
    TextStepOk(m.stash, m.more, false, p);
    var t1 := TextStep(m.stash, m.more, false, p);
    if t1.TextOk? {
      var m1 := m.(stash := t1.stash, more := t1.more);
      StillAtPayload(m1, |p|, t1.send);
      hide WfAtPayload;
      var t2 := TextStep(t1.stash, t1.more, final, q);
      if t2.TextOk? {
        TextCutSends(m, t1, t2, |p|, |q|);
      } else {
        BadAfter(m1, |p|, t1.send);
      }
    }
  }

  lemma TextCutSends(m: Recv, t1: TextResult, t2: TextResult, i: nat, j: nat)
    requires m.Open? && m.frame.Some? && i < m.frame.value.payloadLen && i + j <= m.frame.value.payloadLen
    requires !m.info.last && t1.TextOk? && t2.TextOk?
    ensures var s := SendStep(m.(stash := t1.stash, more := t1.more), i, t1.send);
            && s.next.Open? && s.next.frame.Some?
            && s.next.frame.value.payloadLen == m.frame.value.payloadLen - i
            && SameUse(SendStep(m.(stash := t2.stash, more := t2.more), i + j, t1.send + t2.send),
                       Then(s, SendStep(s.next.(stash := t2.stash, more := t2.more), j, t2.send)))
  {
    SendTwice(m.(stash := t2.stash, more := t2.more), i, j, t1.send, t2.send);
  }

  /** A fragment of an unfinished message makes no difference once the connection is shut. */
  lemma BadAfter(m: Recv, i: nat, x: seq<byte>)
    requires m.Open? && m.frame.Some? && i < m.frame.value.payloadLen && !m.info.last
    ensures SameUse(Fail(1007), Then(SendStep(m, i, x), Fail(1007)))
  {
    var s := SendStep(m, i, x);
    forall a ensures DeliverAll(a, Fail(1007).events) == DeliverAll(a, s.events + Fail(1007).events) {
      DeliverConcat(a, s.events, Fail(1007).events);
      DeliverAtMostOne(a, Fail(1007).events);
      DeliverAtMostOne(a, s.events);
      DeliverAtMostOne(DeliverAll(a, s.events), Fail(1007).events);
    }
  }

  /** A pass whose payload the cut breaks, seen as two passes. */
  lemma PieceCut(m: Recv, p: seq<byte>, b: seq<byte>)
    requires WfAtPayload(m) && Straddles(m, p) && b != [] && PieceHarmless(m, p, b)
    ensures var s := PayloadStep(m, p);
            if s.next.Closed? then Same(PayloadStep(m, p + b), s)
            else && WfAtPayload(s.next) && s.used == |p|
                 && SameUse(PayloadStep(m, p + b), Then(s, PayloadStep(s.next, b)))
  {
    hide ControlStep, DataStep, CutIsHarmless, PieceHarmless;
    if m.frame.value.isControl {
      ControlCutUse(m, p, b);
      ControlCut(m, p, b);
    } else if m.stream == TextStream {
      TextCut(m, p, b);
      DataKeepsKind(m, p);
    } else {
      BinaryCut(m, p, b);
      DataKeepsKind(m, p);
    }
  }

  lemma ControlCutUse(m: Recv, p: seq<byte>, b: seq<byte>)
    requires WfAtPayload(m) && m.frame.value.isControl && Straddles(m, p)
    ensures ControlStep(m, p).used == |p|
  {}

  lemma DataKeepsKind(m: Recv, p: seq<byte>)
    requires WfAtPayload(m) && !m.frame.value.isControl && Straddles(m, p)
    ensures var s := DataStep(m, p); s.next.Open? ==> s.next.frame.Some? && !s.next.frame.value.isControl
  {
    hide TextStep;
    StashOkFits(m);
  }

  // ----- One pass, cut inside a header -----

  /** Part of the octets asked for: they are kept and the rest is still asked for. */
  lemma HeaderShort(r: Recv, a: seq<byte>)
    requires Wf(r) && r.Open? && r.frame.None? && a != [] && |a| < Wanted(r)
    ensures var next := r.(header := r.header + a, needed := Wanted(r) - |a|);
            HeaderStep(r, a) == Step(next, |a|, []) && Wf(next)
  {
    assert a[..|a|] == a;
    DecodeDeficit(r.header, a);
    hide Decode, FrameValidate, AcceptFrame;
  }

  /** The header step depends only on the octets collected and the number still wanted. */
  function Judge(r: Recv, header: seq<byte>, wanted: nat, used: nat): Step
    requires r.Open?
  {
    match Decode(header)
    case Bad(_) => Fail(1002)
    case Need(k) => Step(r.(header := header, needed := k), used, [])
    case Got(f, _) =>
      if FrameValidate(f, ServerToClient) != 0 then Fail(1002)
      else AcceptFrame(r.(header := [], needed := wanted), f, used)
  }

  lemma HeaderStepIs(r: Recv, b: seq<byte>)
    requires r.Open? && r.frame.None?
    ensures var min := Min(Wanted(r), |b|);
            HeaderStep(r, b) == Judge(r, r.header + b[..min], Wanted(r) - min, min)
  {
    hide Decode, FrameValidate, AcceptFrame;
  }

  lemma JudgeSame(r: Recv, header: seq<byte>, x: seq<byte>, n: nat, wanted: nat, i: nat, j: nat)
    requires r.Open?
    ensures var w, v := Judge(r, header, wanted, i), Judge(r.(header := x, needed := n), header, wanted, j);
            w.next == v.next && w.events == v.events && (w.next.Open? ==> w.used == i && v.used == j)
  {
    hide Decode, FrameValidate, AcceptFrame;
    var d := Decode(header);
    if d.Got? { AcceptUse(r.(header := [], needed := wanted), d.frame, i, j); }
  }

  lemma TakeAcross(h: seq<byte>, a: seq<byte>, b: seq<byte>, n: nat)
    requires |a| <= n <= |a + b|
    ensures h + (a + b)[..n] == h + a + b[..n - |a|]
  {}

  lemma HeaderCut(r: Recv, a: seq<byte>, b: seq<byte>)
    requires Wf(r) && r.Open? && r.frame.None? && a != [] && |a| < Wanted(r)
    ensures var s := HeaderStep(r, a);
            && s.next.Open? && s.next.frame.None? && s.used == |a| && s.events == [] && Wf(s.next)
            && var w, v := HeaderStep(r, a + b), HeaderStep(s.next, b);
               w.next == v.next && w.events == v.events && (w.next.Open? ==> w.used == |a| + v.used)
  {
    HeaderShort(r, a);
    var next := r.(header := r.header + a, needed := Wanted(r) - |a|);
    HeaderResumes(r, a, b, next);
    hide HeaderStep, Wf;
  }

  lemma HeaderResumes(r: Recv, a: seq<byte>, b: seq<byte>, next: Recv)
    requires r.Open? && r.frame.None? && |a| < Wanted(r)
    requires next == r.(header := r.header + a, needed := Wanted(r) - |a|)
    ensures var w, v := HeaderStep(r, a + b), HeaderStep(next, b);
            w.next == v.next && w.events == v.events && (w.next.Open? ==> w.used == |a| + v.used)
  {
    hide HeaderStep, Wf, Judge;
    var min := Min(Wanted(r), |a + b|);
    HeaderStepIs(r, a + b);
    HeaderStepIs(next, b);
    TakeAcross(r.header, a, b, min);
    JudgeSame(r, r.header + (a + b)[..min], next.header, next.needed, Wanted(r) - min, min, min - |a|);
  }

  lemma AcceptUse(r: Recv, f: Frame, i: nat, j: nat)
    requires r.Open?
    ensures var s, t := AcceptFrame(r, f, i), AcceptFrame(r, f, j);
            s.next == t.next && s.events == t.events && (s.next.Open? ==> s.used == i && t.used == j)
  {}

  lemma {:induction false} HeaderCutPass(r: Recv, a: seq<byte>, b: seq<byte>)
    requires Wf(r) && r.Open? && r.frame.None? && a != [] && |a| < Wanted(r) && b != []
    ensures var s := ReceiveSpec.ProcessFrame(r, a);
            && s.next.Open? && s.used == |a| && s.events == [] && Wf(s.next)
            && SameUse(ReceiveSpec.ProcessFrame(r, a + b), Then(s, ReceiveSpec.ProcessFrame(s.next, b)))
  {
    hide HeaderStep, PayloadStep, WfAtPayload, ReadyForPayload;
    HeaderCut(r, a, b);
    ProcessFrameUnfold(r, a);
    var s := HeaderStep(r, a);
    ProcessFrameUnfold(r, a + b);
    ProcessFrameUnfold(s.next, b);
    var w, v := HeaderStep(r, a + b), HeaderStep(s.next, b);
    if w.next.Open? {
      assert (a + b)[w.used..] == b[v.used..];
    }
    hide Wf, ProcessFrame;
    assert forall es: seq<Event> :: [] + es == es;
  }

  // ----- A pass that ends before the cut -----

  lemma HeaderBeforeCut(r: Recv, a: seq<byte>, b: seq<byte>)
    requires Wf(r) && r.Open? && a != [] && (r.frame.None? ==> Wanted(r) <= |a|)
    ensures AtPayload(r, a + b) == AtPayload(r, a)
  {
    if r.frame.None? {
      assert (a + b)[..Wanted(r)] == a[..Wanted(r)];
    }
  }

  lemma PayloadBeforeCut(m: Recv, p: seq<byte>, b: seq<byte>)
    requires WfAtPayload(m) && !Straddles(m, p)
    ensures PayloadStep(m, p + b) == PayloadStep(m, p)
  {
    StashOkFits(m);
    assert (p + b)[..Remaining(m)] == p[..Remaining(m)];
    hide TextStep, TextSend, SendStep, CloseEvents;
  }

  lemma PassBeforeCut(r: Recv, a: seq<byte>, b: seq<byte>)
    requires Wf(r) && r.Open? && a != [] && (r.frame.None? ==> Wanted(r) <= |a|)
    requires !Straddles(AtPayload(r, a).next, a[AtPayload(r, a).used..])
    ensures ReceiveSpec.ProcessFrame(r, a + b) == ReceiveSpec.ProcessFrame(r, a)
  {
    hide ProcessFrame, AtPayload, PayloadStep, WfAtPayload, ReadyForPayload, Wf;
    HeaderBeforeCut(r, a, b);
    ProcessFrameUnfold(r, a);
    ProcessFrameUnfold(r, a + b);
    var h := AtPayload(r, a);
    assert (a + b)[h.used..] == a[h.used..] + b;
    if h.next.Open? && h.next.frame.Some? { PayloadBeforeCut(h.next, a[h.used..], b); }
  }

  // ----- A pass cut inside its payload -----

  lemma PassAtPayload(m: Recv, b: seq<byte>)
    requires Wf(m) && m.Open? && m.frame.Some? && WfAtPayload(m) && b != []
    ensures ReceiveSpec.ProcessFrame(m, b) == PayloadStep(m, b)
  {
    ProcessFrameUnfold(m, b);
    hide PayloadStep;
    assert forall es: seq<Event> :: [] + es == es;
  }

  lemma PassCut(r: Recv, a: seq<byte>, b: seq<byte>)
    requires Wf(r) && r.Open? && a != [] && b != [] && (r.frame.None? ==> Wanted(r) <= |a|)
    requires var h := AtPayload(r, a);
             WfAtPayload(h.next) && Straddles(h.next, a[h.used..]) && PieceHarmless(h.next, a[h.used..], b)
    ensures var s := ReceiveSpec.ProcessFrame(r, a);
            if s.next.Closed? then Same(ReceiveSpec.ProcessFrame(r, a + b), s)
            else && s.used == |a| && Wf(s.next)
                 && SameUse(ReceiveSpec.ProcessFrame(r, a + b), Then(s, ReceiveSpec.ProcessFrame(s.next, b)))
  {
    hide ProcessFrame, AtPayload, PayloadStep, WfAtPayload, ReadyForPayload, Wf, SameUse, PieceHarmless, Straddles;
    HeaderBeforeCut(r, a, b);
    ProcessFrameUnfold(r, a);
    ProcessFrameUnfold(r, a + b);
    ProcessFrameKeepsWf(r, a);
    var h := AtPayload(r, a);
    var p := a[h.used..];
    assert (a + b)[h.used..] == p + b;
    FrameOpen(h.next);
    PieceCut(h.next, p, b);
    var s := PayloadStep(h.next, p);
    if s.next.Closed? {
      PrefixSame(h, PayloadStep(h.next, p + b), s);
    } else {
      FrameOpen(s.next);
      PassAtPayload(s.next, b);
      PrefixSameUse(h, PayloadStep(h.next, p + b), s, PayloadStep(s.next, b));
    }
  }

  lemma FrameOpen(m: Recv)
    requires WfAtPayload(m)
    ensures m.Open? && m.frame.Some? && ReadyForPayload(m)
  {}

  lemma PrefixSame(h: Step, w: Step, s: Step)
    requires Same(w, s)
    ensures Same(Then(h, w), Then(h, s))
  {
    forall a ensures DeliverAll(a, h.events + w.events) == DeliverAll(a, h.events + s.events) {
      DeliverConcat(a, h.events, w.events);
      DeliverConcat(a, h.events, s.events);
    }
  }

  lemma PrefixSameUse(h: Step, w: Step, s: Step, t: Step)
    requires SameUse(w, Then(s, t))
    ensures SameUse(Then(h, w), Then(Then(h, s), t))
  {
    PrefixSame(h, w, Then(s, t));
    assert h.events + (s.events + t.events) == h.events + s.events + t.events;
  }

  // ----- The theorem -----

  /** Receiving a and then b. */
  function InTwo(r: Recv, a: seq<byte>, b: seq<byte>): Step
    requires Wf(r)
  {
    Then(Receive(r, a), Receive(Receive(r, a).next, b))
  }

  /** A pass on a ++ b that the cut breaks, and what follows. */
  lemma AfterCutPass(r: Recv, a: seq<byte>, b: seq<byte>)
    requires Wf(r) && r.Open? && a != [] && b != []
    requires var s := ReceiveSpec.ProcessFrame(r, a);
             if s.next.Closed? then Same(ReceiveSpec.ProcessFrame(r, a + b), s)
             else && s.used == |a| && Wf(s.next)
                  && SameUse(ReceiveSpec.ProcessFrame(r, a + b), Then(s, ReceiveSpec.ProcessFrame(s.next, b)))
    ensures Same(Receive(r, a + b), InTwo(r, a, b))
  {
    hide ProcessFrame, Wf, Receive;
    var s, w := ReceiveSpec.ProcessFrame(r, a), ReceiveSpec.ProcessFrame(r, a + b);
    ReceiveUnfold(r, a);
    ReceiveUnfold(r, a + b);
    assert s.events + [] == s.events;
    if s.next.Closed? {
      ReceiveUnfold(Closed, b);
    } else {
      assert a[|a|..] == [];
      ReceiveUnfold(s.next, []);
      ReceiveUnfold(s.next, b);
      ProcessFrameKeepsWf(s.next, b);
      var v := ReceiveSpec.ProcessFrame(s.next, b);
      if v.next.Open? {
        assert (a + b)[w.used..] == b[v.used..];
        SuffixSame(w, s, v, Receive(v.next, b[v.used..]));
      }
    }
  }

  lemma SuffixSame(w: Step, s: Step, v: Step, rest: Step)
    requires Same(w, Then(s, v))
    ensures Same(Then(w, rest), Then(s, Then(v, rest)))
  {
    forall a ensures DeliverAll(a, w.events + rest.events) == DeliverAll(a, s.events + (v.events + rest.events)) {
      assert s.events + (v.events + rest.events) == s.events + v.events + rest.events;
      DeliverConcat(a, w.events, rest.events);
      DeliverConcat(a, s.events + v.events, rest.events);
    }
  }

  /** A pass that ends before the cut, and what follows. */
  lemma AfterWholePass(r: Recv, a: seq<byte>, b: seq<byte>)
    requires Wf(r) && r.Open? && a != [] && b != []
    requires ReceiveSpec.ProcessFrame(r, a + b) == ReceiveSpec.ProcessFrame(r, a)
    requires var s := ReceiveSpec.ProcessFrame(r, a);
             s.next.Open? ==> Wf(s.next) && Same(Receive(s.next, a[s.used..] + b), InTwo(s.next, a[s.used..], b))
    ensures Same(Receive(r, a + b), InTwo(r, a, b))
  {
    hide ProcessFrame, Wf, Receive;
    var s := ReceiveSpec.ProcessFrame(r, a);
    ReceiveUnfold(r, a);
    ReceiveUnfold(r, a + b);
    ProcessFrameKeepsWf(r, a);
    if s.next.Closed? {
      ReceiveUnfold(Closed, b);
      assert s.events + [] == s.events;
    } else {
      var a' := a[s.used..];
      assert (a + b)[s.used..] == a' + b;
      PrefixSame(s, Receive(s.next, a' + b), InTwo(s.next, a', b));
      var x, y := Receive(s.next, a'), Receive(Receive(s.next, a').next, b);
      assert s.events + (x.events + y.events) == s.events + x.events + y.events;
    }
  }

  /** A harmless cut changes neither the state reached nor what the user is told. */
  lemma {:induction false} CutTheorem(r: Recv, a: seq<byte>, b: seq<byte>)
    requires Wf(r) && HarmlessCut(r, a, b)
    ensures Same(Receive(r, a + b), InTwo(r, a, b))
    decreases |a|
  {
    if a == [] || b == [] || r.Closed? {
      CutAtEnd(r, a, b);
    } else {
      hide ProcessFrame, Wf, Receive, WfAtPayload, Same, PieceHarmless;
      AtPayloadOk(r, a);
      ProcessFrameKeepsWf(r, a);
      var h := AtPayload(r, a);
      if r.frame.None? && |a| < Wanted(r) {
        HeaderCutPass(r, a, b);
        AfterCutPass(r, a, b);
      } else if Straddles(h.next, a[h.used..]) {
        PassCut(r, a, b);
        AfterCutPass(r, a, b);
      } else {
        PassBeforeCut(r, a, b);
        var t := ReceiveSpec.ProcessFrame(r, a);
        if t.next.Open? { CutTheorem(t.next, a[t.used..], b); }
        AfterWholePass(r, a, b);
      }
    }
  }

  lemma CutAtEnd(r: Recv, a: seq<byte>, b: seq<byte>)
    requires Wf(r) && (a == [] || b == [] || r.Closed?)
    ensures Same(Receive(r, a + b), InTwo(r, a, b))
  {
    hide ProcessFrame, Wf, Receive, DeliverAll;
    ReceiveUnfold(r, a);
    var s := Receive(r, a + b);
    assert s.events + [] == s.events && [] + s.events == s.events;
    if r.Closed? {
      ReceiveUnfold(r, a + b);
      ReceiveUnfold(r, b);
    } else if a == [] {
      assert a + b == b;
    } else {
      assert a + b == a;
      ReceiveUnfold(s.next, b);
    }
  }

  /** Every cut of a sequence of callbacks is harmless. */
  predicate AllHarmless(r: Recv, chunks: seq<seq<byte>>)
    requires Wf(r)
  {
    chunks == [] ||
    var n := |chunks| - 1;
    AllHarmless(r, chunks[..n]) && HarmlessCut(r, Flatten(chunks[..n]), chunks[n])
  }

  /** However a byte stream is cut into callbacks, if no cut falls where it matters the state
      reached and everything the user is told are those of a single callback. */
  lemma {:induction false} ChunkingIndependence(r: Recv, chunks: seq<seq<byte>>)
    requires Wf(r) && AllHarmless(r, chunks)
    ensures Same(Receive(r, Flatten(chunks)), ReceiveAll(r, chunks))
  {
    hide DeliverAll, Receive, HarmlessCut, Same;
    if chunks == [] {
      ReceiveUnfold(r, []);
      SameIsSame(Receive(r, []));
    } else {
      var n := |chunks| - 1;
      var before, last := chunks[..n], chunks[n];
      ChunkingIndependence(r, before);
      assert chunks == before + [last];
      FlattenAppend(before, last);
      CutTheorem(r, Flatten(before), last);
      hide Wf, Flatten, AllHarmless;
      var s, t := Receive(r, Flatten(before)), ReceiveAll(r, before);
      assert s.next == t.next by { SameNext(s, t); }
      SameThen(Receive(r, Flatten(chunks)), s, t, Receive(t.next, last));
    }
  }

  lemma SameNext(s: Step, t: Step)
    requires Same(s, t)
    ensures s.next == t.next
  {
    hide DeliverAll;
  }

  lemma SameThen(w: Step, s: Step, t: Step, rest: Step)
    requires Same(s, t) && Same(w, Then(s, rest))
    ensures Same(w, Then(t, rest))
  {
    hide DeliverAll;
    forall a ensures DeliverAll(a, s.events + rest.events) == DeliverAll(a, t.events + rest.events) {
      DeliverConcat(a, s.events, rest.events);
      DeliverConcat(a, t.events, rest.events);
    }
  }
}
