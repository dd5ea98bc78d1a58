/**
 * Section 8.1 of RFC 6455 at the earliest moment: fed the payload of a text frame octet by
 * octet, the receiver keeps the connection open exactly as long as the text can be completed.
 */
module FailFast {
  import opened Bytes
  import opened Utf8
  import opened TextTheory
  import opened Events
  import opened ReceiveSpec
  import opened ChunkTheory

  /** Between calls, inside the payload of a text frame. */
  predicate InText(m: Recv) {
    Wf(m) && m.Open? && m.frame.Some? && !m.frame.value.isControl && m.stream == TextStream
  }

  function OctetByOctet(p: seq<byte>): (chunks: seq<seq<byte>>)
    ensures |chunks| == |p|
  {
    seq(|p|, i requires 0 <= i < |p| => [p[i]])
  }

  /** All octets handed on in fragments. */
  function HandedOn(events: seq<Event>): seq<byte> {
    if events == [] then []
    else
      var n := |events| - 1;
      HandedOn(events[..n]) + if events[n].Fragment? then events[n].data else []
  }

  lemma {:induction false} HandedOnConcat(es: seq<Event>, fs: seq<Event>)
    ensures HandedOn(es + fs) == HandedOn(es) + HandedOn(fs)
  {
    if fs == [] {
      assert es + fs == es;
    } else {
      var n := |fs| - 1;
      assert (es + fs)[..|es + fs| - 1] == es + fs[..n];
      HandedOnConcat(es, fs[..n]);
    }
  }

  lemma HandedOnOne(info: Flags, x: seq<byte>)
    ensures HandedOn(FragmentEvents(info, x)) == x
  {
    var e := Fragment(info, x);
    assert |[e][..0]| == 0;
    assert HandedOn([e]) == x by { assert [e][..0] == []; }
  }

  /** A call with one octet that is not the last of its frame. */
  lemma OneOctet(m: Recv, b: byte)
    requires InText(m) && 1 < m.frame.value.payloadLen
    ensures |m.stash| + m.more <= 4
    ensures var s, t := Receive(m, [b]), TextStep(m.stash, m.more, false, [b]);
            && Wf(s.next)
            && match t
               case TextBad => s.next.Closed?
               case TextOk(stash, more, send) =>
                 && InText(s.next) && s.next.stash == stash && s.next.more == more
                 && s.next.frame.value.payloadLen == m.frame.value.payloadLen - 1
                 && HandedOn(s.events) == send
  {
    var buf, f := [b], m.frame.value;
    StashOkFits(m);
    ReceiveUnfold(m, buf);
    OneOctetStep(m, b);
    var s := ReceiveSpec.ProcessFrame(m, buf);
    hide ProcessFrame, Receive, TextStep, InText, Wf;
    if s.next.Open? {
      assert buf[1..] == [];
      ReceiveUnfold(s.next, []);
      assert s.events + [] == s.events;
    }
  }

  lemma OneOctetStep(m: Recv, b: byte)
    requires InText(m) && 1 < m.frame.value.payloadLen && StashFits(m)
    ensures var s, t := ReceiveSpec.ProcessFrame(m, [b]), TextStep(m.stash, m.more, false, [b]);
            && Wf(s.next)
            && match t
               case TextBad => s.next.Closed?
               case TextOk(stash, more, send) =>
                 && s.used == 1 && InText(s.next) && s.next.stash == stash && s.next.more == more
                 && s.next.frame.value.payloadLen == m.frame.value.payloadLen - 1
                 && HandedOn(s.events) == send
  {
    ProcessFrameKeepsWf(m, [b]);
    ProcessFrameUnfold(m, [b]);
    var t := TextStep(m.stash, m.more, false, [b]);
    assert [b][..1] == [b] && [b][0..] == [b];
    var p := PayloadStep(m, [b]);
    assert [] + p.events == p.events;
    hide TextStep, HandedOn, ProcessFrame;
    if t.TextOk? {
      SendOnce(m.(stash := t.stash, more := t.more), 1, t.send);
      HandedOnOne(m.info, t.send);
    }
  }

  lemma {:induction false} ReceivesBytewise(m: Recv, p: seq<byte>)
    requires InText(m) && m.more == 0 && |p| < m.frame.value.payloadLen
    ensures var s, t := ReceiveAll(m, OctetByOctet(p)), Bytewise(p);
            match t
            case TextBad => s.next.Closed?
            case TextOk(stash, more, send) =>
              && InText(s.next) && s.next.stash == stash && s.next.more == more
              && s.next.frame.value.payloadLen == m.frame.value.payloadLen - |p|
              && HandedOn(s.events) == send
  {
    if p != [] {
      var n := |p| - 1;
      var chunks := OctetByOctet(p);
      assert chunks[..n] == OctetByOctet(p[..n]) && chunks[n] == [p[n]] == p[n..];
      ReceivesBytewise(m, p[..n]);
      var before := ReceiveAll(m, chunks[..n]);
      var last := Receive(before.next, chunks[n]);
      assert ReceiveAll(m, chunks) == Then(before, last);
      hide ReceiveAll, Receive, HandedOn, TextStep, OctetByOctet;
      if Bytewise(p[..n]).TextBad? {
        ReceiveUnfold(before.next, chunks[n]);
      } else {
        OneOctet(before.next, p[n]);
        hide InText, Wf;
        HandedOnConcat(before.events, last.events);
      }
    }
  }

  /** The connection is open if and only if the octets seen are a prefix of some text, and then
      they have all been handed on but for those of the pending character. */
  lemma OpenWhileViable(m: Recv, p: seq<byte>)
    requires InText(m) && m.more == 0 && |p| < m.frame.value.payloadLen
    ensures var s := ReceiveAll(m, OctetByOctet(p));
            && (s.next.Open? <==> Viable(p))
            && (s.next.Open? ==> HandedOn(s.events) + s.next.stash == p && IsText(HandedOn(s.events)))
  {
    ReceivesBytewise(m, p);
    BytewiseIsViable(p);
    hide ReceiveAll, Bytewise, Viable, IsText, OctetByOctet, Wf;
  }
}
