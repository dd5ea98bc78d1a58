/**
 * Safety of the receiver over all runs: whatever octets a server sends, in whatever pieces,
 * the fragments reported follow the fragmentation grammar of section 5.4 of RFC 6455 and
 * text is only ever reported as whole UTF-8 characters (section 8.1).
 */
module ReceiveSafety {
  import opened Bytes
  import opened Utf8
  import opened TextTheory
  import opened Frames
  import opened Events
  import opened ReceiveSpec
  import opened Handlers

  /** The type of the message of which a fragment has been reported and more must follow. */
  function InProgress(r: Recv): Stream {
    if r.Closed? || r.info.first then NoStream else r.stream
  }

  /** The events keep to the grammar and lead it to where the receive state is. */
  ghost predicate Keeps(r: Recv, s: Step) {
    AllAllowed(InProgress(r), s.events) && AfterAll(InProgress(r), s.events) == InProgress(s.next)
  }

  lemma CloseEventsAllowed(k: Stream, payload: seq<byte>)
    ensures AllAllowed(k, CloseEvents(payload)) && AfterAll(k, CloseEvents(payload)) == NoStream
  {
    var es := CloseEvents(payload);
    if |es| == 2 {
      assert es == [es[0]] + [es[1]];
      AllowedConcat(k, [es[0]], [es[1]]);
      AllowedOne(k, es[0]);
      AllowedOne(k, es[1]);
    } else {
      AllowedOne(k, es[0]);
    }
  }

  lemma ControlKeeps(r: Recv, buf: seq<byte>)
    requires WfAtPayload(r) && r.frame.value.isControl
    ensures Keeps(r, ControlStep(r, buf))
  {
    var s := ControlStep(r, buf);
    var min := Min(r.frame.value.payloadLen - |r.control|, |buf|);
    CloseEventsAllowed(InProgress(r), r.control + buf[..min]);
    if |s.events| == 1 { AllowedOne(InProgress(r), s.events[0]); }
  }

  lemma SendKeeps(r: Recv, min: nat, send: seq<byte>)
    requires WfAtPayload(r) && !r.frame.value.isControl && min <= r.frame.value.payloadLen
    requires r.stream == TextStream ==> IsText(send)
    ensures Keeps(r, SendStep(r, min, send))
  {
    hide IsText;
    var s := SendStep(r, min, send);
    if |s.events| == 1 { AllowedOne(InProgress(r), s.events[0]); }
  }

  lemma DataKeeps(r: Recv, buf: seq<byte>)
    requires WfAtPayload(r) && !r.frame.value.isControl
    ensures Keeps(r, DataStep(r, buf))
  {
    hide TextStep, IsText, SendStep;
    StashOkFits(r);
    var f := r.frame.value;
    var min := Min(f.payloadLen, |buf|);
    AllowedOne(InProgress(r), Shut(1007, ""));
    if r.stream == TextStream {
      var final := f.fin && f.payloadLen <= min;
      SentIsText(r.stash, r.more, final, buf[..min]);
      TextStepOk(r.stash, r.more, final, buf[..min]);
      var t := TextStep(r.stash, r.more, final, buf[..min]);
      if t.TextOk? { SendKeeps(r.(stash := t.stash, more := t.more), min, t.send); }
    } else {
      SendKeeps(r, min, buf[..min]);
    }
  }

  lemma HeaderKeeps(r: Recv, buf: seq<byte>)
    requires Wf(r) && r.Open? && buf != []
    ensures Keeps(r, AtPayload(r, buf))
  {
    if r.frame.None? { HeaderStepOk(r, buf); }
    AllowedOne(InProgress(r), Shut(1002, ""));
    hide Decode, FrameValidate;
  }

  lemma ThenKeeps(r: Recv, s: Step, t: Step)
    requires Keeps(r, s) && Keeps(s.next, t)
    ensures Keeps(r, Then(s, t))
  {
    AllowedConcat(InProgress(r), s.events, t.events);
  }

  lemma FrameKeeps(r: Recv, buf: seq<byte>)
    requires Wf(r) && r.Open? && buf != []
    ensures Keeps(r, ReceiveSpec.ProcessFrame(r, buf))
  {
    hide DataStep, ControlStep, AtPayload, Wf, Keeps;
    ProcessFrameUnfold(r, buf);
    HeaderKeeps(r, buf);
    var h := AtPayload(r, buf);
    if h.next.Open? && h.next.frame.Some? {
      var rest := buf[h.used..];
      if h.next.frame.value.isControl { ControlKeeps(h.next, rest); } else { DataKeeps(h.next, rest); }
      ThenKeeps(r, h, PayloadStep(h.next, rest));
    }
  }

  lemma {:induction false} ReceiveKeeps(r: Recv, buf: seq<byte>)
    requires Wf(r)
    ensures Keeps(r, Receive(r, buf))
    decreases |buf|
  {
    hide Wf, ProcessFrame;
    ReceiveUnfold(r, buf);
    if buf != [] && r.Open? {
      var s := ReceiveSpec.ProcessFrame(r, buf);
      FrameKeeps(r, buf);
      if s.used != 0 && s.next.Open? {
        ReceiveKeeps(s.next, buf[s.used..]);
        ThenKeeps(r, s, Receive(s.next, buf[s.used..]));
      }
    }
  }

  lemma {:induction false} ReceiveAllKeeps(r: Recv, chunks: seq<seq<byte>>)
    requires Wf(r)
    ensures Keeps(r, ReceiveAll(r, chunks))
  {
    if chunks != [] {
      var n := |chunks| - 1;
      var before := ReceiveAll(r, chunks[..n]);
      ReceiveAllKeeps(r, chunks[..n]);
      ReceiveKeeps(before.next, chunks[n]);
      ThenKeeps(r, before, Receive(before.next, chunks[n]));
    }
  }

  /** Over every run: the fragments follow the grammar, text fragments and text messages are
      whole valid UTF-8, and between calls a message is in progress exactly when the flags
      say CONT. */
  lemma EveryRunIsSafe(chunks: seq<seq<byte>>)
    ensures var s := ReceiveAll(INITIAL, chunks);
            && AllAllowed(NoStream, s.events)
            && (forall i :: 0 <= i < |DeliverAll(NOTHING, s.events).out| ==>
                 var o := DeliverAll(NOTHING, s.events).out[i];
                 o.Message? && !o.binary ==> IsText(o.data))
            && (s.next.Open? ==>
                 && (DeliverAll(NOTHING, s.events).open.Some? <==> s.next.info == CWS_CONT)
                 && (s.next.stream == NoStream <==> s.next.info == NO_FLAGS)
                 && StashOk(s.next))
  {
    var s := ReceiveAll(INITIAL, chunks);
    ReceiveAllKeeps(INITIAL, chunks);
    TextMessagesAreText(NoStream, NOTHING, s.events);
  }

  /** A receive callback takes all its octets or closes the connection: the loop's exit
      without progress is never taken while the connection is open. */
  lemma {:induction false} NothingIsSkipped(r: Recv, buf: seq<byte>)
    requires Wf(r)
    ensures var s := Receive(r, buf); s.next.Open? ==> s.used == |buf|
    decreases |buf|
  {
    hide Wf, ProcessFrame;
    ReceiveUnfold(r, buf);
    if buf != [] && r.Open? {
      var s := ReceiveSpec.ProcessFrame(r, buf);
      ProcessFrameKeepsWf(r, buf);
      if s.used != 0 && s.next.Open? { NothingIsSkipped(s.next, buf[s.used..]); }
    }
  }

  predicate Silent(s: Step) {
    s.next.Closed? && s.used == 0 && |s.events| == 0
  }

  lemma SilentStep(s: Step, t: Step)
    requires Silent(s) && Silent(t)
    ensures Silent(Then(s, t))
  {}

  lemma SilentIs(s: Step)
    ensures Silent(s) <==> s == Step(Closed, 0, [])
  {}

  lemma {:induction false} ClosedIsSilent(chunks: seq<seq<byte>>)
    ensures ReceiveAll(Closed, chunks) == Step(Closed, 0, [])
  {
    hide Receive, ProcessFrame, Silent, Then;
    SilentIs(ReceiveAll(Closed, chunks));
    if chunks == [] {
      SilentIs(Step(Closed, 0, []));
    } else {
      var n := |chunks| - 1;
      ClosedIsSilent(chunks[..n]);
      ReceiveUnfold(Closed, chunks[n]);
      SilentIs(ReceiveAll(Closed, chunks[..n]));
      SilentIs(Receive(Closed, chunks[n]));
      SilentStep(ReceiveAll(Closed, chunks[..n]), Receive(Closed, chunks[n]));
    }
  }
}
