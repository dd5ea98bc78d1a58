/**
 * The default ping handler of src/handlers.c: every ping is answered by a pong with the same
 * octets, in order (sections 5.5.2 and 5.5.3 of RFC 6455).
 */
module PingTheory {
  import opened Bytes
  import opened Frames
  import opened Events
  import opened ReceiveSpec
  import opened SendSpec
  import opened ClientSpec
  import opened Connection

  // ----- Pings are short enough to be answered -----

  predicate ShortPings(events: seq<Event>) {
    forall i {:trigger events[i]} :: 0 <= i < |events| && events[i].Ping? ==> |events[i].data| <= CTL_PAYLOAD_MAX
  }

  lemma PayloadPings(m: Recv, buf: seq<byte>)
    requires WfAtPayload(m) && ReadyForPayload(m)
    ensures ShortPings(PayloadStep(m, buf).events)
  {
    hide TextStep;
  }

  lemma PassPings(r: Recv, buf: seq<byte>)
    requires Wf(r) && r.Open? && buf != []
    ensures ShortPings(ReceiveSpec.ProcessFrame(r, buf).events)
  {
    ProcessFrameUnfold(r, buf);
    HeaderShuts(r, buf);
    hide AtPayload, ProcessFrame, PayloadStep, Wf, WfAtPayload, ReadyForPayload, Closable;
    var h := AtPayload(r, buf);
    if h.next.Open? && h.next.frame.Some? {
      PayloadPings(h.next, buf[h.used..]);
      assert [] + PayloadStep(h.next, buf[h.used..]).events == PayloadStep(h.next, buf[h.used..]).events;
    }
  }

  lemma {:induction false} PingsAreShort(r: Recv, buf: seq<byte>)
    requires Wf(r)
    ensures ShortPings(Receive(r, buf).events)
    decreases |buf|
  {
    hide ProcessFrame, Wf;
    ReceiveUnfold(r, buf);
    if buf != [] && r.Open? {
      var s := ReceiveSpec.ProcessFrame(r, buf);
      PassPings(r, buf);
      if s.used != 0 && s.next.Open? {
        PingsAreShort(s.next, buf[s.used..]);
        hide Receive;
        ShortConcat(s.events, Receive(s.next, buf[s.used..]).events);
      }
    }
  }

  lemma ShortConcat(es: seq<Event>, fs: seq<Event>)
    requires ShortPings(es) && ShortPings(fs)
    ensures ShortPings(es + fs)
  {
    forall i | 0 <= i < |es + fs| && (es + fs)[i].Ping? ensures |(es + fs)[i].data| <= CTL_PAYLOAD_MAX {
      if i < |es| { assert (es + fs)[i] == es[i]; } else { assert (es + fs)[i] == fs[i - |es|]; }
    }
  }

  // ----- The answers -----

  /** _default_on_ping, for each event; the other callbacks call nothing. */
  function Answers(events: seq<Event>, keys: nat -> Key): (a: seq<seq<Api>>)
    ensures |a| == |events|
  {
    seq(|events|, i requires 0 <= i < |events| => Answer(events[i], keys(i)))
  }

  function Answer(e: Event, key: Key): seq<Api> {
    if e.Ping? then [SendPong(e.data, Draw(key, true))] else []
  }

  /** The octets of the pings among the events. */
  function PingsIn(events: seq<Event>): seq<seq<byte>> {
    if events == [] then []
    else
      var n := |events| - 1;
      PingsIn(events[..n]) + if events[n].Ping? then [events[n].data] else []
  }

  predicate ArePongs(frames: seq<Frame>, payloads: seq<seq<byte>>) {
    |frames| == |payloads| &&
    forall i {:trigger frames[i]} :: 0 <= i < |frames| ==> frames[i].opcode == PONG && frames[i].payload == payloads[i]
  }

  predicate NoShut(events: seq<Event>) {
    forall i {:trigger events[i]} :: 0 <= i < |events| ==> !events[i].Shut?
  }

  lemma AnswersOk(events: seq<Event>, keys: nat -> Key)
    requires ShortPings(events)
    ensures ReactionsOk(Answers(events, keys))
  {
    var answers := Answers(events, keys);
    forall i | 0 <= i < |answers| ensures ApisOk(answers[i]) {
      assert answers[i] == Answer(events[i], keys(i));
      assert events[i].Ping? ==> |events[i].data| <= CTL_PAYLOAD_MAX;
      AnswerOk(events[i], keys(i));
    }
  }

  lemma AnswerOk(e: Event, key: Key)
    requires e.Ping? ==> |e.data| <= CTL_PAYLOAD_MAX
    ensures ApisOk(Answer(e, key))
  {}

  lemma OnePong(c: Conn, data: seq<byte>, key: Key)
    requires !c.queued && |data| <= CTL_PAYLOAD_MAX
    ensures var r := FrameSenderControl(c, CTRL_PONG, data, Draw(key, true));
            && !r.conn.queued && r.conn.maxPayload == c.maxPayload
            && |r.frames| == 1 && r.frames[0].opcode == PONG && r.frames[0].payload == data
  {
    hide NodeFor, Enqueued;
  }

  lemma AnswerIs(c: Conn, e: Event, key: Key)
    requires 0 < c.maxPayload && !c.queued && ApisOk(Answer(e, key)) && (e.Ping? ==> |e.data| <= CTL_PAYLOAD_MAX)
    ensures var r := DoAll(c, Answer(e, key)); !r.conn.queued && ArePongs(r.frames, if e.Ping? then [e.data] else [])
  {
    if e.Ping? {
      hide DoAll;
      CallPong(c, e.data, key);
    } else {
      assert DoAll(c, []) == Result(c, OK, []);
    }
  }

  lemma CallPong(c: Conn, data: seq<byte>, key: Key)
    requires 0 < c.maxPayload && !c.queued && |data| <= CTL_PAYLOAD_MAX
    ensures var apis := [SendPong(data, Draw(key, true))];
            && ApisOk(apis)
            && var r := DoAll(c, apis); !r.conn.queued && ArePongs(r.frames, [data])
  {
    OnePong(c, data, key);
    DoOne(c, SendPong(data, Draw(key, true)));
    hide FrameSenderControl, DoAll;
  }

  lemma PongsConcat(fs: seq<Frame>, ps: seq<seq<byte>>, gs: seq<Frame>, qs: seq<seq<byte>>)
    requires ArePongs(fs, ps) && ArePongs(gs, qs)
    ensures ArePongs(fs + gs, ps + qs)
  {}

  lemma {:induction false} AnswersAre(c: Conn, events: seq<Event>, k: nat, keys: nat -> Key, d: Draw)
    requires 0 < c.maxPayload && !c.queued && k <= |events| && ShortPings(events) && NoShut(events[..k])
    requires ReactionsOk(Answers(events, keys))
    ensures var r := React(c, events[..k], Answers(events, keys), d);
            !r.conn.queued && ArePongs(r.frames, PingsIn(events[..k]))
    decreases k
  {
    if k > 0 {
      var n := k - 1;
      assert events[..k][..n] == events[..n];
      assert NoShut(events[..n]) && !events[..k][n].Shut?;
      var answers := Answers(events, keys);
      assert answers[n] == Answer(events[n], keys(n)) && ApisOk(answers[n]);
      assert events[n].Ping? ==> |events[n].data| <= CTL_PAYLOAD_MAX;
      hide ArePongs, NoShut, ShortPings, ReactionsOk, Answers, Answer, ApisOk, DoAll;
      AnswersAre(c, events, n, keys, d);
      var before := React(c, events[..n], answers, d);
      AnswerIs(before.conn, events[n], keys(n));
      PongsConcat(before.frames, PingsIn(events[..n]), DoAll(before.conn, answers[n]).frames,
                  if events[n].Ping? then [events[n].data] else []);
    }
  }

  /** How many events there are before the shutdown, if any. */
  function BeforeShut(events: seq<Event>): (k: nat)
    ensures k <= |events|
  {
    if events != [] && events[|events| - 1].Shut? then |events| - 1 else |events|
  }

  /** If no close has been asked for, the pings among the octets received are answered, in their
      order; a close or a fault among the octets comes after the answers, and nothing else is
      queued. */
  lemma PingsAreAnswered(w: World, octets: seq<byte>, keys: nat -> Key, d: Draw)
    requires Inv(w) && !w.conn.queued && Wf(w.recv)
    ensures 0 < w.conn.maxPayload && QueueOk(w.conn.queue)
    ensures var events := Receive(w.recv, octets).events;
            var answers, k := Answers(events, keys), BeforeShut(events);
            && ReactionsOk(answers)
            && var r := React(w.conn, events[..k], answers, d);
            && ArePongs(r.frames, PingsIn(events))
            && Act(w, CurlGives(octets, answers, d)).frames ==
               w.frames + (r.frames + if k < |events| then AnswerShut(r.conn, events[k], d).frames else [])
  {
    InvReady(w);
    PingsAreShort(w.recv, octets);
    var events := Receive(w.recv, octets).events;
    AnswersOk(events, keys);
    ReceiveShuts(w.recv, octets);
    ShutIsLast(w.recv, Receive(w.recv, octets));
    hide Receive, Inv, Wf, ArePongs, Answers, ShortPings, NoShut, ReactionsOk, ShutsOnce;
    AnswersAre(w.conn, events, BeforeShut(events), keys, d);
    ReactSplits(w.conn, events, Answers(events, keys), d);
    hide React, PingsIn;
  }

  lemma ShutIsLast(r: Recv, s: ReceiveSpec.Step)
    requires ShutsOnce(r, s)
    ensures NoShut(s.events[..BeforeShut(s.events)]) && PingsIn(s.events[..BeforeShut(s.events)]) == PingsIn(s.events)
    ensures BeforeShut(s.events) < |s.events| ==> s.events[BeforeShut(s.events)].Shut?
  {
    hide Closable;
    var k := BeforeShut(s.events);
    if k < |s.events| {
      assert s.events[..|s.events| - 1] == s.events[..k];
    } else {
      assert s.events[..k] == s.events;
    }
  }

  lemma ReactSplits(c: Conn, events: seq<Event>, reactions: seq<seq<Api>>, d: Draw)
    requires 0 < c.maxPayload && ReactionsOk(reactions)
    ensures var k := BeforeShut(events);
            var r := React(c, events[..k], reactions, d);
            React(c, events, reactions, d).frames ==
            r.frames + if k < |events| then AnswerShut(r.conn, events[k], d).frames else []
  {
    hide AnswerShut, DoAll;
    if BeforeShut(events) == |events| { assert events[..|events|] == events; }
  }
}
