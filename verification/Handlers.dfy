/**
 * src/handlers.c: the default on_fragment handler, which puts messages together again, and
 * a reference definition of what the user is told.
 */
module Handlers {
  import opened Bytes
  import opened Events
  import opened Utf8
  import opened Utf8Theory
  import opened ReceiveSpec

  /** What the user's callbacks are given. */
  datatype Output =
    | Message(binary: bool, data: seq<byte>)
    | GotPing(data: seq<byte>)
    | GotPong(data: seq<byte>)
    | GotClose(status: nat, reason: seq<byte>)
    | ShutDown(code: nat, why: string)

  datatype Partial = Partial(binary: bool, data: seq<byte>)

  /** The message being put together, and all that has been reported. */
  datatype App = App(open: Option<Partial>, out: seq<Output>)

  const NOTHING := App(None, [])

  /** The reference: a message starts with FIRST, which fixes its type, and is complete with
      LAST.  Once the connection is shut an unfinished message never will be complete. */
  function Deliver(a: App, e: Event): App {
    match e
    case Ping(data) => a.(out := a.out + [GotPing(data)])
    case Pong(data) => a.(out := a.out + [GotPong(data)])
    case Closing(status, reason) => a.(out := a.out + [GotClose(status, reason)])
    case Shut(code, why) => App(None, a.out + [ShutDown(code, why)])
    case Fragment(info, data) =>
      var now := if info.first then Some(Partial(info.binary, data)) else Extended(a.open, data);
      if now.Some? && info.last then App(None, a.out + [Message(now.value.binary, now.value.data)])
      else App(now, a.out)
  }

  function Extended(open: Option<Partial>, data: seq<byte>): Option<Partial> {
    match open
    case None => None
    case Some(p) => Some(p.(data := p.data + data))
  }

  function DeliverAll(a: App, es: seq<Event>): App {
    if es == [] then a else Deliver(DeliverAll(a, es[..|es| - 1]), es[|es| - 1])
  }

  lemma {:induction false} DeliverConcat(a: App, es: seq<Event>, fs: seq<Event>)
    ensures DeliverAll(a, es + fs) == DeliverAll(DeliverAll(a, es), fs)
  {
    if fs == [] {
      assert es + fs == es;
    } else {
      var n := |fs| - 1;
      assert (es + fs)[..|es + fs| - 1] == es + fs[..n];
      DeliverConcat(a, es, fs[..n]);
    }
  }

  lemma DeliverOne(a: App, e: Event)
    ensures DeliverAll(a, [e]) == Deliver(a, e)
  {
    assert [e][..0] == [];
  }

  // ----- Which events the receiver may report (section 5.4 of RFC 6455) -----

  /** `k` is the type of the message in progress, if any. */
  predicate AllowedInfo(k: Stream, info: Flags) {
    if k == NoStream then
      info.(last := false) == CWS_TEXT.(first := true) || info.(last := false) == CWS_BINARY.(first := true)
    else info.(last := false) == CWS_CONT
  }

  function TypeOf(k: Stream, info: Flags): Stream {
    if k != NoStream then k else if info.text then TextStream else BinaryStream
  }

  /** The fragment's flags fit the grammar, and a text fragment holds whole characters. */
  ghost predicate Allowed(k: Stream, e: Event) {
    e.Fragment? ==>
      AllowedInfo(k, e.info) && (TypeOf(k, e.info) == TextStream ==> IsText(e.data))
  }

  function After(k: Stream, e: Event): Stream {
    if e.Shut? then NoStream
    else if !e.Fragment? then k
    else if e.info.last then NoStream
    else TypeOf(k, e.info)
  }

  ghost predicate AllAllowed(k: Stream, es: seq<Event>) {
    es == [] || (AllAllowed(k, es[..|es| - 1]) && Allowed(AfterAll(k, es[..|es| - 1]), es[|es| - 1]))
  }

  function AfterAll(k: Stream, es: seq<Event>): Stream {
    if es == [] then k else After(AfterAll(k, es[..|es| - 1]), es[|es| - 1])
  }

  lemma {:induction false} AllowedConcat(k: Stream, es: seq<Event>, fs: seq<Event>)
    ensures AfterAll(k, es + fs) == AfterAll(AfterAll(k, es), fs)
    ensures AllAllowed(k, es + fs) <==> AllAllowed(k, es) && AllAllowed(AfterAll(k, es), fs)
  {
    if fs == [] {
      assert es + fs == es;
    } else {
      var n := |fs| - 1;
      assert (es + fs)[..|es + fs| - 1] == es + fs[..n];
      AllowedConcat(k, es, fs[..n]);
    }
  }

  lemma AllowedOne(k: Stream, e: Event)
    ensures AllAllowed(k, [e]) <==> Allowed(k, e)
    ensures AfterAll(k, [e]) == After(k, e)
  {
    assert [e][..0] == [];
  }

  lemma {:induction false} AllowedAt(k: Stream, es: seq<Event>, i: nat)
    requires AllAllowed(k, es) && i < |es|
    ensures AllAllowed(k, es[..i]) && Allowed(AfterAll(k, es[..i]), es[i])
  {
    var n := |es| - 1;
    if i < n {
      AllowedAt(k, es[..n], i);
      assert es[..n][..i] == es[..i];
    }
  }

  /** Only the last event shuts the connection. */
  predicate ShutOnlyLast(es: seq<Event>) {
    forall i {:trigger es[i]} :: 0 <= i < |es| - 1 ==> !es[i].Shut?
  }

  /** The partial message mirrors the grammar's state. */
  ghost predicate InStep(k: Stream, a: App) {
    && (k == NoStream <==> a.open == None)
    && (a.open.Some? ==> a.open.value.binary == (k == BinaryStream))
    && (a.open.Some? && !a.open.value.binary ==> IsText(a.open.value.data))
    && forall i :: 0 <= i < |a.out| && a.out[i].Message? && !a.out[i].binary ==> IsText(a.out[i].data)
  }

  lemma DeliverKeepsInStep(k: Stream, a: App, e: Event)
    requires InStep(k, a) && Allowed(k, e)
    ensures InStep(After(k, e), Deliver(a, e))
  {
    if e.Fragment? && a.open.Some? && !a.open.value.binary {
      TextConcat(a.open.value.data, e.data);
    }
  }

  /** Whatever is reported within the grammar, every text message is whole valid UTF-8. */
  lemma {:induction false} TextMessagesAreText(k: Stream, a: App, es: seq<Event>)
    requires InStep(k, a) && AllAllowed(k, es)
    ensures InStep(AfterAll(k, es), DeliverAll(a, es))
  {
    if es != [] {
      var n := |es| - 1;
      TextMessagesAreText(k, a, es[..n]);
      DeliverKeepsInStep(AfterAll(k, es[..n]), DeliverAll(a, es[..n]), es[n]);
    }
  }

  // ----- The handler -----

  function MessagesOf(out: seq<Output>): seq<Output> {
    if out == [] then []
    else MessagesOf(out[..|out| - 1]) + if out[|out| - 1].Message? then [out[|out| - 1]] else []
  }

  lemma MessagesOfAppend(out: seq<Output>, o: Output)
    ensures MessagesOf(out + [o]) == MessagesOf(out) + if o.Message? then [o] else []
  {
    assert (out + [o])[..|out|] == out;
  }

  /** What a fragment does to the reference. */
  lemma FragmentIs(a: App, info: Flags, data: seq<byte>)
    ensures var b, now := Deliver(a, Fragment(info, data)), if info.first then Some(Partial(info.binary, data)) else Extended(a.open, data);
            && b.open == (if info.last then None else now)
            && MessagesOf(b.out) ==
               MessagesOf(a.out) + if info.last && now.Some? then [Message(now.value.binary, now.value.data)] else []
  {
    hide MessagesOf;
    var now := if info.first then Some(Partial(info.binary, data)) else Extended(a.open, data);
    if info.last && now.Some? { MessagesOfAppend(a.out, Message(now.value.binary, now.value.data)); }
    assert MessagesOf(a.out) + [] == MessagesOf(a.out);
  }

  class DefaultHandler {
    // stream_type: the type bits of the FIRST fragment
    var streamBinary: bool
    var streamText: bool
    // stream_buffer, of stream_buffer_len octets
    var streamBuffer: seq<byte>
    ghost var delivered: seq<Output>

    constructor ()
      ensures Holds(NOTHING)
    {
      streamBinary, streamText, streamBuffer, delivered := false, false, [], [];
    }

    /** The handler holds the reference's partial message and has delivered its messages. */
    ghost predicate Holds(a: App)
      reads this
    {
      && delivered == MessagesOf(a.out)
      && match a.open
         case None => streamBuffer == []
         case Some(p) => streamBinary == p.binary && streamBuffer == p.data
    }

    /** _default_on_fragment */
    method OnFragment(info: Flags, data: seq<byte>, ghost k: Stream, ghost a: App)
      requires Holds(a) && AllowedInfo(k, info) && (k == NoStream <==> a.open == None)
      modifies this
      ensures Holds(Deliver(a, Fragment(info, data)))
    {
      FragmentIs(a, info, data);
      hide Deliver, MessagesOf;
      if info.first && info.last {
        delivered := delivered + [Message(info.binary, data)];
      } else {
        if info.first {
          streamBinary, streamText := info.binary, info.text;
          streamBuffer := [];
        }
        streamBuffer := streamBuffer + data;
        if info.last {
          delivered := delivered + [Message(streamBinary, streamBuffer)];
          streamBuffer := [];
        }
      }
    }

    /** The handler behind a receiver: each fragment is given to it, in order.  What it holds of
        a message when the connection is shut is never reported. */
    method HandleAll(es: seq<Event>)
      requires Holds(NOTHING) && AllAllowed(NoStream, es) && ShutOnlyLast(es)
      modifies this
      ensures delivered == MessagesOf(DeliverAll(NOTHING, es).out)
    {
      hide Allowed, MessagesOf;
      for i := 0 to |es|
        invariant delivered == MessagesOf(DeliverAll(NOTHING, es[..i]).out)
        invariant i == 0 || !es[i - 1].Shut? ==> Holds(DeliverAll(NOTHING, es[..i]))
      {
        AllowedAt(NoStream, es, i);
        ghost var k, a := AfterAll(NoStream, es[..i]), DeliverAll(NOTHING, es[..i]);
        TextMessagesAreText(NoStream, NOTHING, es[..i]);
        assert es[..i + 1][..i] == es[..i] && DeliverAll(NOTHING, es[..i + 1]) == Deliver(a, es[i]);
        HandleOne(es[i], k, a);
      }
      assert es[..|es|] == es;
    }

    /** One event: only fragments reach the handler. */
    method HandleOne(e: Event, ghost k: Stream, ghost a: App)
      requires Holds(a) && Allowed(k, e) && (k == NoStream <==> a.open == None)
      modifies this
      ensures delivered == MessagesOf(Deliver(a, e).out) && (!e.Shut? ==> Holds(Deliver(a, e)))
    {
      if e.Fragment? {
        OnFragment(e.info, e.data, k, a);
      } else {
        NoMessage(a, e);
      }
    }
  }

  lemma NoMessage(a: App, e: Event)
    requires !e.Fragment?
    ensures MessagesOf(Deliver(a, e).out) == MessagesOf(a.out)
  {
    match e {
      case Ping(data) => MessagesOfAppend(a.out, GotPing(data));
      case Pong(data) => MessagesOfAppend(a.out, GotPong(data));
      case Closing(status, reason) => MessagesOfAppend(a.out, GotClose(status, reason));
      case Shut(code, why) => MessagesOfAppend(a.out, ShutDown(code, why));
    }
  }
}
