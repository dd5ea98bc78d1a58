/**
 * What each call of the user answers, and the frame it queues if it succeeds.
 */
module CallCodes {
  import opened Bytes
  import opened Frames
  import opened Events
  import opened SendSpec
  import opened ClientSpec
  import opened SenderGrammar
  import opened MessageTheory

  /** The call changes nothing and answers with this code. */
  predicate Refuses(c: Conn, r: Result, code: Code) {
    r == Result(c, code, [])
  }

  /** One frame is queued at the end, and what the sender remembers changes to `last`. */
  predicate Queues(c: Conn, r: Result, f: Frame, last: Flags, mem: bool) {
    if mem then
      && r.code == OK && r.frames == [f]
      && r.conn.queue == c.queue + [NodeFor(f, c.maxPayload)] && r.conn.last == last
      && r.conn.maxPayload == c.maxPayload && r.conn.queued == c.queued && r.conn.sent == c.sent
      && r.conn.received == c.received && r.conn.closed == c.closed
    else r == Result(c.(last := last), OUT_OF_MEMORY, [])
  }

  /** cws_ping and cws_pong: after a close was asked for they are refused as such, with more than
      125 octets as too long, and otherwise they queue one unfragmented, masked frame. */
  lemma PingExactly(c: Conn, ping: bool, data: seq<byte>, d: Draw)
    requires IsObject(data)
    ensures var r := FrameSenderControl(c, if ping then CTRL_PING else CTRL_PONG, data, d);
            if c.queued then Refuses(c, r, CLOSED_CONNECTION)
            else if 125 < |data| then Refuses(c, r, APP_DATA_LENGTH_TOO_LONG)
            else Queues(c, r, Frame(true, true, true, false, if ping then 0x9 else 0xA, d.key, |data|, data), c.last, d.mem)
  {
    hide NodeFor;
  }

  /** An option that does not belong in a part of a stream: an unknown one, one that continues
      although the part is the first, a type in a later part, or the other type. */
  predicate Stray(text: bool, info: Flags) {
    info.other || if info.first then info.cont || (if text then info.binary else info.text) else info.binary || info.text
  }

  /** A part of a stream.  One that is empty and neither first nor last is not sent, and the answer
      depends on whether any data frame ever was.  Any other is refused for a stray option, when it
      is not first and no message is in progress or first and one is, and when the connection is
      closing, in this order; otherwise it queues one frame. */
  lemma PartExactly(c: Conn, text: bool, info: Flags, data: seq<byte>, d: Draw)
    requires IsObject(data)
    ensures var r := SendStream(c, text, info, data, d);
            if info == NO_FLAGS && data == [] then
              Refuses(c, r, if c.last == NO_FLAGS then STREAM_CONTINUITY_ISSUE else OK)
            else if Stray(text, info) then Refuses(c, r, INVALID_OPTIONS)
            else if info.first == InMessage(c.last) then Refuses(c, r, STREAM_CONTINUITY_ISSUE)
            else if c.Closing() then Refuses(c, r, CLOSED_CONNECTION)
            else
              var opcode := if !info.first then 0x0 else if text then 0x1 else 0x2;
              Queues(c, r, Frame(info.last, true, false, false, opcode, d.key, |data|, data), StreamOptions(text, info), d.mem)
  {
    hide NodeFor;
  }

  /** A block: refused for another type than binary or text, when the connection is closing, and
      when a stream is in progress, in this order. */
  lemma BlockExactly(c: Conn, kind: Flags, data: seq<byte>, draws: seq<Draw>)
    requires IsObject(data) && 0 < c.maxPayload
    ensures var r := DataBlockSender(c, kind, data, draws);
            if kind != CWS_BINARY && kind != CWS_TEXT then Refuses(c, r, INVALID_OPTIONS)
            else if c.Closing() then Refuses(c, r, CLOSED_CONNECTION)
            else if InMessage(c.last) then Refuses(c, r, STREAM_CONTINUITY_ISSUE)
            else r.code == OK || r.code == OUT_OF_MEMORY
  {
    var options := kind.(first := true);
    if (kind == CWS_BINARY || kind == CWS_TEXT) && !c.Closing() {
      if InMessage(c.last) { Interrupts(c, options, data, draws); } else { BlockAnswers(c, options, data, draws); }
    }
    hide BlockLoop;
  }

  lemma Interrupts(c: Conn, options: Flags, data: seq<byte>, draws: seq<Draw>)
    requires IsObject(data) && 0 < c.maxPayload && InMessage(c.last)
    requires options == CWS_BINARY.(first := true) || options == CWS_TEXT.(first := true)
    ensures Refuses(c, BlockLoop(c, options, data, draws), STREAM_CONTINUITY_ISSUE)
  {}

  lemma {:induction false} BlockAnswers(c: Conn, options: Flags, data: seq<byte>, draws: seq<Draw>)
    requires IsObject(data) && 0 < c.maxPayload && MayGo(c, options) && !options.last
    ensures BlockLoop(c, options, data, draws).code in {OK, OUT_OF_MEMORY}
    decreases |data|
  {
    hide NodeFor;
    if c.maxPayload < |data| {
      var d := NextDraw(draws);
      var one := FrameSenderData(c, options, data[..c.maxPayload], d);
      if d.mem {
        GoesOn(c, options, data[..c.maxPayload], d);
        BlockAnswers(one.conn, CWS_CONT, data[c.maxPayload..], LaterDraws(draws));
      }
    } else {
      MayGoLast(c, options);
    }
  }
}
