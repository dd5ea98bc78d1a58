/**
 * The sending side of a connection on values: src/frame_senders.c, src/data_block_sender.c,
 * the send and close calls of src/curlws.c, the read callback of src/send.c, and the part
 * of _error_close in src/receive.c that concerns the sender.
 */
module ClientSpec {
  import opened Bytes
  import opened Utf8
  import opened Frames
  import opened Events
  import opened SendSpec

  datatype Code =
    | OK | OUT_OF_MEMORY | CLOSED_CONNECTION | INVALID_CLOSE_REASON_CODE | APP_DATA_LENGTH_TOO_LONG
    | STREAM_CONTINUITY_ISSUE | INVALID_OPTIONS | INVALID_UTF8 | BAD_FUNCTION_ARGUMENT

  /** The four bits of close_state, the send bit of pause_flags, last_sent_data_frame_info, the
      queue, and how often curl_easy_pause has been called to make curl ask again. */
  datatype Conn = Conn(
    received: bool, queued: bool, sent: bool, closed: bool, sendPaused: bool, unpauses: nat,
    last: Flags, maxPayload: nat, queue: Queue)
  {
    /** READY_TO_CLOSE */
    predicate ReadyToClose() {
      sent && received && !closed
    }

    /** close_state is not 0 */
    predicate Closing() {
      received || queued || sent || closed
    }
  }

  function Opened(maxPayload: nat): Conn {
    Conn(false, false, false, false, false, 0, NO_FLAGS, maxPayload, [])
  }

  /** What a call leaves behind, what it returns, and the frames it put on the queue. */
  datatype Result = Result(conn: Conn, code: Code, frames: seq<Frame>)

  /** The random masking key of a frame, and whether there was memory for its block. */
  datatype Draw = Draw(key: Key, mem: bool)

  predicate AllMemory(draws: seq<Draw>) {
    forall i {:trigger draws[i]} :: 0 <= i < |draws| ==> draws[i].mem
  }

  /** A C object is smaller than 2^63 octets. */
  predicate IsObject(data: seq<byte>) {
    |data| < TWO_63
  }

  /** The end of send_frame and of _error_close: curl is told to go on where it waits. */
  function Unpause(c: Conn): Conn {
    if c.sendPaused then c.(sendPaused := false, unpauses := c.unpauses + 1) else c
  }

  /** send_frame, with the unpausing. */
  function SendFrame(c: Conn, f: Frame, mem: bool): Result {
    if mem then
      Result(Unpause(c.(queue := Enqueued(c.queue, NodeFor(f, c.maxPayload), f.isUrgent))), OK, [f])
    else Result(c, OUT_OF_MEMORY, [])
  }

  // ----- src/frame_senders.c -----

  /** The option bits of frame_senders.h; `other` is any bit that is not one of these. */
  datatype CtrlFlags = CtrlFlags(close: bool, ping: bool, pong: bool, urgent: bool, other: bool)

  const CTRL_CLOSE := CtrlFlags(true, false, false, false, false)
  const CTRL_PING := CtrlFlags(false, true, false, false, false)
  const CTRL_PONG := CtrlFlags(false, false, true, false, false)

  function FrameSenderControl(c: Conn, options: CtrlFlags, data: seq<byte>, d: Draw): Result
    requires IsObject(data)
  {
    if options.urgent || options.other then Result(c, INVALID_OPTIONS, [])
    else if options != CTRL_CLOSE && options != CTRL_PING && options != CTRL_PONG then
      Result(c, INVALID_OPTIONS, [])
    else if c.queued then Result(c, CLOSED_CONNECTION, [])
    else if CTL_PAYLOAD_MAX < |data| then Result(c, APP_DATA_LENGTH_TOO_LONG, [])
    else
      var opcode := if options.close then CLOSE else if options.ping then PING else PONG;
      SendFrame(c, Frame(true, true, true, false, opcode, d.key, |data|, data), d.mem)
  }

  /** The checks of frame_sender_data on its options and on what was sent before. */
  function DataOpcode(last: Flags, options: Flags): (Code, Nibble) {
    if options.other then (INVALID_OPTIONS, 0)
    else if options.cont && !options.binary && !options.text then
      if options.first then (INVALID_OPTIONS, 0)
      else if last == NO_FLAGS || last.last then (STREAM_CONTINUITY_ISSUE, 0)
      else (OK, CONTINUATION)
    else if !options.cont && options.binary != options.text then
      if !options.first then (INVALID_OPTIONS, 0)
      else if last != NO_FLAGS && !last.last then (STREAM_CONTINUITY_ISSUE, 0)
      else (OK, if options.text then TEXT else BINARY)
    else (INVALID_OPTIONS, 0)
  }

  function FrameSenderData(c: Conn, options: Flags, data: seq<byte>, d: Draw): Result
    requires IsObject(data)
  {
    var (code, opcode) := DataOpcode(c.last, options);
    if code != OK then Result(c, code, [])
    else if c.Closing() then Result(c, CLOSED_CONNECTION, [])
    else
      SendFrame(c.(last := options), Frame(options.last, true, false, false, opcode, d.key, |data|, data), d.mem)
  }

  lemma KeepsMax(c: Conn, options: Flags, data: seq<byte>, d: Draw)
    requires IsObject(data)
    ensures FrameSenderData(c, options, data, d).conn.maxPayload == c.maxPayload
  {}

  // ----- src/data_block_sender.c -----

  /** Each frame of a block takes one draw; where there is none, there is no memory. */
  function NextDraw(draws: seq<Draw>): Draw {
    if draws == [] then Draw(ZERO_KEY, false) else draws[0]
  }

  function LaterDraws(draws: seq<Draw>): seq<Draw> {
    if draws == [] then [] else draws[1..]
  }

  /** The loop of data_block_sender: `options` says how the next frame starts. */
  function BlockLoop(c: Conn, options: Flags, data: seq<byte>, draws: seq<Draw>): Result
    requires IsObject(data) && 0 < c.maxPayload
    decreases |data|
  {
    if |data| <= c.maxPayload then FrameSenderData(c, options.(last := true), data, NextDraw(draws))
    else
      var one := FrameSenderData(c, options, data[..c.maxPayload], NextDraw(draws));
      if one.code != OK then one
      else
        var rest := BlockLoop(one.conn, CWS_CONT, data[c.maxPayload..], LaterDraws(draws));
        Result(rest.conn, rest.code, one.frames + rest.frames)
  }

  function DataBlockSender(c: Conn, options: Flags, data: seq<byte>, draws: seq<Draw>): Result
    requires IsObject(data) && 0 < c.maxPayload
  {
    if options != CWS_BINARY && options != CWS_TEXT then Result(c, INVALID_OPTIONS, [])
    else if c.Closing() then Result(c, CLOSED_CONNECTION, [])
    else BlockLoop(c, options.(first := true), data, draws)
  }

  /** cws_send_blk_text, for a string that is not NULL. */
  function SendBlkText(c: Conn, s: seq<byte>, draws: seq<Draw>): Result
    requires IsObject(s) && 0 < c.maxPayload
  {
    if WholePrefix(s) != Some(|s|) then Result(c, INVALID_UTF8, [])
    else DataBlockSender(c, CWS_TEXT, s, draws)
  }

  // ----- Streams in src/curlws.c -----

  /** _send_stream, for data that is not NULL. */
  function SendStream(c: Conn, text: bool, info: Flags, data: seq<byte>, d: Draw): Result
    requires IsObject(data)
  {
    if info == NO_FLAGS && data == [] then
      Result(c, if c.last != NO_FLAGS then OK else STREAM_CONTINUITY_ISSUE, [])
    else
      FrameSenderData(c, StreamOptions(text, info), data, d)
  }

  function StreamOptions(text: bool, info: Flags): Flags {
    if info.first then (if text then info.(text := true) else info.(binary := true)) else info.(cont := true)
  }

  /** cws_send_strm_text: an incomplete character at the end is cut off. */
  function SendStrmText(c: Conn, info: Flags, s: seq<byte>, d: Draw): Result
    requires IsObject(s)
  {
    match WholePrefix(s)
    case None => Result(c, INVALID_UTF8, [])
    case Some(len) => SendStream(c, true, info, s[..len], d)
  }

  // ----- Closing -----

  /** _normalize_close_inputs: an error, or the code to send and whether it is urgent. */
  datatype Normalized = Refused(code: Code) | Normal(status: nat, urgent: bool)

  function NormalizeClose(code: int, reason: seq<byte>): Normalized {
    var status: nat := if code == -1 then 0 else if code < 0 then -code else code;
    if WholePrefix(reason) != Some(|reason|) then Refused(INVALID_UTF8)
    else if CTL_PAYLOAD_MAX - 3 < |reason| then Refused(APP_DATA_LENGTH_TOO_LONG)
    else if status == 0 && reason != [] then Refused(INVALID_CLOSE_REASON_CODE)
    else if status != 0 && !IsCloseCodeValid(status) then Refused(INVALID_CLOSE_REASON_CODE)
    else Normal(status, code < 0)
  }

  function ClosePayload(status: nat, reason: seq<byte>): seq<byte> {
    if status == 0 then [] else [status / 0x100 % 0x100, status % 0x100] + reason
  }

  /** cws_close; a reason that is NULL is empty. */
  function Close(c: Conn, code: int, reason: seq<byte>, d: Draw): Result {
    match NormalizeClose(code, reason)
    case Refused(error) => Result(c, error, [])
    case Normal(status, urgent) =>
      assert IsObject(ClosePayload(status, reason));
      var r := FrameSenderControl(c, CTRL_CLOSE.(urgent := urgent), ClosePayload(status, reason), d);
      Result(r.conn.(queued := true), r.code, r.frames)
  }

  /** _error_close, called when the peer closes or breaks the protocol. */
  function ErrorClose(c: Conn, code: nat, reason: seq<byte>, d: Draw): Result {
    if c.received then Result(c, OK, [])
    else
      var r := Close(c.(received := true), code, reason, d);
      Result(Unpause(r.conn), r.code, r.frames)
  }

  // ----- _send_cb -----

  datatype Given = Zero | Pause | Octets(out: seq<byte>)

  /** What curl is given when it has room for `len` octets. */
  function SendCb(c: Conn, len: nat): (Conn, Given)
    requires QueueOk(c.queue)
  {
    if c.queue == [] then
      if c.ReadyToClose() then (c.(closed := true), Zero) else (c.(sendPaused := true), Pause)
    else
      var r := Fill(c.queue, len);
      (c.(queue := r.queue, sent := c.sent || r.closeSent), Octets(r.out))
  }
}
