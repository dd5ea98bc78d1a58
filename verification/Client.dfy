/**
 * The sending side of a connection in place: struct cws_object with its queue.  Every method
 * is proved to do what the function of the same name in ClientSpec does to a value.
 */
module Client {
  import opened Bytes
  import U = Utf8
  import opened Frames
  import opened Events
  import opened SendSpec
  import opened Send
  import opened ClientSpec

  class Cws {
    // close_state
    var closeReceived: bool
    var closeQueued: bool
    var closeSent: bool
    var closed: bool
    // CURLPAUSE_SEND in pause_flags
    var sendPaused: bool
    // how often curl has been told to go on
    ghost var unpauses: nat
    var lastSentDataFrameInfo: Flags
    const sendQueue: SendQueue
    // cws_random: the keys, and how many have been drawn
    const random: nat -> Key
    var drawn: nat
    // the frames accepted for sending, each with the number of its key
    ghost var log: seq<Sent>

    ghost predicate Valid()
      reads this, sendQueue, sendQueue.Repr, sendQueue.pools, sendQueue.pools.Repr,
            sendQueue.pools.ctrl`lists, sendQueue.pools.data`lists
    {
      && sendQueue.Valid() && this !in sendQueue.Repr && this !in sendQueue.pools.Repr && 0 < sendQueue.maxPayload
      && Keyed(log, random, drawn)
    }

    ghost function Abs(): Conn
      reads this, sendQueue
    {
      Conn(closeReceived, closeQueued, closeSent, closed, sendPaused, unpauses, lastSentDataFrameInfo,
           sendQueue.maxPayload, sendQueue.queue)
    }

    constructor (maxPayload: nat, random: nat -> Key)
      requires 0 < maxPayload
      ensures Valid() && Abs() == Opened(maxPayload) && drawn == 0 && this.random == random && log == []
    {
      closeReceived, closeQueued, closeSent, closed, sendPaused := false, false, false, false, false;
      unpauses := 0;
      lastSentDataFrameInfo := NO_FLAGS;
      sendQueue := new SendQueue(maxPayload);
      this.random := random;
      drawn, log := 0, [];
    }

    /** cws_random */
    method DrawKey() returns (key: Key)
      requires Keyed(log, random, drawn)
      modifies this`drawn
      ensures key == random(old(drawn)) && drawn == old(drawn) + 1
      ensures Keyed(log, random, drawn) && Keyed(log, random, drawn - 1)
    {
      hide Keyed;
      key := random(drawn);
      KeyedLater(log, random, drawn);
      drawn := drawn + 1;
    }

    /** curl_easy_pause without CURLPAUSE_SEND: curl asks for octets again. */
    ghost method CurlEasyPause()
      modifies this`unpauses
      ensures unpauses == old(unpauses) + 1
    {
      unpauses := unpauses + 1;
    }

    /** The end of send_frame and of _error_close. */
    method Unpause()
      requires Valid()
      modifies this`sendPaused, this`unpauses
      ensures Valid() && Abs() == ClientSpec.Unpause(old(Abs()))
    {
      hide Keyed, Apart, Within, QueueOk, BlocksOf;
      if sendPaused {
        sendPaused := false;
        CurlEasyPause();
      }
    }

    /** send_frame, for a frame with the key that was drawn last. */
    method SendFrame(f: Frame, malloc: bool) returns (rv: Code, ghost mem: bool)
      requires Valid() && |f.payload| == f.payloadLen
      requires 0 < drawn && Keyed(log, random, drawn - 1) && f.key == random(drawn - 1)
      modifies this`sendPaused, this`unpauses, this`log, sendQueue, sendQueue.Repr, sendQueue.pools.Repr
      ensures Valid() && fresh(sendQueue.Repr - old(sendQueue.Repr))
      ensures fresh(sendQueue.pools.Repr - old(sendQueue.pools.Repr))
      ensures mem <==> malloc || old(sendQueue.HasBlock(f.isControl))
      ensures var r := ClientSpec.SendFrame(old(Abs()), f, mem);
              Abs() == r.conn && rv == r.code && Logged(old(log), drawn - 1, log, drawn, r.frames, rv)
    {
      hide Keyed, Logged, Apart, Within, QueueOk, BlocksOf, Enqueued, NodeFor;
      FrameLogged(log, drawn - 1, f);
      var ok := sendQueue.SendFrame(f, malloc);
      mem := ok;
      if !ok {
        return OUT_OF_MEMORY, mem;
      }
      Accept(f);
      return OK, mem;
    }

    /** send_frame once the frame is on the queue. */
    method Accept(ghost f: Frame)
      requires Valid() && 0 < drawn && Keyed(log, random, drawn - 1) && f.key == random(drawn - 1)
      modifies this`sendPaused, this`unpauses, this`log
      ensures Valid() && Abs() == ClientSpec.Unpause(old(Abs())) && log == old(log) + [Sent(f, drawn - 1)]
    {
      hide Keyed, Apart, Within, QueueOk, BlocksOf, ClientSpec.Unpause;
      KeyedMore(log, random, drawn - 1, f);
      log := log + [Sent(f, drawn - 1)];
      Unpause();
    }

    /** A frame with a key of its own. */
    method SendMasked(f: Frame, malloc: bool) returns (rv: Code, ghost d: Draw)
      requires Valid() && |f.payload| == f.payloadLen
      modifies this`sendPaused, this`unpauses, this`drawn, this`log, sendQueue, sendQueue.Repr, sendQueue.pools.Repr
      ensures Valid() && fresh(sendQueue.Repr - old(sendQueue.Repr))
      ensures fresh(sendQueue.pools.Repr - old(sendQueue.pools.Repr))
      ensures d.key == random(old(drawn)) && (d.mem <==> malloc || old(sendQueue.HasBlock(f.isControl)))
      ensures var r := ClientSpec.SendFrame(old(Abs()), f.(key := d.key), d.mem);
              Abs() == r.conn && rv == r.code && Logged(old(log), old(drawn), log, drawn, r.frames, rv)
    {
      hide Keyed, Logged, Apart, Within, QueueOk, BlocksOf, ClientSpec.SendFrame;
      var key := DrawKey();
      ghost var mem;
      rv, mem := SendFrame(f.(key := key), malloc);
      d := Draw(key, mem);
    }

    /** frame_sender_control */
    method FrameSenderControl(options: CtrlFlags, data: seq<byte>, malloc: bool) returns (rv: Code, ghost d: Draw)
      requires Valid() && IsObject(data)
      modifies this`sendPaused, this`unpauses, this`drawn, this`log, sendQueue, sendQueue.Repr, sendQueue.pools.Repr
      ensures Valid() && fresh(sendQueue.Repr - old(sendQueue.Repr))
      ensures fresh(sendQueue.pools.Repr - old(sendQueue.pools.Repr))
      ensures malloc ==> d.mem
      ensures var r := ClientSpec.FrameSenderControl(old(Abs()), options, data, d);
              Abs() == r.conn && rv == r.code && Logged(old(log), old(drawn), log, drawn, r.frames, rv)
      ensures drawn != old(drawn) ==>
                d.key == random(old(drawn)) && (d.mem <==> malloc || old(sendQueue.HasBlock(true)))
    {
      hide Keyed, Logged, Apart, Within, QueueOk, BlocksOf, ClientSpec.SendFrame;
      d := Draw(random(drawn), true);
      NothingLogged(log, drawn, INVALID_OPTIONS);
      NothingLogged(log, drawn, CLOSED_CONNECTION);
      NothingLogged(log, drawn, APP_DATA_LENGTH_TOO_LONG);
      if options.urgent || options.other {
        return INVALID_OPTIONS, d;
      }
      var opcode: Nibble := 0;
      if options == CTRL_CLOSE {
        opcode := CLOSE;
      } else if options == CTRL_PING {
        opcode := PING;
      } else if options == CTRL_PONG {
        opcode := PONG;
      } else {
        return INVALID_OPTIONS, d;
      }
      if closeQueued {
        return CLOSED_CONNECTION, d;
      }
      if CTL_PAYLOAD_MAX < |data| {
        return APP_DATA_LENGTH_TOO_LONG, d;
      }
      rv, d := SendMasked(Frame(true, true, true, false, opcode, ZERO_KEY, |data|, data), malloc);
    }

    /** frame_sender_data */
    method FrameSenderData(options: Flags, data: seq<byte>, malloc: bool) returns (rv: Code, ghost d: Draw)
      requires Valid() && IsObject(data)
      modifies this`sendPaused, this`unpauses, this`drawn, this`log, this`lastSentDataFrameInfo,
               sendQueue, sendQueue.Repr, sendQueue.pools.Repr
      ensures Valid() && fresh(sendQueue.Repr - old(sendQueue.Repr))
      ensures fresh(sendQueue.pools.Repr - old(sendQueue.pools.Repr))
      ensures malloc ==> d.mem
      ensures var r := ClientSpec.FrameSenderData(old(Abs()), options, data, d);
              Abs() == r.conn && rv == r.code && Logged(old(log), old(drawn), log, drawn, r.frames, rv)
      ensures drawn != old(drawn) ==>
                d.key == random(old(drawn)) && (d.mem <==> malloc || old(sendQueue.HasBlock(false)))
    {
      hide DataOpcode, Keyed, Logged, Apart, Within, QueueOk, BlocksOf, ClientSpec.SendFrame;
      d := Draw(random(drawn), true);
      NothingLogged(log, drawn, CLOSED_CONNECTION);
      var code, opcode := CheckOptions(options);
      OptionsCode(lastSentDataFrameInfo, options);
      if code != OK {
        NothingLogged(log, drawn, code);
        return code, d;
      }
      if closeReceived || closeQueued || closeSent || closed {
        return CLOSED_CONNECTION, d;
      }
      rv, d := SendData(opcode, options, data, malloc);
    }

    /** frame_sender_data after its checks. */
    method SendData(opcode: Nibble, options: Flags, data: seq<byte>, malloc: bool) returns (rv: Code, ghost d: Draw)
      requires Valid() && IsObject(data)
      modifies this`sendPaused, this`unpauses, this`drawn, this`log, this`lastSentDataFrameInfo,
               sendQueue, sendQueue.Repr, sendQueue.pools.Repr
      ensures Valid() && fresh(sendQueue.Repr - old(sendQueue.Repr))
      ensures fresh(sendQueue.pools.Repr - old(sendQueue.pools.Repr))
      ensures malloc ==> d.mem
      ensures var r := ClientSpec.SendFrame(old(Abs()).(last := options),
                         Frame(options.last, true, false, false, opcode, d.key, |data|, data), d.mem);
              Abs() == r.conn && rv == r.code && Logged(old(log), old(drawn), log, drawn, r.frames, rv)
      ensures d.key == random(old(drawn)) && (d.mem <==> malloc || old(sendQueue.HasBlock(false)))
    {
      hide Keyed, Logged, Apart, Within, QueueOk, BlocksOf, ClientSpec.SendFrame;
      lastSentDataFrameInfo := options;
      rv, d := SendMasked(Frame(options.last, true, false, false, opcode, ZERO_KEY, |data|, data), malloc);
    }

    /** The switch of frame_sender_data. */
    method CheckOptions(options: Flags) returns (code: Code, opcode: Nibble)
      ensures (code, opcode) == DataOpcode(Abs().last, options)
    {
      var lastinfo := lastSentDataFrameInfo;
      if options.other {
        return INVALID_OPTIONS, 0;
      }
      if options.cont && !options.binary && !options.text {
        if options.first {
          return INVALID_OPTIONS, 0;
        }
        if lastinfo == NO_FLAGS || lastinfo.last {
          return STREAM_CONTINUITY_ISSUE, 0;
        }
        return OK, CONTINUATION;
      }
      if !options.cont && options.binary != options.text {
        if !options.first {
          return INVALID_OPTIONS, 0;
        }
        if lastinfo != NO_FLAGS && !lastinfo.last {
          return STREAM_CONTINUITY_ISSUE, 0;
        }
        opcode := BINARY;
        if options.text {
          opcode := TEXT;
        }
        return OK, opcode;
      }
      return INVALID_OPTIONS, 0;
    }

    /** data_block_sender */
    method DataBlockSender(kind: Flags, data: seq<byte>, malloc: bool) returns (rv: Code, ghost draws: seq<Draw>)
      requires Valid() && IsObject(data)
      modifies this`sendPaused, this`unpauses, this`drawn, this`log, this`lastSentDataFrameInfo,
               sendQueue, sendQueue.Repr, sendQueue.pools.Repr
      ensures Valid() && fresh(sendQueue.Repr - old(sendQueue.Repr))
      ensures fresh(sendQueue.pools.Repr - old(sendQueue.pools.Repr))
      ensures malloc ==> AllMemory(draws)
      ensures var r := ClientSpec.DataBlockSender(old(Abs()), kind, data, draws);
              Abs() == r.conn && rv == r.code && Logged(old(log), old(drawn), log, drawn, r.frames, rv)
    {
      draws := [];
      if kind != CWS_BINARY && kind != CWS_TEXT {
        return INVALID_OPTIONS, draws;
      }
      if closeReceived || closeQueued || closeSent || closed {
        return CLOSED_CONNECTION, draws;
      }
      rv, draws := SendBlocks(kind.(first := true), data, malloc);
    }

    /** data_block_sender after its checks: full frames, then the last one. */
    method SendBlocks(first: Flags, data: seq<byte>, malloc: bool) returns (rv: Code, ghost draws: seq<Draw>)
      requires Valid() && IsObject(data)
      modifies this`sendPaused, this`unpauses, this`drawn, this`log, this`lastSentDataFrameInfo,
               sendQueue, sendQueue.Repr, sendQueue.pools.Repr
      ensures Valid() && fresh(sendQueue.Repr - old(sendQueue.Repr))
      ensures fresh(sendQueue.pools.Repr - old(sendQueue.pools.Repr))
      ensures malloc ==> AllMemory(draws)
      ensures var r := BlockLoop(old(Abs()), first, data, draws);
              Abs() == r.conn && rv == r.code && Logged(old(log), old(drawn), log, drawn, r.frames, rv)
    {
      hide *;
      ghost var c0, d := Abs(), Draw(ZERO_KEY, true);
      var options, buffer;
      ghost var frames;
      rv, options, buffer, draws, frames := SendFullBlocks(first, data, malloc);
      if rv != OK {
        return rv, draws;
      }
      ghost var c, before, mid, m := Abs(), draws, log, drawn;
      rv, d := FrameSenderData(options.(last := true), buffer, malloc);
      draws := draws + [d];
      MemoryMore(before, d);
      ReachesTurn(c0, first, data, before, frames, c, options, buffer, d);
      LoggedThen(old(log), old(drawn), mid, m, log, drawn, frames,
                 ClientSpec.FrameSenderData(c, options.(last := true), buffer, d).frames, rv);
    }

    /** priv->cfg.max_payload_size */
    method MaxPayload() returns (max: nat)
      requires Valid()
      ensures max == Abs().maxPayload && 0 < max
    {
      max := sendQueue.maxPayload;
    }

    /** The loop of data_block_sender. */
    method SendFullBlocks(first: Flags, data: seq<byte>, malloc: bool)
      returns (rv: Code, options: Flags, buffer: seq<byte>, ghost draws: seq<Draw>, ghost frames: seq<Frame>)
      requires Valid() && IsObject(data)
      modifies this`sendPaused, this`unpauses, this`drawn, this`log, this`lastSentDataFrameInfo,
               sendQueue, sendQueue.Repr, sendQueue.pools.Repr
      ensures Valid() && fresh(sendQueue.Repr - old(sendQueue.Repr))
      ensures fresh(sendQueue.pools.Repr - old(sendQueue.pools.Repr))
      ensures malloc ==> AllMemory(draws)
      ensures 0 < old(Abs()).maxPayload && IsObject(buffer)
      ensures rv == OK ==> |buffer| <= Abs().maxPayload == old(Abs()).maxPayload
      ensures rv == OK ==> Reaches(old(Abs()), first, data, draws, frames, Abs(), options, buffer)
      ensures rv == OK ==> Logged(old(log), old(drawn), log, drawn, frames, OK)
      ensures rv != OK ==>
                var r := BlockLoop(old(Abs()), first, data, draws);
                Abs() == r.conn && rv == r.code && Logged(old(log), old(drawn), log, drawn, r.frames, rv)
    {
      hide *;
      var max := MaxPayload();
      rv, options, buffer, draws, frames := OK, first, data, [], [];
      ghost var c0 := Abs();
      ReachesStart(c0, first, data);
      NothingLogged(log, drawn, OK);
      while max < |buffer|
        invariant Valid() && fresh(sendQueue.Repr - old(sendQueue.Repr)) && IsObject(buffer)
        invariant fresh(sendQueue.pools.Repr - old(sendQueue.pools.Repr))
        invariant malloc ==> AllMemory(draws)
        invariant Abs().maxPayload == max && Reaches(c0, first, data, draws, frames, Abs(), options, buffer)
        invariant Logged(old(log), old(drawn), log, drawn, frames, OK)
        decreases |buffer|
      {
        ghost var mid, m := log, drawn;
        ghost var r: ClientSpec.Result;
        rv, draws, r := SendOneBlock(options, buffer, malloc, c0, first, data, draws, frames);
        LoggedThen(old(log), old(drawn), mid, m, log, drawn, frames, r.frames, rv);
        frames := frames + r.frames;
        if rv != OK {
          return;
        }
        ObjectParts(buffer, max);
        options := CWS_CONT;
        buffer := buffer[max..];
      }
      rv := OK;
    }

    /** cws_send_blk_text */
    method SendBlkText(text: seq<byte>, malloc: bool) returns (rv: Code, ghost draws: seq<Draw>)
      requires Valid() && IsObject(text)
      modifies this`sendPaused, this`unpauses, this`drawn, this`log, this`lastSentDataFrameInfo,
               sendQueue, sendQueue.Repr, sendQueue.pools.Repr
      ensures Valid() && fresh(sendQueue.Repr - old(sendQueue.Repr))
      ensures fresh(sendQueue.pools.Repr - old(sendQueue.pools.Repr))
      ensures malloc ==> AllMemory(draws)
      ensures var r := ClientSpec.SendBlkText(old(Abs()), text, draws);
              Abs() == r.conn && rv == r.code && Logged(old(log), old(drawn), log, drawn, r.frames, rv)
    {
      draws := [];
      if 0 < |text| {
        var ok, len := U.Validate(text);
        if !ok || len != |text| {
          return INVALID_UTF8, draws;
        }
      }
      hide ClientSpec.DataBlockSender;
      rv, draws := DataBlockSender(CWS_TEXT, text, malloc);
    }

    /** _send_stream */
    method SendStream(text: bool, info: Flags, data: seq<byte>, malloc: bool) returns (rv: Code, ghost d: Draw)
      requires Valid() && IsObject(data)
      modifies this`sendPaused, this`unpauses, this`drawn, this`log, this`lastSentDataFrameInfo,
               sendQueue, sendQueue.Repr, sendQueue.pools.Repr
      ensures Valid() && fresh(sendQueue.Repr - old(sendQueue.Repr))
      ensures fresh(sendQueue.pools.Repr - old(sendQueue.pools.Repr))
      ensures malloc ==> d.mem
      ensures var r := ClientSpec.SendStream(old(Abs()), text, info, data, d);
              Abs() == r.conn && rv == r.code && Logged(old(log), old(drawn), log, drawn, r.frames, rv)
      ensures drawn != old(drawn) ==>
                d.key == random(old(drawn)) && (d.mem <==> malloc || old(sendQueue.HasBlock(false)))
    {
      d := Draw(random(drawn), true);
      if info == NO_FLAGS && data == [] {
        if lastSentDataFrameInfo != NO_FLAGS {
          return OK, d;
        } else {
          return STREAM_CONTINUITY_ISSUE, d;
        }
      }
      var options := info;
      if info.first {
        if text {
          options := options.(text := true);
        } else {
          options := options.(binary := true);
        }
      } else {
        options := options.(cont := true);
      }
      hide ClientSpec.FrameSenderData;
      rv, d := FrameSenderData(options, data, malloc);
    }

    /** cws_send_strm_text */
    method SendStrmText(info: Flags, text: seq<byte>, malloc: bool) returns (rv: Code, ghost d: Draw)
      requires Valid() && IsObject(text)
      modifies this`sendPaused, this`unpauses, this`drawn, this`log, this`lastSentDataFrameInfo,
               sendQueue, sendQueue.Repr, sendQueue.pools.Repr
      ensures Valid() && fresh(sendQueue.Repr - old(sendQueue.Repr))
      ensures fresh(sendQueue.pools.Repr - old(sendQueue.pools.Repr))
      ensures malloc ==> d.mem
      ensures var r := ClientSpec.SendStrmText(old(Abs()), info, text, d);
              Abs() == r.conn && rv == r.code && Logged(old(log), old(drawn), log, drawn, r.frames, rv)
      ensures drawn != old(drawn) ==>
                d.key == random(old(drawn)) && (d.mem <==> malloc || old(sendQueue.HasBlock(false)))
    {
      d := Draw(random(drawn), true);
      var len := |text|;
      if 0 < len {
        var ok;
        ok, len := U.Validate(text);
        if !ok {
          return INVALID_UTF8, d;
        }
      }
      hide ClientSpec.SendStream;
      rv, d := SendStream(true, info, text[..len], malloc);
    }

    /** _normalize_close_inputs */
    method Normalize(code: int, reason: seq<byte>) returns (rv: Code, status: nat, urgent: bool)
      ensures match NormalizeClose(code, reason)
              case Refused(error) => rv == error && rv != OK
              case Normal(s, u) => rv == OK && status == s && urgent == u
    {
      status, urgent := if code < 0 then 0 - code else code, false;
      if code < 0 {
        urgent := true;
        if code == -1 {
          status := 0;
        }
      }
      if 0 < |reason| {
        var ok, len := U.Validate(reason);
        if !ok || len != |reason| {
          return INVALID_UTF8, status, urgent;
        }
        if CTL_PAYLOAD_MAX - 3 < len {
          return APP_DATA_LENGTH_TOO_LONG, status, urgent;
        }
      }
      if status == 0 {
        if 0 < |reason| {
          return INVALID_CLOSE_REASON_CODE, status, urgent;
        }
      } else if !IsCloseCodeValid(status) {
        return INVALID_CLOSE_REASON_CODE, status, urgent;
      }
      return OK, status, urgent;
    }

    /** The octets that cws_close puts together. */
    method CloseBuffer(status: nat, reason: seq<byte>) returns (buf: seq<byte>)
      ensures buf == ClosePayload(status, reason)
    {
      buf := [];
      if status != 0 {
        buf := [status / 0x100 % 0x100, status % 0x100];
        if 0 < |reason| {
          buf := buf + reason;
        }
      }
    }

    /** cws_close */
    method Close(code: int, reason: seq<byte>, malloc: bool) returns (rv: Code, ghost d: Draw)
      requires Valid()
      modifies this`closeQueued, this`sendPaused, this`unpauses, this`drawn, this`log, sendQueue, sendQueue.Repr, sendQueue.pools.Repr
      ensures Valid() && fresh(sendQueue.Repr - old(sendQueue.Repr))
      ensures fresh(sendQueue.pools.Repr - old(sendQueue.pools.Repr))
      ensures malloc ==> d.mem
      ensures var r := ClientSpec.Close(old(Abs()), code, reason, d);
              Abs() == r.conn && rv == r.code && Logged(old(log), old(drawn), log, drawn, r.frames, rv)
      ensures drawn != old(drawn) ==>
                d.key == random(old(drawn)) && (d.mem <==> malloc || old(sendQueue.HasBlock(true)))
    {
      hide ClientSpec.FrameSenderControl, NormalizeClose, Keyed, Logged, Apart, Within, QueueOk, BlocksOf;
      d := Draw(random(drawn), true);
      var status, urgent;
      rv, status, urgent := Normalize(code, reason);
      if rv != OK {
        RefusedCode(code, reason);
        NothingLogged(log, drawn, rv);
        return rv, d;
      }
      NormalIsShort(code, reason);
      hide ClosePayload;
      var buf := CloseBuffer(status, reason);
      rv, d := FrameSenderControl(CTRL_CLOSE.(urgent := urgent), buf, malloc);
      MarkQueued();
    }

    method MarkQueued()
      requires Valid()
      modifies this`closeQueued
      ensures Valid() && Abs() == old(Abs()).(queued := true)
    {
      hide Keyed, Apart, Within, QueueOk, BlocksOf;
      if !closeQueued {
        closeQueued := true;
      }
    }

    /** The sender's half of _error_close. */
    method ErrorClose(code: nat, reason: seq<byte>, malloc: bool) returns (ghost d: Draw)
      requires Valid()
      modifies this`closeReceived, this`closeQueued, this`sendPaused, this`unpauses, this`drawn, this`log,
               sendQueue, sendQueue.Repr, sendQueue.pools.Repr
      ensures Valid() && fresh(sendQueue.Repr - old(sendQueue.Repr))
      ensures fresh(sendQueue.pools.Repr - old(sendQueue.pools.Repr))
      ensures malloc ==> d.mem
      ensures var r := ClientSpec.ErrorClose(old(Abs()), code, reason, d);
              Abs() == r.conn && Logged(old(log), old(drawn), log, drawn, r.frames, r.code)
      ensures drawn != old(drawn) ==>
                d.key == random(old(drawn)) && (d.mem <==> malloc || old(sendQueue.HasBlock(true)))
    {
      hide ClientSpec.Close, Keyed, Logged, Apart, Within, QueueOk, BlocksOf;
      NothingLogged(log, drawn, OK);
      d := Draw(random(drawn), true);
      if !closeReceived {
        MarkReceived();
        var rv;
        rv, d := Close(code, reason, malloc);
        Unpause();
      }
    }

    method MarkReceived()
      requires Valid()
      modifies this`closeReceived
      ensures Valid() && Abs() == old(Abs()).(received := true)
    {
      hide Keyed, Apart, Within, QueueOk, BlocksOf;
      closeReceived := true;
    }

    /** _send_cb: curl offers a buffer. */
    method SendCb(buffer: array<byte>, size: nat) returns (given: Given)
      requires Valid() && buffer !in sendQueue.Repr && buffer !in sendQueue.pools.Repr && size <= buffer.Length
      modifies this`closeSent, this`closed, this`sendPaused, sendQueue, sendQueue.Repr, sendQueue.pools.Repr, buffer
      ensures Valid() && sendQueue.Repr == old(sendQueue.Repr)
      ensures fresh(sendQueue.pools.Repr - old(sendQueue.pools.Repr))
      ensures old(QueueOk(Abs().queue))
      ensures (Abs(), given) == ClientSpec.SendCb(old(Abs()), size)
      ensures given.Octets? ==> |given.out| <= size && buffer[..|given.out|] == given.out
    {
      assert QueueOk(sendQueue.queue);
      hide QueueOk, Apart, Within, BlocksOf, Fill, Keyed;
      if sendQueue.send == null {
        given := NothingToSend();
        return;
      }
      var sent, closing := sendQueue.FillOutgoingBuffer(buffer, size);
      MarkSent(closing);
      return Octets(buffer[..sent]);
    }

    /** _send_cb with an empty queue. */
    method NothingToSend() returns (given: Given)
      requires Valid()
      modifies this`closed, this`sendPaused
      ensures Valid()
      ensures var c := old(Abs());
              if c.ReadyToClose() then given == Zero && Abs() == c.(closed := true)
              else given == Pause && Abs() == c.(sendPaused := true)
    {
      hide QueueOk, Apart, Within, BlocksOf, Keyed;
      if closeSent && closeReceived && !closed {
        closed := true;
        return Zero;
      }
      sendPaused := true;
      return Pause;
    }

    method MarkSent(closing: bool)
      requires Valid()
      modifies this`closeSent
      ensures Valid() && Abs() == old(Abs()).(sent := old(Abs()).sent || closing)
    {
      hide QueueOk, Apart, Within, BlocksOf, Keyed;
      if closing {
        closeSent := true;
      }
    }

    /** One turn of that loop. */
    method SendOneBlock(options: Flags, buffer: seq<byte>, malloc: bool, ghost c0: Conn, ghost first: Flags,
                        ghost data: seq<byte>, ghost before: seq<Draw>, ghost frames: seq<Frame>)
      returns (rv: Code, ghost draws: seq<Draw>, ghost one: ClientSpec.Result)
      requires Valid() && IsObject(buffer) && IsObject(data) && 0 < c0.maxPayload
      requires Reaches(c0, first, data, before, frames, Abs(), options, buffer) && Abs().maxPayload < |buffer|
      modifies this`sendPaused, this`unpauses, this`drawn, this`log, this`lastSentDataFrameInfo,
               sendQueue, sendQueue.Repr, sendQueue.pools.Repr
      ensures Valid() && fresh(sendQueue.Repr - old(sendQueue.Repr))
      ensures fresh(sendQueue.pools.Repr - old(sendQueue.pools.Repr))
      ensures malloc && AllMemory(before) ==> AllMemory(draws)
      ensures Abs().maxPayload == old(Abs()).maxPayload
      ensures Abs() == one.conn && rv == one.code && Logged(old(log), old(drawn), log, drawn, one.frames, rv)
      ensures rv == OK ==>
                Reaches(c0, first, data, draws, frames + one.frames, Abs(), CWS_CONT, buffer[Abs().maxPayload..])
      ensures rv != OK ==> BlockLoop(c0, first, data, draws) == Result(one.conn, rv, frames + one.frames)
    {
      ghost var c := Abs();
      var max := sendQueue.maxPayload;
      assert max == c.maxPayload;
      hide *;
      ObjectParts(buffer, max);
      ghost var d;
      rv, d := FrameSenderData(options, buffer[..max], malloc);
      draws, one := before + [d], ClientSpec.FrameSenderData(c, options, buffer[..max], d);
      MemoryMore(before, d);
      KeepsMax(c, options, buffer[..max], d);
      ReachesTurn(c0, first, data, before, frames, c, options, buffer, d);
    }
  }

  /** An accepted frame and the number of the key it is masked with. */
  datatype Sent = Sent(frame: Frame, draw: nat)

  /** Every frame is masked with the key of its number, and later frames have later keys. */
  ghost predicate Keyed(log: seq<Sent>, random: nat -> Key, drawn: nat) {
    && (forall i {:trigger log[i]} :: 0 <= i < |log| ==> log[i].draw < drawn && log[i].frame.key == random(log[i].draw))
    && (forall i, j {:trigger log[i], log[j]} :: 0 <= i < j < |log| ==> log[i].draw < log[j].draw)
  }

  lemma KeyedLater(log: seq<Sent>, random: nat -> Key, drawn: nat)
    requires Keyed(log, random, drawn)
    ensures Keyed(log, random, drawn + 1)
  {}

  lemma KeyedMore(log: seq<Sent>, random: nat -> Key, drawn: nat, f: Frame)
    requires Keyed(log, random, drawn) && f.key == random(drawn)
    ensures Keyed(log + [Sent(f, drawn)], random, drawn + 1)
  {}

  function Numbered(frames: seq<Frame>, n: nat): (log: seq<Sent>)
    ensures |log| == |frames|
  {
    seq(|frames|, i requires 0 <= i < |frames| => Sent(frames[i], n + i))
  }

  /** The frames were accepted, each with the next key; a frame for which there was no memory took
      one as well, and nothing else did. */
  predicate Logged(before: seq<Sent>, n: nat, after: seq<Sent>, m: nat, frames: seq<Frame>, code: Code) {
    after == before + Numbered(frames, n) && m == n + |frames| + if code == OUT_OF_MEMORY then 1 else 0
  }

  lemma NothingLogged(log: seq<Sent>, n: nat, code: Code)
    requires code != OUT_OF_MEMORY
    ensures Logged(log, n, log, n, [], code)
  {}

  lemma FrameLogged(log: seq<Sent>, n: nat, f: Frame)
    ensures Logged(log, n, log + [Sent(f, n)], n + 1, [f], OK)
    ensures Logged(log, n, log, n + 1, [], OUT_OF_MEMORY)
  {}

  lemma LoggedThen(before: seq<Sent>, n: nat, mid: seq<Sent>, m: nat, after: seq<Sent>, k: nat,
                   frames: seq<Frame>, more: seq<Frame>, code: Code)
    requires Logged(before, n, mid, m, frames, OK) && Logged(mid, m, after, k, more, code)
    ensures Logged(before, n, after, k, frames + more, code)
  {
    NumberedOn(frames, more, n);
  }

  /** The frames of a call carry the next random keys in their order. */
  lemma LoggedKeys(before: seq<Sent>, n: nat, after: seq<Sent>, m: nat, frames: seq<Frame>, code: Code, random: nat -> Key)
    requires Logged(before, n, after, m, frames, code) && Keyed(after, random, m)
    ensures forall i :: 0 <= i < |frames| ==> frames[i].key == random(n + i)
  {
    forall i | 0 <= i < |frames| ensures frames[i].key == random(n + i) {
      assert after[|before| + i] == Sent(frames[i], n + i);
    }
  }

  /** The frames of a block take its draws in their order. */
  lemma {:induction false} BlockKeys(c: Conn, options: Flags, data: seq<byte>, draws: seq<Draw>)
    requires IsObject(data) && 0 < c.maxPayload
    ensures var frames := BlockLoop(c, options, data, draws).frames;
            |frames| <= |draws| && forall i :: 0 <= i < |frames| ==> frames[i].key == draws[i].key && draws[i].mem
    decreases |data|
  {
    hide NodeFor, Enqueued;
    if c.maxPayload < |data| {
      var one := ClientSpec.FrameSenderData(c, options, data[..c.maxPayload], NextDraw(draws));
      if one.code == OK { BlockKeys(one.conn, CWS_CONT, data[c.maxPayload..], LaterDraws(draws)); }
    }
  }

  lemma OptionsCode(last: Flags, options: Flags)
    ensures DataOpcode(last, options).0 in {OK, INVALID_OPTIONS, STREAM_CONTINUITY_ISSUE}
  {}

  lemma RefusedCode(code: int, reason: seq<byte>)
    requires NormalizeClose(code, reason).Refused?
    ensures NormalizeClose(code, reason).code in {INVALID_UTF8, APP_DATA_LENGTH_TOO_LONG, INVALID_CLOSE_REASON_CODE}
  {
    hide U.WholePrefix;
  }

  lemma NumberedOn(frames: seq<Frame>, more: seq<Frame>, n: nat)
    ensures Numbered(frames, n) + Numbered(more, n + |frames|) == Numbered(frames + more, n)
  {}

  lemma {:induction false} NumberedInOrder(log: seq<Sent>, random: nat -> Key, drawn: nat)
    requires Keyed(log, random, drawn)
    ensures |log| <= drawn && forall i :: 0 <= i < |log| ==> i <= log[i].draw <= drawn - |log| + i
  {
    if log != [] {
      var n := |log| - 1;
      NumberedInOrder(log[..n], random, log[n].draw);
    }
  }

  /** If no frame was lost for want of memory, the i-th frame of the connection is masked with the
      i-th random key. */
  lemma KeysInOrder(log: seq<Sent>, random: nat -> Key, drawn: nat)
    requires Keyed(log, random, drawn) && |log| == drawn
    ensures forall i :: 0 <= i < |log| ==> log[i].draw == i && log[i].frame.key == random(i)
  {
    NumberedInOrder(log, random, drawn);
  }

  /** No key is used twice: keys that are drawn distinct are distinct in the frames. */
  lemma NoKeyTwice(log: seq<Sent>, random: nat -> Key, drawn: nat)
    requires Keyed(log, random, drawn) && forall i, j :: 0 <= i < j < drawn ==> random(i) != random(j)
    ensures forall i, j :: 0 <= i < j < |log| ==> log[i].frame.key != log[j].frame.key
  {}

  lemma NormalIsShort(code: int, reason: seq<byte>)
    requires NormalizeClose(code, reason).Normal?
    ensures IsObject(ClosePayload(NormalizeClose(code, reason).status, reason))
    ensures |ClosePayload(NormalizeClose(code, reason).status, reason)| < CTL_PAYLOAD_MAX
  {}

  lemma ObjectParts(data: seq<byte>, n: nat)
    requires IsObject(data) && n <= |data|
    ensures IsObject(data[..n]) && IsObject(data[n..])
  {}

  lemma MemoryMore(draws: seq<Draw>, d: Draw)
    ensures AllMemory(draws) && d.mem ==> AllMemory(draws + [d])
  {}

  /** After these draws, all of them granted, the loop that began with (c0, first, data) has made
      the frames and is at (c, options, rest). */
  predicate Reaches(c0: Conn, first: Flags, data: seq<byte>, draws: seq<Draw>,
                    frames: seq<Frame>, c: Conn, options: Flags, rest: seq<byte>)
    decreases |draws|
  {
    if draws == [] then (c0, first, data) == (c, options, rest) && frames == []
    else
      && 0 < c0.maxPayload < |data| && IsObject(data)
      && var one := ClientSpec.FrameSenderData(c0, first, data[..c0.maxPayload], draws[0]);
         && one.code == OK && one.frames <= frames
         && Reaches(one.conn, CWS_CONT, data[c0.maxPayload..], draws[1..], frames[|one.frames|..], c, options, rest)
  }

  lemma ReachesStart(c0: Conn, first: Flags, data: seq<byte>)
    requires IsObject(data) && 0 < c0.maxPayload
    ensures Reaches(c0, first, data, [], [], c0, first, data) && AllMemory([])
  {}

  /** One more frame, after which the loop goes on or ends. */
  lemma {:induction false} ReachesTurn(c0: Conn, first: Flags, data: seq<byte>, draws: seq<Draw>,
                                       frames: seq<Frame>, c: Conn, options: Flags, rest: seq<byte>, d: Draw)
    requires IsObject(data) && 0 < c0.maxPayload && Reaches(c0, first, data, draws, frames, c, options, rest)
    ensures IsObject(rest) && c.maxPayload == c0.maxPayload
    ensures var max, r := c.maxPayload, BlockLoop(c0, first, data, draws + [d]);
            if |rest| <= max then
              var one := ClientSpec.FrameSenderData(c, options.(last := true), rest, d);
              r == Result(one.conn, one.code, frames + one.frames)
            else
              var one := ClientSpec.FrameSenderData(c, options, rest[..max], d);
              if one.code == OK then
                Reaches(c0, first, data, draws + [d], frames + one.frames, one.conn, CWS_CONT, rest[max..])
              else r == Result(one.conn, one.code, frames + one.frames)
    decreases |draws|
  {
    hide ClientSpec.FrameSenderData;
    if draws == [] {
      assert draws + [d] == [d] && [d][1..] == [];
      var one := ClientSpec.FrameSenderData(c, options, rest[..Min(|rest|, c.maxPayload)], d);
      assert [] + one.frames == one.frames && one.frames[|one.frames|..] == [];
      var last := ClientSpec.FrameSenderData(c, options.(last := true), rest, d);
      assert [] + last.frames == last.frames;
    } else {
      assert (draws + [d])[1..] == draws[1..] + [d] && (draws + [d])[0] == draws[0];
      var one := ClientSpec.FrameSenderData(c0, first, data[..c0.maxPayload], draws[0]);
      var later := frames[|one.frames|..];
      KeepsMax(c0, first, data[..c0.maxPayload], draws[0]);
      ReachesTurn(one.conn, CWS_CONT, data[c0.maxPayload..], draws[1..], later, c, options, rest, d);
      forall more: seq<Frame>
        ensures one.frames + (later + more) == frames + more && (frames + more)[|one.frames|..] == later + more
      {}
    }
  }
}
