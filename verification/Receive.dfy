/**
 * src/receive.c: the streaming receiver in place.  Every method is proved to do to the
 * fields and buffers what the function of the same name in ReceiveSpec does to a value.
 */
module Receive {
  import opened Bytes
  import U = Utf8
  import opened Frames
  import opened FrameTheory
  import opened Events
  import opened ReceiveSpec

  class Receiver {
    var streamType: Stream
    var fragmentInfo: Flags
    const utf8Buf: array<byte>
    var utf8Used: nat
    var utf8Needed: nat
    var frame: Option<Frame>
    const headerBuf: array<byte>
    var headerUsed: nat
    var headerNeeded: nat
    // One octet more than the 125 of a control payload, for the terminator.
    const controlBuf: array<byte>
    var controlUsed: nat
    var closeReceived: bool
    const followRedirects: bool
    var redirection: bool
    ghost var log: seq<Event>

    ghost predicate Valid()
      reads this
    {
      && utf8Buf.Length == 4 && headerBuf.Length == HEADER_MAX && controlBuf.Length == CTL_PAYLOAD_MAX + 1
      && utf8Buf != headerBuf && utf8Buf != controlBuf && headerBuf != controlBuf
      && utf8Used <= 4 && headerUsed <= HEADER_MAX && controlUsed <= CTL_PAYLOAD_MAX
    }

    /** The receive state as a value. */
    ghost function Abs(): Recv
      requires Valid()
      reads this, utf8Buf, headerBuf, controlBuf
    {
      if closeReceived then Closed
      else Open(headerBuf[..headerUsed], headerNeeded, frame, controlBuf[..controlUsed],
                utf8Buf[..utf8Used], utf8Needed, streamType, fragmentInfo)
    }

    constructor (followRedirects: bool)
      ensures Valid() && Abs() == INITIAL && log == [] && !redirection
      ensures this.followRedirects == followRedirects
      ensures fresh(utf8Buf) && fresh(headerBuf) && fresh(controlBuf)
    {
      streamType, fragmentInfo := NoStream, NO_FLAGS;
      utf8Buf := new byte[4](i => 0);
      headerBuf := new byte[HEADER_MAX](i => 0);
      controlBuf := new byte[CTL_PAYLOAD_MAX + 1](i => 0);
      utf8Used, utf8Needed, headerUsed, headerNeeded, controlUsed := 0, 0, 0, 0, 0;
      frame, closeReceived := None, false;
      redirection := false;
      this.followRedirects := followRedirects;
      log := [];
    }

    /** _error_close; what cws_close and the unpausing do is in module Connection. */
    method ErrorClose(code: nat, why: string)
      requires Valid()
      modifies this`closeReceived, this`log
      ensures Valid() && closeReceived
      ensures log == if old(closeReceived) then old(log) else old(log) + [Shut(code, why)]
    {
      if !closeReceived {
        closeReceived := true;
        log := log + [Shut(code, why)];
      }
    }

    /** _handle_close */
    method HandleClose()
      requires Valid() && !closeReceived && frame.Some?
      requires controlUsed == frame.value.payloadLen <= CTL_PAYLOAD_MAX
      modifies this`closeReceived, this`log, controlBuf
      ensures Valid() && closeReceived
      ensures log == old(log) + CloseEvents(old(controlBuf[..controlUsed]))
    {
      ghost var payload := controlBuf[..controlUsed];
      var status, reason, len := 1005, [], frame.value.payloadLen;
      if len == 1 {
        ErrorClose(1002, "invalid close payload length");
        return;
      }
      if 1 < len {
        status := controlBuf[0] as int * 0x100 + controlBuf[1];
        if !IsCloseCodeValid(status) {
          ErrorClose(1002, "invalid close reason");
          return;
        }
        controlBuf[frame.value.payloadLen] := 0;
        reason := controlBuf[2..len];
        assert reason == payload[2..];
        var ok, whole := U.Validate(reason);
        if !ok || whole != len - 2 {
          ErrorClose(1007, "");
          return;
        }
      }
      log := log + [Closing(status, reason)];
      if status == 1005 {
        status := 0;
      }
      ErrorClose(status, "");
    }

    /** _process_frame_header */
    method ProcessFrameHeader(buf: seq<byte>) returns (found: Option<Frame>, used: nat)
      requires Valid() && !closeReceived && frame.None? && buf != []
      requires Decode(headerBuf[..headerUsed]) == Need(Wanted(Abs()))
      modifies this`headerUsed, this`headerNeeded, this`closeReceived, this`log, headerBuf
      ensures Valid() && used <= |buf|
      ensures var r := old(Abs());
              var min := Min(Wanted(r), |buf|);
              match Decode(r.header + buf[..min])
              case Bad(_) => closeReceived && used == 0 && found == None
              case Need(k) =>
                && Abs() == r.(header := r.header + buf[..min], needed := k)
                && used == min && found == None
              case Got(f, _) =>
                if FrameValidate(f, ServerToClient) != 0 then closeReceived && used == 0 && found == None
                else Abs() == r.(header := [], needed := Wanted(r) - min) && used == min && found == Some(f)
      ensures log == old(log) + if closeReceived then [Shut(1002, "")] else []
    {
      hide Decode, FrameValidate;
      var min := CollectHeader(buf);
      var rv, f, delta := FrameDecode(headerBuf[..headerUsed]);
      if rv != 0 {
        ErrorClose(1002, "");
        return None, 0;
      }
      if delta < 0 {
        headerNeeded := 0 - delta;
        return None, min;
      }
      if FrameValidate(f, ServerToClient) != 0 {
        ErrorClose(1002, "");
        return None, 0;
      }
      headerUsed := 0;
      return Some(f), min;
    }

    /** The first part of _process_frame_header: the octets asked for are collected. */
    method CollectHeader(buf: seq<byte>) returns (min: nat)
      requires Valid() && !closeReceived && frame.None?
      requires Decode(headerBuf[..headerUsed]) == Need(Wanted(Abs()))
      modifies this`headerUsed, this`headerNeeded, headerBuf
      ensures Valid() && min == Min(old(Wanted(Abs())), |buf|)
      ensures headerUsed == old(headerUsed) + min && headerNeeded == old(Wanted(Abs())) - min
      ensures headerBuf[..headerUsed] == old(headerBuf[..headerUsed]) + buf[..min]
    {
      hide Decode;
      if headerNeeded == 0 {
        headerNeeded := HEADER_MIN;
      }
      min := Min(headerNeeded, |buf|);
      DecodeDeficit(headerBuf[..headerUsed], []);
      assert headerBuf[..headerUsed] + [] == headerBuf[..headerUsed];
      CopyTo(headerBuf, headerUsed, buf[..min]);
      assert headerBuf[..headerUsed + min] == headerBuf[..headerUsed] + headerBuf[headerUsed..headerUsed + min];
      headerUsed := headerUsed + min;
      headerNeeded := headerNeeded - min;
    }

    /** _process_control_frame */
    method ProcessControlFrame(buf: seq<byte>) returns (used: nat)
      requires Valid() && !closeReceived && frame.Some?
      requires controlUsed <= frame.value.payloadLen <= CTL_PAYLOAD_MAX
      modifies this`frame, this`headerUsed, this`headerNeeded, this`controlUsed, this`closeReceived,
               this`log, controlBuf
      ensures Valid()
      ensures var s := ControlStep(old(Abs()), buf);
              Abs() == s.next && used == s.used && log == old(log) + s.events
    {
      hide CloseEvents;
      used := CollectControl(buf);
      if controlUsed == frame.value.payloadLen {
        if frame.value.opcode == PING {
          log := log + [Ping(controlBuf[..controlUsed])];
          frame := None;
        } else if frame.value.opcode == PONG {
          log := log + [Pong(controlBuf[..controlUsed])];
          frame := None;
        } else {
          HandleClose();
          frame := None;
          return;
        }
        headerNeeded := HEADER_MIN;
        headerUsed := 0;
        controlUsed := 0;
      }
    }

    /** The first half of _process_control_frame: the payload octets are collected. */
    method CollectControl(buf: seq<byte>) returns (used: nat)
      requires Valid() && !closeReceived && frame.Some?
      requires controlUsed <= frame.value.payloadLen <= CTL_PAYLOAD_MAX
      modifies this`controlUsed, controlBuf
      ensures Valid() && used == Min(frame.value.payloadLen - old(controlUsed), |buf|)
      ensures controlUsed == old(controlUsed) + used
      ensures controlBuf[..controlUsed] == old(controlBuf[..controlUsed]) + buf[..used]
    {
      used := 0;
      if controlUsed < frame.value.payloadLen && 0 < |buf| {
        used := Min(frame.value.payloadLen - controlUsed, |buf|);
        CopyTo(controlBuf, controlUsed, buf[..used]);
        assert controlBuf[..controlUsed + used] == controlBuf[..controlUsed] + controlBuf[controlUsed..controlUsed + used];
        controlUsed := controlUsed + used;
      }
    }

    /** _process_text_stream; `send` is what the pointer handed back delimits. */
    method ProcessTextStream(buf: seq<byte>) returns (ok: bool, send: seq<byte>)
      requires Valid() && !closeReceived && StashOk(Abs()) && frame.Some?
      modifies this`utf8Used, this`utf8Needed, this`closeReceived, this`log, utf8Buf
      ensures Valid()
      ensures var r := old(Abs());
              match TextStep(r.stash, r.more, r.frame.value.fin && r.frame.value.payloadLen <= |buf|, buf)
              case TextBad => !ok && closeReceived && log == old(log) + [Shut(1007, "")]
              case TextOk(stash, more, s) =>
                ok && send == s && Abs() == r.(stash := stash, more := more) && log == old(log)
    {
      ghost var r := Abs();
      if 0 < utf8Needed {
        ok, send := FillStash(buf);
      } else {
        var whole, valid := U.Validate(buf);
        if !whole {
          ErrorClose(1007, "");
          return false, [];
        }
        send := buf;
        if valid < |buf| {
          var left := |buf| - valid;
          if frame.value.fin && frame.value.payloadLen <= |buf| {
            ErrorClose(1007, "");
            return false, [];
          }
          U.WholePrefixStops(buf);
          CopyTo(utf8Buf, 0, buf[valid..]);
          utf8Used := left;
          utf8Needed := U.GetSize(utf8Buf[0]);
          utf8Needed := utf8Needed - left;
          send := buf[..valid];
        }
        return true, send;
      }
    }

    /** The branch of _process_text_stream for a character that is already begun. */
    method FillStash(buf: seq<byte>) returns (ok: bool, send: seq<byte>)
      requires Valid() && !closeReceived && StashOk(Abs()) && 0 < utf8Needed
      modifies this`utf8Used, this`utf8Needed, this`closeReceived, this`log, utf8Buf
      ensures Valid()
      ensures var r := old(Abs());
              match CompleteStash(r.stash, r.more, buf)
              case TextBad => !ok && closeReceived && log == old(log) + [Shut(1007, "")]
              case TextOk(stash, more, s) =>
                ok && send == s && Abs() == r.(stash := stash, more := more) && log == old(log)
    {
      ghost var r := Abs();
      var len := Min(utf8Needed, |buf|);
      CopyTo(utf8Buf, utf8Used, buf[..len]);
      assert utf8Buf[..utf8Used + len] == utf8Buf[..utf8Used] + utf8Buf[utf8Used..utf8Used + len];
      utf8Used := utf8Used + len;
      utf8Needed := utf8Needed - len;
      assert utf8Buf[..utf8Used] == r.stash + buf[..len];
      if utf8Needed != 0 {
        var maybe := U.MaybeValid(utf8Buf[..utf8Used]);
        if !maybe {
          ErrorClose(1007, "");
          return false, [];
        }
        return true, [];
      } else {
        var whole, valid := U.Validate(utf8Buf[..utf8Used]);
        if !whole || utf8Used != valid {
          ErrorClose(1007, "");
          return false, [];
        }
        send := utf8Buf[..utf8Used];
        utf8Used := 0;
        return true, send;
      }
    }

    /** _send_data_frame; payloadLen has already been reduced by the octets taken. */
    method SendDataFrame(send: seq<byte>)
      requires frame.Some?
      modifies this`frame, this`fragmentInfo, this`streamType, this`log
      ensures var o := SendOutcome(old(frame).value, old(fragmentInfo), old(streamType), send);
              frame == o.frame && fragmentInfo == o.info && streamType == o.stream
              && log == old(log) + o.events
    {
      var info, done := fragmentInfo, frame.value.payloadLen == 0;
      if done && frame.value.fin {
        info := info.(last := true);
      }
      if 0 < |send| || info.first || info.last {
        log := log + [Fragment(info, send)];
      }
      info := info.(cont := true, binary := false, text := false, first := false);
      if done {
        frame := None;
      }
      if info.last {
        fragmentInfo, streamType := NO_FLAGS, NoStream;
      } else {
        fragmentInfo := info;
      }
    }

    /** _process_data_frame */
    method ProcessDataFrame(buf: seq<byte>) returns (used: nat)
      requires Valid() && !closeReceived && frame.Some? && StashOk(Abs())
      modifies this`utf8Used, this`utf8Needed, this`frame, this`fragmentInfo, this`streamType,
               this`closeReceived, this`log, utf8Buf
      ensures Valid()
      ensures var s := DataStep(old(Abs()), buf);
              Abs() == s.next && log == old(log) + s.events && used == s.used
    {
      StashOkFits(Abs());
      hide TextStep, SendStep, StashOk;
      var min := Min(frame.value.payloadLen, |buf|);
      var send := buf[..min];
      if streamType == TextStream {
        var ok;
        ok, send := ProcessTextStream(buf[..min]);
        if !ok {
          return 0;
        }
      }
      TakePayload(min, send);
      return min;
    }

    /** The end of _process_data_frame: count the octets taken and send them on. */
    method TakePayload(min: nat, send: seq<byte>)
      requires Valid() && !closeReceived && frame.Some? && min <= frame.value.payloadLen
      modifies this`frame, this`fragmentInfo, this`streamType, this`log
      ensures Valid()
      ensures Abs() == SendStep(old(Abs()), min, send).next
      ensures log == old(log) + SendStep(old(Abs()), min, send).events
    {
      frame := Some(frame.value.(payloadLen := frame.value.payloadLen - min));
      hide SendOutcome;
      SendDataFrame(send);
    }

    /** The first half of _cws_process_frame: find a frame to work on. */
    method FindFrame(buf: seq<byte>) returns (used: nat)
      requires Valid() && !closeReceived && Wf(Abs()) && buf != []
      modifies this`headerUsed, this`headerNeeded, this`frame, this`streamType, this`fragmentInfo,
               this`closeReceived, this`log, headerBuf
      ensures Valid()
      ensures var s := AtPayload(old(Abs()), buf);
              Abs() == s.next && log == old(log) + s.events && used == s.used
      ensures closeReceived ==> frame.None?
    {
      used := 0;
      if frame.None? {
        hide Decode, FrameValidate;
        var found;
        found, used := ProcessFrameHeader(buf);
        if found.Some? && !found.value.isControl {
          if fragmentInfo == NO_FLAGS && found.value.opcode == BINARY {
            streamType, fragmentInfo := BinaryStream, CWS_BINARY.(first := true);
          } else if fragmentInfo == NO_FLAGS && found.value.opcode == TEXT {
            streamType, fragmentInfo := TextStream, CWS_TEXT.(first := true);
          } else if streamType != NoStream && found.value.opcode == CONTINUATION {
            fragmentInfo := Continued(fragmentInfo);
          } else {
            ErrorClose(1002, "");
            return 0;
          }
        }
        frame := found;
      }
    }

    /** The second half of _cws_process_frame. */
    method ProcessPayload(buf: seq<byte>) returns (used: nat)
      requires Valid() && !closeReceived && WfAtPayload(Abs())
      modifies this, utf8Buf, controlBuf
      ensures Valid() && redirection == old(redirection)
      ensures var s := PayloadStep(old(Abs()), buf);
              Abs() == s.next && log == old(log) + s.events && used == s.used
    {
      hide ControlStep, DataStep;
      if frame.value.isControl {
        used := ProcessControlFrame(buf);
      } else {
        used := ProcessDataFrame(buf);
      }
    }

    /** _cws_process_frame */
    method ProcessFrame(buf: seq<byte>) returns (used: nat)
      requires Valid() && !closeReceived && Wf(Abs()) && buf != []
      modifies this, utf8Buf, headerBuf, controlBuf
      ensures Valid() && redirection == old(redirection)
      ensures var s := ReceiveSpec.ProcessFrame(old(Abs()), buf);
              Abs() == s.next && log == old(log) + s.events && used == s.used
    {
      hide ReceiveSpec.ProcessFrame, PayloadStep, AtPayload, Wf, WfAtPayload, ReadyForPayload;
      ProcessFrameUnfold(Abs(), buf);
      used := FindFrame(buf);
      if frame.Some? {
        var taken := ProcessPayload(buf[used..]);
        used := used + taken;
      }
    }

    /** _receive_cb: whatever happens, all octets offered are reported as taken. */
    method ReceiveCb(buf: seq<byte>) returns (taken: nat)
      requires Valid() && Wf(Abs())
      modifies this, utf8Buf, headerBuf, controlBuf
      ensures Valid() && Wf(Abs()) && redirection == old(redirection)
      ensures taken == |buf|
      ensures followRedirects && redirection ==> Abs() == old(Abs()) && log == old(log)
      ensures !(followRedirects && redirection) ==>
                var s := ReceiveSpec.Receive(old(Abs()), buf);
                Abs() == s.next && log == old(log) + s.events
    {
      hide ReceiveSpec.ProcessFrame, ReceiveSpec.Receive, Wf;
      taken := |buf|;
      ReceiveUnfold(Abs(), buf);
      if buf == [] || (followRedirects && redirection) || closeReceived {
        return;
      }
      var at := 0;
      ghost var r := Abs();
      while at < |buf|
        invariant 0 <= at <= |buf| && Valid() && Wf(Abs()) && !closeReceived && redirection == old(redirection)
        invariant ReceiveSpec.Receive(r, buf).next == ReceiveSpec.Receive(Abs(), buf[at..]).next
        invariant old(log) + ReceiveSpec.Receive(r, buf).events
               == log + ReceiveSpec.Receive(Abs(), buf[at..]).events
      {
        ghost var before, logBefore := Abs(), log;
        ReceiveUnfold(before, buf[at..]);
        ProcessFrameKeepsWf(before, buf[at..]);
        var used := ProcessFrame(buf[at..]);
        if used == 0 || closeReceived {
          return;
        }
        DropMore(buf, at, used);
        LogLonger(logBefore, ReceiveSpec.ProcessFrame(before, buf[at..]).events,
                  ReceiveSpec.Receive(Abs(), buf[at + used..]).events);
        at := at + used;
      }
      ReceiveUnfold(Abs(), buf[at..]);
    }
  }

  lemma DropMore(buf: seq<byte>, at: nat, used: nat)
    requires at + used <= |buf|
    ensures buf[at..][used..] == buf[at + used..]
  {}

  lemma LogLonger(log: seq<Event>, events: seq<Event>, rest: seq<Event>)
    ensures log + (events + rest) == log + events + rest
  {}
}
