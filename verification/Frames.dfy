/**
 * src/frame.c: the frame header codec of section 5.2 of RFC 6455, payload masking
 * (section 5.3), and frame validation.
 */
module Frames {
  import opened Bytes

  const CONTINUATION := 0x0
  const TEXT := 0x1
  const BINARY := 0x2
  const CLOSE := 0x8
  const PING := 0x9
  const PONG := 0xA

  const HEADER_MIN := 2
  const HEADER_MASK := 4
  const HEADER_MAX := 14
  const CTL_PAYLOAD_MAX := 125
  const CTL_FRAME_MAX := 131

  const TWO_63 := 0x8000_0000_0000_0000
  const TWO_64 := 0x1_0000_0000_0000_0000

  type Nibble = n: int | 0 <= n < 16
  type U64 = n: int | 0 <= n < TWO_64
  type Key = k: seq<byte> | |k| == 4 witness [0, 0, 0, 0]

  const ZERO_KEY: Key := [0, 0, 0, 0]

  /** struct cws_frame.  On a received frame `payload` is not used and `payloadLen` counts
      down; on a frame to send, `payloadLen` is the length of `payload`. */
  datatype Frame = Frame(
    fin: bool, mask: bool, isControl: bool, isUrgent: bool, opcode: Nibble,
    key: Key, payloadLen: U64, payload: seq<byte>)

  const NO_FRAME := Frame(false, false, false, false, 0, ZERO_KEY, 0, [])

  datatype Direction = ClientToServer | ServerToClient

  predicate IsDataOpcode(opcode: nat) {
    opcode == CONTINUATION || opcode == TEXT || opcode == BINARY
  }

  predicate IsControlOpcode(opcode: nat) {
    opcode == CLOSE || opcode == PING || opcode == PONG
  }

  /** frame_validate. */
  function FrameValidate(f: Frame, dir: Direction): int {
    if (dir.ClientToServer? && !f.mask) || (dir.ServerToClient? && f.mask) then -1
    else if IsDataOpcode(f.opcode) then
      if f.isControl then -2
      else if f.payloadLen == TWO_64 - 1 then -3
      else 0
    else if IsControlOpcode(f.opcode) then
      if !f.isControl then -2
      else if !f.fin then -4
      else if CTL_PAYLOAD_MAX < f.payloadLen then -3
      else 0
    else -5
  }

  // ----- The wire format -----

  function Length7(n: nat): nat {
    if n <= 125 then n else if n <= 0xFFFF then 126 else 127
  }

  function LengthExtension(n: nat): seq<byte> {
    if n <= 125 then [] else if n <= 0xFFFF then BigEndian(n, 2) else BigEndian(n, 8)
  }

  /** The header of a frame as section 5.2 of RFC 6455 lays it out. */
  function HeaderBytes(f: Frame): (s: seq<byte>) {
    [(if f.fin then 0x80 else 0) + f.opcode, (if f.mask then 0x80 else 0) + Length7(f.payloadLen)]
    + LengthExtension(f.payloadLen)
    + (if f.mask then f.key else [])
  }

  function Masked(payload: seq<byte>, key: Key): (s: seq<byte>)
    ensures |s| == |payload|
    ensures forall i :: 0 <= i < |s| ==> s[i] == Xor(payload[i], key[i % 4])
  {
    seq(|payload|, i requires 0 <= i < |payload| => Xor(payload[i], key[i % 4]))
  }

  /** What a client puts on the wire for a frame: the key is always there. */
  function WireBytes(f: Frame): (s: seq<byte>) {
    HeaderBytes(f.(mask := true)) + Masked(f.payload, f.key)
  }

  function WireLength(payloadLen: nat): nat {
    payloadLen + if payloadLen <= 125 then 6 else if payloadLen <= 0xFFFF then 8 else 14
  }

  lemma WireBytesLength(f: Frame)
    requires |f.payload| == f.payloadLen
    ensures |WireBytes(f)| == WireLength(f.payloadLen)
  {}

  // ----- Decoding -----

  datatype Decoded = Need(more: nat) | Bad(code: int) | Got(frame: Frame, used: nat)

  function ExtensionSize(length7: nat): nat {
    if length7 == 126 then 2 else if length7 == 127 then 8 else 0
  }

  /** _frame_decode as a function: the number of octets missing, an error code, or the
      header's contents with its size. */
  function Decode(b: seq<byte>): Decoded {
    if |b| < 2 then Need(2 - |b|)
    else if b[0] / 0x10 % 8 != 0 then Bad(-1)
    else if !IsDataOpcode(b[0] % 16) && !IsControlOpcode(b[0] % 16) then Bad(-2)
    else
      var ext := ExtensionSize(b[1] % 0x80);
      if |b| < 2 + ext then Need(2 + ext - |b|)
      else if LengthError(b[2..], ext) != 0 then Bad(LengthError(b[2..], ext))
      else
        var end := 2 + ext + if 0x80 <= b[1] then 4 else 0;
        if |b| < end then Need(end - |b|)
        else
          Got(Frame(0x80 <= b[0], 0x80 <= b[1], IsControlOpcode(b[0] % 16), false, b[0] % 16,
                    if 0x80 <= b[1] then b[2 + ext..end] else ZERO_KEY,
                    LengthValue(b[2..], b[1] % 0x80), []), end)
  }

  function LengthValue(buf: seq<byte>, length7: nat): (n: U64)
    requires length7 < 0x80 && ExtensionSize(length7) <= |buf|
  {
    var ext := ExtensionSize(length7);
    if ext == 0 then length7
    else
      FromBigEndianRoundTrip(buf[..ext]); Pow256Of8(); FromBigEndian(buf[..ext])
  }

  /** Only the shortest form of a length is accepted, and no length of 2^63 or more. */
  function LengthError(buf: seq<byte>, ext: nat): (code: int)
    requires ext <= |buf| && ext in {0, 2, 8}
    ensures code <= 0
  {
    if ext == 2 && FromBigEndian(buf[..2]) < 126 then -3
    else if ext == 8 && 0x80 <= buf[0] then -4
    else if ext == 8 && FromBigEndian(buf[..8]) <= 0xFFFF then -5
    else 0
  }

  lemma Pow256Of8()
    ensures Pow256(2) == 0x1_0000 && Pow256(8) == TWO_64
  {
    assert Pow256(4) == 0x1_0000_0000;
    assert Pow256(6) == 0x1_0000_0000_0000;
  }

  lemma FromBigEndianOf2(s: seq<byte>)
    requires |s| == 2
    ensures FromBigEndian(s) == s[0] as int * 0x100 + s[1]
  {
    assert FromBigEndian(s[..1]) == s[0] as int;
  }

  lemma FromBigEndianOf8(s: seq<byte>)
    requires |s| == 8
    ensures FromBigEndian(s) ==
            s[0] as int * 0x100_0000_0000_0000 + s[1] as int * 0x1_0000_0000_0000
            + s[2] as int * 0x100_0000_0000 + s[3] as int * 0x1_0000_0000
            + s[4] as int * 0x100_0000 + s[5] as int * 0x1_0000 + s[6] as int * 0x100 + s[7]
  {
    assert s[..7][..6] == s[..6] && s[..6][..5] == s[..5] && s[..5][..4] == s[..4];
    assert s[..4][..3] == s[..3] && s[..3][..2] == s[..2] && s[..2][..1] == s[..1];
    assert FromBigEndian(s[..1]) == s[0] as int;
    assert FromBigEndian(s[..2]) == 0x100 * FromBigEndian(s[..1]) + s[1];
    assert FromBigEndian(s[..3]) == 0x100 * FromBigEndian(s[..2]) + s[2];
    assert FromBigEndian(s[..4]) == 0x100 * FromBigEndian(s[..3]) + s[3];
    assert FromBigEndian(s[..5]) == 0x100 * FromBigEndian(s[..4]) + s[4];
    assert FromBigEndian(s[..6]) == 0x100 * FromBigEndian(s[..5]) + s[5];
    assert FromBigEndian(s[..7]) == 0x100 * FromBigEndian(s[..6]) + s[6];
  }

  /** The longer length forms of _frame_decode: an error, or how many octets of the extension
      are missing, or the length. */
  method ReadLength(buf: seq<byte>, length7: nat) returns (rv: int, missing: nat, n: U64)
    requires length7 < 0x80
    ensures |buf| < ExtensionSize(length7) ==> rv == 0 && |buf| + missing == ExtensionSize(length7)
    ensures ExtensionSize(length7) <= |buf| ==> missing == 0 && rv == LengthError(buf, ExtensionSize(length7))
    ensures missing == 0 && rv == 0 ==> n == LengthValue(buf, length7)
  {
    rv, missing, n := 0, 0, length7;
    if length7 == 126 {
      if |buf| < 2 {
        missing := 2 - |buf|;
        return;
      }
      FromBigEndianOf2(buf[..2]);
      n := buf[0] as int * 0x100 + buf[1];
      if n < 126 {
        rv := -3;
      }
    } else if length7 == 127 {
      if |buf| < 8 {
        missing := 8 - |buf|;
        return;
      }
      if 0x80 <= buf[0] {
        rv := -4;
        return;
      }
      FromBigEndianOf8(buf[..8]);
      n := buf[0] as int * 0x100_0000_0000_0000 + buf[1] as int * 0x1_0000_0000_0000
        + buf[2] as int * 0x100_0000_0000 + buf[3] as int * 0x1_0000_0000
        + buf[4] as int * 0x100_0000 + buf[5] as int * 0x1_0000
        + buf[6] as int * 0x100 + buf[7];
      if n <= 0xFFFF {
        rv := -5;
      }
    }
  }

  /** _frame_decode: `frame` is zeroed unless the header is complete and acceptable; `delta`
      is minus the number of octets missing, or the header's size. */
  method FrameDecode(bytes: seq<byte>) returns (rv: int, frame: Frame, delta: int)
    ensures match Decode(bytes)
            case Need(more) => rv == 0 && delta + more == 0 && more > 0 && frame == NO_FRAME
            case Bad(code) => rv == code && rv < 0 && frame == NO_FRAME
            case Got(f, used) => rv == 0 && delta == used && used > 0 && frame == f
  {
    frame, delta, rv := NO_FRAME, 0, 0;
    var len, at: int := |bytes|, 0;
    if len < 2 {
      delta := len - 2;
      return;
    }
    var f := NO_FRAME;
    f := f.(fin := 0x80 <= bytes[0]);
    if bytes[0] / 0x10 % 8 != 0 {
      rv := -1;
      return;
    }
    f := f.(opcode := bytes[0] % 16);
    if IsDataOpcode(f.opcode) {
      f := f.(isControl := false);
    } else if IsControlOpcode(f.opcode) {
      f := f.(isControl := true);
    } else {
      rv := -2;
      return;
    }
    f := f.(mask := 0x80 <= bytes[1], payloadLen := bytes[1] % 0x80);
    at, len := 2, len - 2;
    var missing, n;
    rv, missing, n := ReadLength(bytes[2..], f.payloadLen);
    if rv < 0 || 0 < missing {
      delta := 0 - missing as int;
      return;
    }
    at, len := at + ExtensionSize(f.payloadLen), len - ExtensionSize(f.payloadLen);
    f := f.(payloadLen := n);
    if f.mask {
      if len < 4 {
        delta := len - 4;
        return;
      }
      f := f.(key := bytes[at..at + 4]);
      at := at + 4;
    }
    delta := at;
    frame := f;
  }

  // ----- Encoding -----

  lemma DivideTwice(n: nat)
    ensures n / 0x100 / 0x100 == n / 0x1_0000
    ensures n / 0x1_0000 / 0x100 == n / 0x100_0000
    ensures n / 0x100_0000 / 0x100 == n / 0x1_0000_0000
    ensures n / 0x1_0000_0000 / 0x100 == n / 0x100_0000_0000
    ensures n / 0x100_0000_0000 / 0x100 == n / 0x1_0000_0000_0000
    ensures n / 0x1_0000_0000_0000 / 0x100 == n / 0x100_0000_0000_0000
  {}

  /** `k + 1` octets of n end in its last octet. */
  lemma BigEndianStep(n: nat, k: nat)
    ensures BigEndian(n, k + 1) == BigEndian(n / 0x100, k) + [n % 0x100]
  {}

  lemma BigEndianOf2(n: nat)
    ensures BigEndian(n, 2) == [n / 0x100 % 0x100, n % 0x100]
  {
    BigEndianStep(n, 1);
    BigEndianStep(n / 0x100, 0);
  }

  lemma BigEndianOf8(n: nat)
    ensures BigEndian(n, 8) ==
            [n / 0x100_0000_0000_0000 % 0x100, n / 0x1_0000_0000_0000 % 0x100,
             n / 0x100_0000_0000 % 0x100, n / 0x1_0000_0000 % 0x100,
             n / 0x100_0000 % 0x100, n / 0x1_0000 % 0x100, n / 0x100 % 0x100, n % 0x100]
  {
    DivideTwice(n);
    BigEndianStep(n / 0x100_0000_0000_0000, 0);
    hide BigEndian;
    BigEndianStep(n / 0x1_0000_0000_0000, 1);
    BigEndianStep(n / 0x100_0000_0000, 2);
    BigEndianStep(n / 0x1_0000_0000, 3);
    BigEndianStep(n / 0x100_0000, 4);
    BigEndianStep(n / 0x1_0000, 5);
    BigEndianStep(n / 0x100, 6);
    BigEndianStep(n, 7);
  }

  /** The header part of frame_encode: writes it and returns its size. */
  method WriteHeader(f: Frame, buf: array<byte>) returns (size: nat)
    requires HEADER_MASK + HEADER_MIN <= buf.Length
    requires 125 < f.payloadLen <= 0xFFFF ==> 8 <= buf.Length
    requires 0xFFFF < f.payloadLen ==> 14 <= buf.Length
    modifies buf
    ensures size == |HeaderBytes(f.(mask := true))| <= buf.Length
    ensures buf[..size] == HeaderBytes(f.(mask := true))
    ensures buf[size..] == old(buf[size..])
  {
    hide LengthExtension;
    ghost var b0, b1 := (if f.fin then 0x80 else 0) + f.opcode, 0x80 + Length7(f.payloadLen);
    buf[0] := (if f.fin then 0x80 else 0) + f.opcode;
    buf[1] := 0x80 + Length7(f.payloadLen);
    ghost var before := buf[..];
    size := WriteLength(f.payloadLen, buf);
    ghost var e := LengthExtension(f.payloadLen);
    StartsWith(buf[..2], b0, b1);
    assert buf[..2] == before[..2] == [b0, b1];
    assert buf[..size - 4] == [b0, b1] + e;
    CopyTo(buf, size - 4, f.key);
    assert buf[..size] == buf[..size - 4] + buf[size - 4..size];
  }

  lemma StartsWith(s: seq<byte>, b0: byte, b1: byte)
    requires |s| == 2
    ensures s[0] == b0 && s[1] == b1 <==> s == [b0, b1]
  {}

  /** The longer length forms; returns the size of the header. */
  method WriteLength(n: nat, buf: array<byte>) returns (size: nat)
    requires 6 <= buf.Length && (125 < n <= 0xFFFF ==> 8 <= buf.Length) && (0xFFFF < n ==> 14 <= buf.Length)
    modifies buf
    ensures size == 6 + |LengthExtension(n)| <= buf.Length
    ensures buf[..2] == old(buf[..2]) && buf[2..size - 4] == LengthExtension(n) && buf[size - 4..] == old(buf[size - 4..])
  {
    if n <= 125 {
      size := 6;
    } else if n <= 0xFFFF {
      BigEndianOf2(n);
      hide BigEndian;
      CopyTo(buf, 2, [n / 0x100 % 0x100, n % 0x100]);
      size := 8;
    } else {
      hide BigEndian;
      WriteLength8(n, buf);
      size := 14;
    }
  }

  method WriteLength8(n: nat, buf: array<byte>)
    requires 10 <= buf.Length
    modifies buf
    ensures buf[2..10] == BigEndian(n, 8)
    ensures buf[..2] == old(buf[..2]) && buf[10..] == old(buf[10..])
  {
    BigEndianOf8(n);
    buf[2], buf[3] := n / 0x100_0000_0000_0000 % 0x100, n / 0x1_0000_0000_0000 % 0x100;
    buf[4], buf[5] := n / 0x100_0000_0000 % 0x100, n / 0x1_0000_0000 % 0x100;
    buf[6], buf[7] := n / 0x100_0000 % 0x100, n / 0x1_0000 % 0x100;
    buf[8], buf[9] := n / 0x100 % 0x100, n % 0x100;
  }

  /** frame_encode: 0 when the buffer is too small for header and payload, otherwise the
      whole encoding is written and the octets after it are untouched. */
  method FrameEncode(f: Frame, buf: array<byte>) returns (written: nat)
    requires |f.payload| == f.payloadLen
    modifies buf
    ensures buf.Length < WireLength(f.payloadLen) ==> written == 0
    ensures WireLength(f.payloadLen) <= buf.Length ==>
              && written == WireLength(f.payloadLen)
              && buf[..written] == WireBytes(f)
              && buf[written..] == old(buf[written..])
  {
    if buf.Length < HEADER_MIN + HEADER_MASK + f.payloadLen {
      return 0;
    }
    hide Xor, HeaderBytes;
    var size := WriteHeader(f, buf);
    HeaderSize(f);
    if buf.Length < size + f.payloadLen {
      return 0;
    }
    written := size + f.payloadLen;
    ghost var header, after := buf[..size], buf[written..];
    assert after == old(buf[size..])[f.payloadLen..] == old(buf[written..]);
    WritePayload(f, size, buf);
    assert buf[..written] == buf[..size] + buf[size..written];
  }

  lemma HeaderSize(f: Frame)
    ensures var h := HeaderBytes(f.(mask := true));
            && 6 <= |h| && |h| + f.payloadLen == WireLength(f.payloadLen) && h[|h| - 4..] == f.key
  {
    hide BigEndian;
  }

  /** The masking loop of frame_encode; the key is the end of the header. */
  method WritePayload(f: Frame, size: nat, buf: array<byte>)
    requires |f.payload| == f.payloadLen && 4 <= size && size + f.payloadLen <= buf.Length
    requires buf[..size][size - 4..] == f.key
    modifies buf
    ensures buf[..size] == old(buf[..size]) && buf[size + f.payloadLen..] == old(buf[size + f.payloadLen..])
    ensures buf[size..size + f.payloadLen] == Masked(f.payload, f.key)
  {
    hide Xor;
    ghost var header, after := buf[..size], buf[size + f.payloadLen..];
    for i := 0 to f.payloadLen
      invariant buf[..size] == header
      invariant forall j :: 0 <= j < i ==> buf[size + j] == Xor(f.payload[j], f.key[j % 4])
      invariant buf[size + f.payloadLen..] == after
    {
      assert buf[size - 4 + i % 4] == header[size - 4 + i % 4] == f.key[i % 4];
      buf[size + i] := Xor(f.payload[i], buf[size - 4 + i % 4]);
    }
  }
}
