/**
 * The header codec is a bijection, and it can be fed its header in pieces.
 */
module FrameTheory {
  import opened Bytes
  import opened Frames

  /** A frame whose header can be sent and received as it is. */
  predicate Encodable(f: Frame) {
    && (IsDataOpcode(f.opcode) || IsControlOpcode(f.opcode))
    && f.payloadLen < TWO_63
  }

  /** What a receiver can learn of a frame from its header. */
  function OnWire(f: Frame): Frame {
    f.(isControl := IsControlOpcode(f.opcode), isUrgent := false,
       key := if f.mask then f.key else ZERO_KEY, payload := [])
  }

  lemma LengthRoundTrip(n: nat, rest: seq<byte>)
    requires n < TWO_63
    ensures var l7, e := Length7(n), LengthExtension(n);
            && ExtensionSize(l7) == |e| && l7 < 0x80
            && LengthError(e + rest, |e|) == 0 && LengthValue(e + rest, l7) == n
  {
    var e := LengthExtension(n);
    assert (e + rest)[..|e|] == e;
    if 0xFFFF < n {
      LongLength(n);
      assert (e + rest)[0] == e[0];
    } else if 125 < n {
      Pow256Of8();
      BigEndianRoundTrip(n, 2);
    }
  }

  lemma LongLength(n: nat)
    requires 0xFFFF < n < TWO_63
    ensures FromBigEndian(BigEndian(n, 8)) == n && BigEndian(n, 8)[0] < 0x80
  {
    BigEndianOf8(n);
    Pow256Of8();
    hide BigEndian, FromBigEndian;
    BigEndianRoundTrip(n, 8);
  }

  lemma HeaderParts(f: Frame, rest: seq<byte>)
    requires Encodable(f)
    ensures var b, e, tail := HeaderBytes(f) + rest, LengthExtension(f.payloadLen), if f.mask then f.key else [];
            && |HeaderBytes(f)| == 2 + |e| + |tail| && |tail| == (if f.mask then 4 else 0)
            && b[0] == HeaderBytes(f)[0] && b[1] == HeaderBytes(f)[1]
            && b[2..] == e + (tail + rest)
            && b[2 + |e|..2 + |e| + |tail|] == tail
  {
    hide LengthExtension, Length7;
  }

  /** The first two octets hold the flags, the opcode and the short length. */
  lemma FirstOctets(f: Frame)
    requires Encodable(f) && Length7(f.payloadLen) < 0x80
    ensures var h := HeaderBytes(f);
            && h[0] % 16 == f.opcode && h[0] / 0x10 % 8 == 0 && (0x80 <= h[0] <==> f.fin)
            && h[1] % 0x80 == Length7(f.payloadLen) && (0x80 <= h[1] <==> f.mask)
  {
    hide LengthExtension, Length7;
  }

  /** Decoding what was encoded gives the frame back and stops at its payload. */
  lemma DecodeEncoded(f: Frame, rest: seq<byte>)
    requires Encodable(f)
    ensures Decode(HeaderBytes(f) + rest) == Got(OnWire(f), |HeaderBytes(f)|)
  {
    LengthRoundTrip(f.payloadLen, (if f.mask then f.key else []) + rest);
    HeaderParts(f, rest);
    FirstOctets(f);
    hide LengthValue, LengthError, LengthExtension, Length7, HeaderBytes;
  }

  lemma AcceptedLengthIsShortest(buf: seq<byte>, length7: nat)
    requires length7 < 0x80 && ExtensionSize(length7) <= |buf|
    requires LengthError(buf, ExtensionSize(length7)) == 0
    ensures var n := LengthValue(buf, length7);
            n < TWO_63 && Length7(n) == length7 && LengthExtension(n) == buf[..ExtensionSize(length7)]
  {
    var ext := ExtensionSize(length7);
    if ext != 0 {
      FromBigEndianRoundTrip(buf[..ext]);
      Pow256Of8();
    }
    if ext == 8 {
      FromBigEndianOf8(buf[..8]);
      assert buf[..8][0] < 0x80;
    }
  }

  /** Encoding what was accepted gives the octets back: there is one header per frame. */
  lemma EncodeDecoded(b: seq<byte>)
    requires Decode(b).Got?
    ensures var Got(f, used) := Decode(b);
            Encodable(f) && f == OnWire(f) && used <= |b| && HeaderBytes(f) == b[..used]
  {
    hide LengthValue, LengthError, LengthExtension, Length7;
    var Got(f, used) := Decode(b);
    var ext := ExtensionSize(b[1] % 0x80);
    AcceptedLengthIsShortest(b[2..], b[1] % 0x80);
    assert LengthExtension(f.payloadLen) == b[2..][..ext] == b[2..2 + ext];
    assert b[..used] == b[..2] + b[2..2 + ext] + b[2 + ext..used];
    assert HeaderBytes(f)[0] == b[0] && HeaderBytes(f)[1] == b[1];
  }

  // ----- Incremental decoding -----

  lemma SameSlice(b: seq<byte>, more: seq<byte>, i: nat, j: nat)
    requires i <= j <= |b|
    ensures (b + more)[i..j] == b[i..j] && (b + more)[i..][..j - i] == b[i..][..j - i]
  {}

  /** An extension is judged by its own octets. */
  lemma SameLength(x: seq<byte>, y: seq<byte>, l7: nat)
    requires ExtensionSize(l7) <= |x| && ExtensionSize(l7) <= |y| && x[..ExtensionSize(l7)] == y[..ExtensionSize(l7)]
    ensures LengthError(x, ExtensionSize(l7)) == LengthError(y, ExtensionSize(l7))
    ensures l7 < 0x80 ==> LengthValue(x, l7) == LengthValue(y, l7)
  {
    if ExtensionSize(l7) == 8 { assert x[..8][0] == y[..8][0]; }
    hide FromBigEndian;
  }

  /** An answer other than "more" does not change when more octets follow. */
  lemma DecodeIsStable(b: seq<byte>, more: seq<byte>)
    requires !Decode(b).Need?
    ensures Decode(b + more) == Decode(b)
  {
    var c := b + more;
    assert c[0] == b[0] && c[1] == b[1];
    if !Decode(b).Bad? || Decode(b).code < -2 {
      var ext := ExtensionSize(b[1] % 0x80);
      assert 2 + ext <= |b|;
      SameSlice(b, more, 2, 2 + ext);
      SameLength(c[2..], b[2..], b[1] % 0x80);
      hide LengthValue, LengthError;
      if Decode(b).Got? && 0x80 <= b[1] { SameSlice(b, more, 2 + ext, 2 + ext + 4); }
    }
  }

  /** While fewer octets arrive than were asked for, the answer is to ask for the rest: no
      error is reported early, and the whole request stays within a header's size. */
  lemma DecodeDeficit(b: seq<byte>, more: seq<byte>)
    requires Decode(b).Need?
    ensures |b| + Decode(b).more <= HEADER_MAX
    ensures |more| < Decode(b).more ==> Decode(b + more) == Need(Decode(b).more - |more|)
  {
    var c := b + more;
    if 2 <= |b| {
      assert c[0] == b[0] && c[1] == b[1];
      var ext := ExtensionSize(b[1] % 0x80);
      if 2 + ext <= |b| {
        SameSlice(b, more, 2, 2 + ext);
        SameLength(c[2..], b[2..], b[1] % 0x80);
      }
    }
    hide LengthValue, LengthError;
  }

  /** The octets asked for always belong to the header: no payload octet is ever taken. */
  lemma DeficitStaysInHeader(b: seq<byte>, more: seq<byte>)
    requires Decode(b).Need? && Decode(b + more).Got?
    ensures |b| + Decode(b).more <= Decode(b + more).used
    ensures |more| == Decode(b).more ==> Decode(b + more).used == |b + more|
  {
    var c := b + more;
    if 2 <= |b| {
      assert c[0] == b[0] && c[1] == b[1];
    }
    if |more| < Decode(b).more {
      DecodeDeficit(b, more);
    }
  }

  // ----- Masking -----

  lemma MaskingIsInvolutive(payload: seq<byte>, key: Key)
    ensures Masked(Masked(payload, key), key) == payload
  {
    forall i | 0 <= i < |payload| ensures Masked(Masked(payload, key), key)[i] == payload[i] {
      XorInvolutive(payload[i], key[i % 4]);
    }
  }

  // ----- Validation -----

  /** Sections 5.1, 5.2 and 5.5 of RFC 6455: who masks, which opcodes exist, and that control
      frames are neither fragmented nor longer than 125 octets. */
  predicate ValidByRfc(f: Frame, dir: Direction) {
    && f.mask == dir.ClientToServer?
    && (IsDataOpcode(f.opcode) || IsControlOpcode(f.opcode))
    && (IsControlOpcode(f.opcode) ==> f.fin && f.payloadLen <= 125)
  }

  lemma ReceivedIsValid(b: seq<byte>, dir: Direction)
    requires Decode(b).Got?
    ensures FrameValidate(Decode(b).frame, dir) == 0 <==> ValidByRfc(Decode(b).frame, dir)
  {
    EncodeDecoded(b);
  }
}
