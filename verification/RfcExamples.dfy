/**
 * The octets of the examples in section 5.7 of RFC 6455, and masking bit by bit (section 5.3).
 */
module RfcExamples {
  import opened Bytes
  import opened Utf8
  import opened Utf8Theory
  import opened Frames
  import opened Events
  import opened ReceiveSpec
  import S = ServerStream
  import opened Fragments
  import opened ClientSpec
  import opened Sha1Words
  import opened Sha1Machine

  const HELLO: seq<byte> := [0x48, 0x65, 0x6C, 0x6C, 0x6F]

  const KEY: Key := [0x37, 0xFA, 0x21, 0x3D]

  /** "Hello" masked with the key of the examples. */
  const HIDDEN: seq<byte> := [0x7F, 0x9F, 0x4D, 0x51, 0x58]

  // ----- Masking -----

  lemma OctetXor(a: byte, b: byte, i: nat)
    requires i < 8
    ensures Bit(Xor(a, b), i) == (Bit(a, i) != Bit(b, i))
  {
    hide Bit;
    XorBit(a, b, 8, i);
  }

  /** Octet j of the payload is combined with octet j modulo 4 of the key, bit by bit. */
  lemma MaskedBits(payload: seq<byte>, key: Key, j: nat, i: nat)
    requires j < |payload| && i < 8
    ensures Bit(Masked(payload, key)[j], i) == (Bit(payload[j], i) != Bit(key[j % 4], i))
  {
    hide Bit, Xor;
    OctetXor(payload[j], key[j % 4], i);
  }

  lemma {:induction false} XorOfSmall(a: nat, b: nat, n: nat, m: nat)
    requires a < Pow2(n) && b < Pow2(n) && n <= m
    ensures XorBits(a, b, m) == XorBits(a, b, n)
  {
    if n == 0 {
      if m > 0 { XorOfSmall(a, b, 0, m - 1); }
    } else {
      XorOfSmall(a / 2, b / 2, n - 1, m - 1);
    }
  }

  /** Octets written out, by way of machine words. */
  lemma XorOfOctets(x: bv32, y: bv32, a: byte, b: byte, c: byte)
    requires Number(x) == a as int && Number(y) == b as int && Number(XorWord(x, y)) == c as int
    ensures Xor(a, b) == c
  {
    hide Number, XorWord, XorBits, Pow2;
    Pow2Of8();
    XorIs(x, y);
    XorOfSmall(a, b, 8, 32);
  }

  lemma HelloMasked()
    ensures Masked(HELLO, KEY) == HIDDEN
  {
    hide Xor;
    HelloXor();
  }

  lemma HelloXor()
    ensures Xor(0x48, 0x37) == 0x7F && Xor(0x65, 0xFA) == 0x9F && Xor(0x6C, 0x21) == 0x4D && Xor(0x6C, 0x3D) == 0x51
    ensures Xor(0x6F, 0x37) == 0x58
  {
    hide Number, Xor;
    NumberIs(0x21);
    NumberIs(0x37);
    NumberIs(0x3D);
    NumberIs(0x48);
    NumberIs(0x4D);
    NumberIs(0x51);
    NumberIs(0x58);
    NumberIs(0x65);
    NumberIs(0x6C);
    NumberIs(0x6F);
    NumberIs(0x7F);
    NumberIs(0x9F);
    NumberIs(0xFA);
    XorOfOctets(0x48, 0x37, 0x48, 0x37, 0x7F);
    XorOfOctets(0x65, 0xFA, 0x65, 0xFA, 0x9F);
    XorOfOctets(0x6C, 0x21, 0x6C, 0x21, 0x4D);
    XorOfOctets(0x6C, 0x3D, 0x6C, 0x3D, 0x51);
    XorOfOctets(0x6F, 0x37, 0x6F, 0x37, 0x58);
  }

  // ----- From the server -----

  function ServerFrame(fin: bool, opcode: Nibble, payload: seq<byte>): Frame
    requires |payload| < TWO_63
  {
    Frame(fin, false, IsControlOpcode(opcode), false, opcode, ZERO_KEY, |payload|, payload)
  }

  lemma OneFrame(f: Frame)
    requires S.LegalFrame(NoStream, f) && f.opcode != CLOSE
    ensures Receive(INITIAL, S.Octets(f)).events == EventsOf(f)
  {
    assert S.Idle(INITIAL, NoStream);
    hide S.LegalFrame, S.Octets, Receive, EventsOf, S.NextType;
    var r := FrameExactly(INITIAL, NoStream, f, []);
    ReceiveUnfold(r, []);
    assert S.Octets(f) + [] == S.Octets(f) && EventsOf(f) + [] == EventsOf(f);
  }

  /** A text message in one frame. */
  lemma TextFromServer()
    ensures Receive(INITIAL, [0x81, 0x05] + HELLO).events == [Fragment(CWS_TEXT.(first := true, last := true), HELLO)]
  {
    assert S.Octets(ServerFrame(true, TEXT, HELLO)) == [0x81, 0x05] + HELLO;
    AsciiIsText(HELLO);
    OneFrame(ServerFrame(true, TEXT, HELLO));
  }

  const HEL := ServerFrame(false, TEXT, [0x48, 0x65, 0x6C])

  const LO := ServerFrame(true, CONTINUATION, [0x6C, 0x6F])

  lemma FirstPart()
    ensures S.Octets(HEL) == [0x01, 0x03, 0x48, 0x65, 0x6C] && S.LegalFrame(NoStream, HEL)
  {
    AsciiIsText(HEL.payload);
    hide IsText;
  }

  lemma SecondPart()
    ensures S.Octets(LO) == [0x80, 0x02, 0x6C, 0x6F] && S.LegalFrame(TextStream, LO)
  {
    AsciiIsText(LO.payload);
    hide IsText;
  }

  /** The same message in two. */
  lemma FragmentsFromServer()
    ensures Receive(INITIAL, [0x01, 0x03, 0x48, 0x65, 0x6C] + [0x80, 0x02, 0x6C, 0x6F]).events
         == [Fragment(CWS_TEXT.(first := true), [0x48, 0x65, 0x6C]), Fragment(CWS_CONT.(last := true), [0x6C, 0x6F])]
  {
    hide S.LegalFrame, S.Octets, Receive;
    FirstPart();
    SecondPart();
    TwoFrames(HEL, LO);
  }

  lemma TwoFrames(f: Frame, g: Frame)
    requires S.LegalFrame(NoStream, f) && f.opcode != CLOSE && S.LegalFrame(S.NextType(NoStream, f), g) && g.opcode != CLOSE
    ensures Receive(INITIAL, S.Octets(f) + S.Octets(g)).events == EventsOf(f) + EventsOf(g)
  {
    assert S.Idle(INITIAL, NoStream);
    hide S.LegalFrame, S.Octets, Receive, EventsOf, S.NextType;
    var r := FrameExactly(INITIAL, NoStream, f, S.Octets(g));
    var r' := FrameExactly(r, S.NextType(NoStream, f), g, []);
    ReceiveUnfold(r', []);
    assert S.Octets(g) + [] == S.Octets(g) && EventsOf(g) + [] == EventsOf(g);
  }

  lemma PingFromServer()
    ensures Receive(INITIAL, [0x89, 0x05] + HELLO).events == [Ping(HELLO)]
  {
    assert S.Octets(ServerFrame(true, PING, HELLO)) == [0x89, 0x05] + HELLO;
    OneFrame(ServerFrame(true, PING, HELLO));
  }

  /** A binary message of 256 octets, with a length of two octets. */
  lemma BinaryOf256(data: seq<byte>)
    requires |data| == 256
    ensures Receive(INITIAL, [0x82, 0x7E, 0x01, 0x00] + data).events == [Fragment(CWS_BINARY.(first := true, last := true), data)]
  {
    assert BigEndian(256, 2) == [1, 0] by { assert BigEndian(1, 1) == [1]; }
    assert S.Octets(ServerFrame(true, BINARY, data)) == [0x82, 0x7E, 0x01, 0x00] + data;
    OneFrame(ServerFrame(true, BINARY, data));
  }

  /** One of 64 kilobytes, with a length of eight. */
  lemma BinaryOf65536(data: seq<byte>)
    requires |data| == 65536
    ensures Receive(INITIAL, [0x82, 0x7F, 0, 0, 0, 0, 0, 1, 0, 0] + data).events
         == [Fragment(CWS_BINARY.(first := true, last := true), data)]
  {
    hide BigEndian;
    EightOctets();
    assert S.Octets(ServerFrame(true, BINARY, data)) == [0x82, 0x7F, 0, 0, 0, 0, 0, 1, 0, 0] + data;
    hide S.Octets, Receive;
    OneFrame(ServerFrame(true, BINARY, data));
  }

  lemma EightOctets()
    ensures BigEndian(65536, 8) == [0, 0, 0, 0, 0, 1, 0, 0]
  {
    assert BigEndian(0, 5) == [0, 0, 0, 0, 0];
    assert BigEndian(256, 7) == [0, 0, 0, 0, 0, 1, 0];
  }

  // ----- To the server -----

  /** The text message, masked. */
  lemma TextToServer(maxPayload: nat)
    requires 5 <= maxPayload
    ensures var r := SendBlkText(Opened(maxPayload), HELLO, [Draw(KEY, true)]);
            r.code == OK && |r.conn.queue| == 1 && r.conn.queue[0].bytes == [0x81, 0x85] + KEY + HIDDEN
  {
    AsciiIsText(HELLO);
    HelloMasked();
    hide WholePrefix, IsText, Masked;
    WireOf(Frame(true, true, false, false, TEXT, KEY, 5, HELLO), 0x81);
  }

  /** The pong that answers the ping. */
  lemma PongToServer(maxPayload: nat)
    ensures var r := FrameSenderControl(Opened(maxPayload), CTRL_PONG, HELLO, Draw(KEY, true));
            r.code == OK && |r.conn.queue| == 1 && r.conn.queue[0].bytes == [0x8A, 0x85] + KEY + HIDDEN
  {
    HelloMasked();
    hide Masked;
    WireOf(Frame(true, true, true, false, PONG, KEY, 5, HELLO), 0x8A);
  }

  lemma WireOf(f: Frame, first: byte)
    requires f.fin && f.key == KEY && f.payload == HELLO && f.payloadLen == 5 && first as int == 0x80 + f.opcode
    ensures WireBytes(f) == [first, 0x85] + KEY + HIDDEN
  {
    HelloMasked();
    hide Masked;
  }
}
