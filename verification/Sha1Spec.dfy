/**
 * SHA-1 as FIPS 180-2 defines it: the compression of one block (section 6.1.2), and the
 * padding of a message of any number of bits (section 5.1.1).
 */
module Sha1Spec {
  import opened Bytes

  // ----- Compression -----

  const TWO_32 := 0x1_0000_0000

  /** A 32-bit word; the bitwise operators of C are written out on numbers. */
  type Word = w: int | 0 <= w < TWO_32

  type Hash = h: seq<Word> | |h| == 5 witness [0, 0, 0, 0, 0]

  type Block = b: seq<byte> | |b| == 64 witness seq(64, _ => 0)

  const START: Hash := [0x67452301, 0xEFCDAB89, 0x98BADCFE, 0x10325476, 0xC3D2E1F0]

  lemma Pow2Of32()
    ensures Pow2(32) == TWO_32
  {
    assert Pow2(8) == 256 && Pow2(16) == 0x1_0000 && Pow2(24) == 0x100_0000;
  }

  function Xor32(x: Word, y: Word): Word {
    XorBitsBound(x, y, 32);
    Pow2Of32();
    XorBits(x, y, 32)
  }

  function AndBits(x: nat, y: nat, bits: nat): nat {
    if bits == 0 then 0 else 2 * AndBits(x / 2, y / 2, bits - 1) + (x % 2) * (y % 2)
  }

  lemma {:induction false} AndBitsBound(x: nat, y: nat, bits: nat)
    ensures AndBits(x, y, bits) < Pow2(bits)
  {
    if bits > 0 { AndBitsBound(x / 2, y / 2, bits - 1); }
  }

  function And32(x: Word, y: Word): Word {
    AndBitsBound(x, y, 32);
    Pow2Of32();
    AndBits(x, y, 32)
  }

  function Not32(x: Word): Word {
    TWO_32 - 1 - x
  }

  /** Circular left shift: the low bits that stay move up, the high bits come in below. */
  function RotL(bits: nat, word: Word): Word
    requires bits == 1 || bits == 5 || bits == 30
  {
    if bits == 1 then word % 0x8000_0000 * 2 + word / 0x8000_0000
    else if bits == 5 then word % 0x800_0000 * 0x20 + word / 0x800_0000
    else word % 4 * 0x4000_0000 + word / 4
  }

  function Ch(x: Word, y: Word, z: Word): Word {
    Xor32(And32(x, y), And32(Not32(x), z))
  }

  function Maj(x: Word, y: Word, z: Word): Word {
    Xor32(Xor32(And32(x, y), And32(x, z)), And32(y, z))
  }

  function Parity(x: Word, y: Word, z: Word): Word {
    Xor32(Xor32(x, y), z)
  }

  /** The function and the constant of step t. */
  function F(t: nat, x: Word, y: Word, z: Word): Word {
    if t < 20 then Ch(x, y, z) else if t < 40 then Parity(x, y, z) else if t < 60 then Maj(x, y, z) else Parity(x, y, z)
  }

  function K(t: nat): Word {
    if t < 20 then 0x5A827999 else if t < 40 then 0x6ED9EBA1 else if t < 60 then 0x8F1BBCDC else 0xCA62C1D6
  }

  /** The big-endian word of four octets. */
  function WordOf(s: seq<byte>): Word
    requires |s| == 4
  {
    s[0] as int * 0x100_0000 + s[1] as int * 0x1_0000 + s[2] as int * 0x100 + s[3]
  }

  /** The word that follows in the message schedule. */
  function NextWord(w: seq<Word>): Word
    requires 16 <= |w|
  {
    var t := |w|;
    RotL(1, Xor32(Xor32(Xor32(w[t - 3], w[t - 8]), w[t - 14]), w[t - 16]))
  }

  /** The first n words of the message schedule. */
  function Schedule(block: Block, n: nat): (w: seq<Word>)
    ensures |w| == n
  {
    if n == 0 then []
    else
      var w := Schedule(block, n - 1);
      w + [if n <= 16 then WordOf(block[4 * (n - 1)..4 * n]) else NextWord(w)]
  }

  /** The working variables. */
  datatype Regs = Regs(a: Word, b: Word, c: Word, d: Word, e: Word)

  function Round(r: Regs, t: nat, word: Word): Regs {
    Regs((RotL(5, r.a) + F(t, r.b, r.c, r.d) + r.e + word + K(t)) % TWO_32, r.a, RotL(30, r.b), r.c, r.d)
  }

  function Rounds(r: Regs, w: seq<Word>, n: nat): Regs
    requires n <= |w|
  {
    if n == 0 then r else Round(Rounds(r, w, n - 1), n - 1, w[n - 1])
  }

  function Registers(h: Hash): Regs {
    Regs(h[0], h[1], h[2], h[3], h[4])
  }

  function Add32(x: Word, y: Word): Word {
    (x + y) % TWO_32
  }

  function AddRegs(h: Hash, r: Regs): Hash {
    [Add32(h[0], r.a), Add32(h[1], r.b), Add32(h[2], r.c), Add32(h[3], r.d), Add32(h[4], r.e)]
  }

  function Compress(h: Hash, block: Block): Hash {
    AddRegs(h, Rounds(Registers(h), Schedule(block, 80), 80))
  }

  predicate WholeBlocks(m: seq<byte>) {
    |m| % 64 == 0
  }

  /** The compression of block after block. */
  function Fold(m: seq<byte>): Hash
    requires WholeBlocks(m)
  {
    if m == [] then START else Compress(Fold(m[..|m| - 64]), m[|m| - 64..])
  }

  /** The words of a hash, the most significant octet first. */
  function Digest(h: seq<Word>): seq<byte> {
    if h == [] then [] else Digest(h[..|h| - 1]) + BigEndian(h[|h| - 1], 4)
  }

  // ----- Padding -----

  /** How many zero octets bring n octets and the marked one to 8 short of a block's end. */
  function ZeroCount(n: nat): nat {
    (119 - n % 64) % 64
  }

  function Zeros(n: nat): (s: seq<byte>)
    ensures |s| == n
  {
    seq(n, _ => 0)
  }

  /** The message of whole octets, the octet holding the last bits and the mark, and the
      length in bits. */
  function Padded(m: seq<byte>, pad: byte, length: nat): (p: seq<byte>)
    ensures WholeBlocks(p)
  {
    m + [pad] + Zeros(ZeroCount(|m|)) + BigEndian(length, 8)
  }

  // ----- Bits -----

  /** The last k binary digits of n. */
  function Binary(n: nat, k: nat): (b: seq<bool>)
    ensures |b| == k
  {
    if k == 0 then [] else Binary(n / 2, k - 1) + [n % 2 == 1]
  }

  function Bits(s: seq<byte>): (b: seq<bool>)
    ensures |b| == 8 * |s|
  {
    if s == [] then [] else Bits(s[..|s| - 1]) + Binary(s[|s| - 1], 8)
  }

  function Falses(n: nat): (b: seq<bool>)
    ensures |b| == n
  {
    seq(n, _ => false)
  }

  predicate EndsBeforeLength(n: nat) {
    n % 512 == 448
  }

  /** Section 5.1.1 of FIPS 180-2: a one, as few zeros as possible, and the length. */
  ghost predicate IsPadding(bits: seq<bool>, padded: seq<bool>) {
    exists k: nat {:trigger Falses(k)} ::
      && EndsBeforeLength(|bits| + 1 + k)
      && (forall n: nat :: |bits| + 1 <= n < |bits| + 1 + k ==> !EndsBeforeLength(n))
      && padded == bits + [true] + Falses(k) + Binary(|bits|, 64)
  }

  lemma {:induction false} BinarySplit(n: nat, q: nat, r: nat, j: nat, i: nat)
    requires Joins(n, q, Pow2(i), r)
    ensures Binary(n, j + i) == Binary(q, j) + Binary(r, i)
    decreases i
  {
    hide Joins;
    if i == 0 {
      JoinsNothing(n, q, r);
    } else {
      JoinsShorter(n, q, Pow2(i - 1), 2, r);
      hide Pow2;
      BinarySplit(n / 2, q, r / 2, j, i - 1);
      OneMoreDigit(n, j + i - 1);
      OneMoreDigit(r, i - 1);
      hide Binary;
      assert Binary(q, j) + (Binary(r / 2, i - 1) + [r % 2 == 1]) == Binary(q, j) + Binary(r / 2, i - 1) + [r % 2 == 1];
    }
  }

  lemma OneMoreDigit(n: nat, k: nat)
    ensures Binary(n, k + 1) == Binary(n / 2, k) + [n % 2 == 1]
  {}

  lemma NoBits(n: nat)
    ensures Binary(n, 0) == [] && Bits([]) == []
  {}

  /** The big-endian octets of a number spell its binary digits. */
  lemma {:induction false} BigEndianBits(n: nat, k: nat)
    ensures Bits(BigEndian(n, k)) == Binary(n, 8 * k)
  {
    hide Pow2, Binary;
    if k == 0 {
      NoBits(n);
    } else {
      BigEndianBits(n / 256, k - 1);
      Pow2Of8();
      BinarySplit(n, n / 256, n % 256, 8 * (k - 1), 8);
      var s := BigEndian(n, k);
      assert s[..k - 1] == BigEndian(n / 256, k - 1) && s[k - 1] == n % 256;
      hide BigEndian;
    }
  }

  lemma {:induction false} BitsConcat(s: seq<byte>, t: seq<byte>)
    ensures Bits(s + t) == Bits(s) + Bits(t)
  {
    if t == [] {
      assert s + t == s;
    } else {
      var n := |t| - 1;
      assert (s + t)[..|s + t| - 1] == s + t[..n];
      BitsConcat(s, t[..n]);
    }
  }

  lemma {:induction false} BitsOfZeros(n: nat)
    ensures Bits(Zeros(n)) == Falses(8 * n)
  {
    if n > 0 {
      assert Zeros(n)[..n - 1] == Zeros(n - 1);
      BitsOfZeros(n - 1);
      BinaryOfZero(8);
    }
  }

  lemma {:induction false} BinaryOfZero(k: nat)
    ensures Binary(0, k) == Falses(k)
  {
    if k > 0 { BinaryOfZero(k - 1); }
  }

  /** The first n bits of an octet. */
  function High(last: byte, n: nat): nat
    requires n < 8
  {
    Pow2Table();
    last / Pow2(8 - n)
  }

  /** The first n bits of an octet, a mark, and zeros. */
  function PadByte(last: byte, n: nat): byte
    requires n < 8
  {
    Pow2Table();
    High(last, n) * Pow2(8 - n) + Pow2(7 - n)
  }

  lemma Pow2Table()
    ensures Pow2(0) == 1 && Pow2(1) == 2 && Pow2(2) == 4 && Pow2(3) == 8 && Pow2(4) == 16
    ensures Pow2(5) == 32 && Pow2(6) == 64 && Pow2(7) == 128 && Pow2(8) == 256
  {}

  lemma BitsOfPad(last: byte, n: nat)
    requires n < 8
    ensures Binary(PadByte(last, n), 8) == Binary(High(last, n), n) + ([true] + Falses(7 - n))
  {
    Pow2Table();
    BinarySplit(PadByte(last, n), High(last, n), Pow2(7 - n), n, 8 - n);
    BinarySplit(Pow2(7 - n), 1, 0, 1, 7 - n);
    BinaryOfZero(7 - n);
    assert Binary(1, 1) == [true] by { assert Binary(0, 0) == []; }
  }

  /** A message of whole octets followed by n more bits. */
  function MessageBits(m: seq<byte>, last: byte, n: nat): (b: seq<bool>)
    requires n < 8
    ensures |b| == 8 * |m| + n
  {
    Bits(m) + Binary(High(last, n), n)
  }

  /** The octets that are hashed spell the padded message of FIPS 180-2. */
  lemma PaddingIsFips(m: seq<byte>, last: byte, n: nat)
    requires n < 8
    ensures IsPadding(MessageBits(m, last, n), Bits(Padded(m, PadByte(last, n), 8 * |m| + n)))
  {
    hide Binary, Bits, High, Pow2, PadByte, Padded;
    var pad, z, length, high := PadByte(last, n), ZeroCount(|m|), 8 * |m| + n, Binary(High(last, n), n);
    var k := 7 - n + 8 * z;
    PaddedBits(m, pad, z, length);
    BitsOfPad(last, n);
    assert MessageBits(m, last, n) == Bits(m) + high;
    ZerosAreFewest(|m|, n);
    hide *;
    Regroup(Bits(m), high, 7 - n, 8 * z, Binary(length, 64));
    AsPadding(MessageBits(m, last, n), k, Bits(Padded(m, pad, length)));
  }

  /** The same for a message of whole octets, which is all that the library hashes. */
  lemma OctetPaddingIsFips(m: seq<byte>)
    ensures IsPadding(Bits(m), Bits(Padded(m, 0x80, 8 * |m|)))
  {
    NoMoreBits(m);
    hide *;
    PaddingIsFips(m, 0, 0);
  }

  lemma NoMoreBits(m: seq<byte>)
    ensures PadByte(0, 0) == 0x80 && MessageBits(m, 0, 0) == Bits(m)
  {
    Pow2Table();
    hide Bits, Pow2;
    assert Binary(High(0, 0), 0) == [];
    assert Bits(m) + [] == Bits(m);
  }

  /** There is only one padding of a message. */
  lemma PaddingIsUnique(bits: seq<bool>, p: seq<bool>, q: seq<bool>)
    requires IsPadding(bits, p) && IsPadding(bits, q)
    ensures p == q && |p| % 512 == 0
  {
    hide Binary;
    var j: nat :| EndsBeforeLength(|bits| + 1 + j) && p == bits + [true] + Falses(j) + Binary(|bits|, 64)
                  && forall n: nat :: |bits| + 1 <= n < |bits| + 1 + j ==> !EndsBeforeLength(n);
    var k: nat :| EndsBeforeLength(|bits| + 1 + k) && q == bits + [true] + Falses(k) + Binary(|bits|, 64)
                  && forall n: nat :: |bits| + 1 <= n < |bits| + 1 + k ==> !EndsBeforeLength(n);
    assert j == k by { hide Falses; }
  }

  lemma AsPadding(bits: seq<bool>, k: nat, padded: seq<bool>)
    requires EndsBeforeLength(|bits| + 1 + k)
    requires forall n: nat :: |bits| + 1 <= n < |bits| + 1 + k ==> !EndsBeforeLength(n)
    requires padded == bits + [true] + Falses(k) + Binary(|bits|, 64)
    ensures IsPadding(bits, padded)
  {
    hide EndsBeforeLength, Binary;
  }

  lemma Regroup(a: seq<bool>, b: seq<bool>, c: nat, d: nat, e: seq<bool>)
    ensures a + (b + ([true] + Falses(c))) + Falses(d) + e == a + b + [true] + Falses(c + d) + e
  {}

  lemma PaddedBits(m: seq<byte>, pad: byte, z: nat, length: nat)
    requires z == ZeroCount(|m|)
    ensures Bits(Padded(m, pad, length)) == Bits(m) + Binary(pad, 8) + Falses(8 * z) + Binary(length, 64)
  {
    BitsConcat(m + [pad] + Zeros(z), BigEndian(length, 8));
    BitsConcat(m + [pad], Zeros(z));
    BitsConcat(m, [pad]);
    BigEndianBits(length, 8);
    BitsOfZeros(z);
    assert Bits([pad]) == Binary(pad, 8) by { assert [pad][..0] == []; assert Bits([]) == []; }
  }

  lemma ZerosAreFewest(octets: nat, n: nat)
    requires n < 8
    ensures var k := 7 - n + 8 * ZeroCount(octets);
            && EndsBeforeLength(8 * octets + n + 1 + k)
            && forall x: nat :: 8 * octets + n + 1 <= x < 8 * octets + n + 1 + k ==> !EndsBeforeLength(x)
  {
    var z := ZeroCount(octets);
    var q := FillsUp(octets);
    assert 8 * octets + n + 1 + (7 - n + 8 * z) == 512 * q + 448;
    hide ZeroCount;
    forall x: nat | 8 * octets + n + 1 <= x <= 512 * q + 448 ensures EndsBeforeLength(x) <==> x == 512 * q + 448 {
      LastPlace(q, x);
    }
  }

  lemma FillsUp(octets: nat) returns (q: nat)
    ensures octets + 1 + ZeroCount(octets) == 64 * q + 56 && 0 <= ZeroCount(octets) < 64
  {
    var a, b := octets / 64, octets % 64;
    assert octets == 64 * a + b;
    q := if b <= 55 then a else a + 1;
  }

  lemma LastPlace(q: nat, x: nat)
    requires 512 * q - 64 < x <= 512 * q + 448
    ensures EndsBeforeLength(x) <==> x == 512 * q + 448
  {
    if x < 512 * q { assert x == 512 * (q - 1) + (x - 512 * (q - 1)); } else { assert x == 512 * q + (x - 512 * q); }
  }
}
