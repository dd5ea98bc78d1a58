/**
 * Octets and octet strings.
 *
 * An octet is a mathematical integer below 256: masks and shifts of the C code are
 * written as `/` and `%` by powers of two, which is what they compute on values
 * that are not negative.
 */
module Bytes {
  type byte = b: int | 0 <= b < 256

  datatype Option<+T> = None | Some(value: T)

  function Min(a: nat, b: nat): nat {
    if a < b then a else b
  }

  /** The exclusive or of the low `bits` bits of two numbers, one bit at a time. */
  function XorBits(a: nat, b: nat, bits: nat): (r: nat) {
    if bits == 0 then 0
    else 2 * XorBits(a / 2, b / 2, bits - 1) + (a % 2 + b % 2) % 2
  }

  function Pow2(n: nat): nat {
    if n == 0 then 1 else 2 * Pow2(n - 1)
  }

  lemma {:induction false} XorBitsBound(a: nat, b: nat, bits: nat)
    ensures XorBits(a, b, bits) < Pow2(bits)
  {
    if bits > 0 { XorBitsBound(a / 2, b / 2, bits - 1); }
  }

  lemma {:induction false} XorBitsInvolutive(a: nat, b: nat, bits: nat)
    requires a < Pow2(bits)
    ensures XorBits(XorBits(a, b, bits), b, bits) == a
  {
    if bits > 0 {
      XorBitsInvolutive(a / 2, b / 2, bits - 1);
      var x := XorBits(a / 2, b / 2, bits - 1);
      var low := (a % 2 + b % 2) % 2;
      HalfOf(x, low);
      assert XorBits(a, b, bits) == 2 * x + low;
      LowBit(a, b);
      hide Pow2;
    }
  }

  lemma LowBit(a: nat, b: nat)
    ensures ((a % 2 + b % 2) % 2 + b % 2) % 2 == a % 2 && 2 * (a / 2) + a % 2 == a
  {
  }

  /** A number moved by one more digit. */
  lemma Shifted(high: nat, p: nat, base: nat, low: nat)
    requires 0 < base && low < base * p
    ensures high * (base * p) + low == (high * p) * base + low
    ensures low / base < p
    ensures ((high * p) * base + low) / base == high * p + low / base && ((high * p) * base + low) % base == low % base
  {
    var x, q, r := high * p, low / base, low % base;
    assert high * (base * p) == x * base;
    assert low == q * base + r;
    assert x * base + low == (x + q) * base + r by { Distribute(x, q, base); }
    if p <= q { Grows(p, q, base); }
    Quotient(x + q, base, r);
  }

  /** The digits of n are those of high and, in p's places, those of low. */
  predicate Joins(n: nat, high: nat, p: nat, low: nat) {
    n == high * p + low && low < p
  }

  lemma JoinsShorter(n: nat, high: nat, p: nat, base: nat, low: nat)
    requires 0 < base && Joins(n, high, base * p, low)
    ensures Joins(n / base, high, p, low / base) && n % base == low % base
  {
    Shifted(high, p, base, low);
  }

  lemma JoinsNothing(n: nat, high: nat, low: nat)
    requires Joins(n, high, 1, low)
    ensures n == high && low == 0
  {}

  lemma Distribute(x: nat, q: nat, base: nat)
    ensures (x + q) * base == x * base + q * base
  {}

  lemma Grows(p: nat, q: nat, base: nat)
    requires p <= q
    ensures base * p <= q * base
  {}

  lemma Quotient(q: nat, base: nat, r: nat)
    requires r < base
    ensures (q * base + r) / base == q && (q * base + r) % base == r
  {
    var n := q * base + r;
    var q1, r1 := n / base, n % base;
    assert n == q1 * base + r1;
    if q < q1 {
      Grows(q + 1, q1, base);
      Distribute(q, 1, base);
    } else if q1 < q {
      Grows(q1 + 1, q, base);
      Distribute(q1, 1, base);
    }
  }

  lemma HalfOf(x: nat, low: nat)
    requires low < 2
    ensures (2 * x + low) / 2 == x && (2 * x + low) % 2 == low
  {
  }

  /** The C operator `^` on two octets. */
  function Xor(a: byte, b: byte): byte {
    XorBitsBound(a, b, 8);
    assert Pow2(8) == 256 by { Pow2Of8(); }
    XorBits(a, b, 8)
  }

  lemma Pow2Of8()
    ensures Pow2(8) == 256
  {
    assert Pow2(4) == 16;
    assert Pow2(6) == 64;
  }

  lemma XorInvolutive(a: byte, b: byte)
    ensures Xor(Xor(a, b), b) == a
  {
    Pow2Of8();
    XorBitsInvolutive(a, b, 8);
  }

  /** The concatenation of a sequence of octet strings. */
  function Flatten(parts: seq<seq<byte>>): seq<byte> {
    if parts == [] then [] else parts[0] + Flatten(parts[1..])
  }

  lemma {:induction false} FlattenAppend(parts: seq<seq<byte>>, last: seq<byte>)
    ensures Flatten(parts + [last]) == Flatten(parts) + last
  {
    if parts == [] {
      assert parts + [last] == [last];
      assert Flatten([last]) == last + Flatten([]);
    } else {
      assert (parts + [last])[1..] == parts[1..] + [last];
      FlattenAppend(parts[1..], last);
    }
  }

  /** The big-endian representation of `n` in `k` octets. */
  function BigEndian(n: nat, k: nat): (s: seq<byte>)
    ensures |s| == k
  {
    if k == 0 then [] else BigEndian(n / 256, k - 1) + [n % 256]
  }

  /** The number written by a big-endian octet string. */
  function FromBigEndian(s: seq<byte>): nat {
    if s == [] then 0 else 256 * FromBigEndian(s[..|s| - 1]) + s[|s| - 1]
  }

  function Pow256(k: nat): nat {
    if k == 0 then 1 else 256 * Pow256(k - 1)
  }

  lemma {:induction false} BigEndianRoundTrip(n: nat, k: nat)
    requires n < Pow256(k)
    ensures FromBigEndian(BigEndian(n, k)) == n
  {
    if k > 0 {
      BigEndianRoundTrip(n / 256, k - 1);
      var s := BigEndian(n, k);
      assert s[..k - 1] == BigEndian(n / 256, k - 1);
    }
  }

  lemma {:induction false} FromBigEndianRoundTrip(s: seq<byte>)
    ensures FromBigEndian(s) < Pow256(|s|)
    ensures BigEndian(FromBigEndian(s), |s|) == s
  {
    if s != [] {
      FromBigEndianRoundTrip(s[..|s| - 1]);
      assert s == s[..|s| - 1] + [s[|s| - 1]];
    }
  }

  /** memcpy into `dst` at offset `at`. */
  method CopyTo(dst: array<byte>, at: nat, src: seq<byte>)
    requires at + |src| <= dst.Length
    modifies dst
    ensures dst[..at] == old(dst[..at])
    ensures dst[at..at + |src|] == src
    ensures dst[at + |src|..] == old(dst[at + |src|..])
  {
    forall i | 0 <= i < |src| {
      dst[at + i] := src[i];
    }
  }
}
