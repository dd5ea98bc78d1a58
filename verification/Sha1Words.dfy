/**
 * What the operators and constants of the hash are, bit by bit and digit by digit: section 4.1.1,
 * 4.2.1 and 3.2 of FIPS 180-2.
 */
module Sha1Words {
  import opened Bytes
  import opened Sha1Spec

  // ----- Bits of a number -----

  /** The binary digit of w with weight 2^i. */
  predicate Bit(w: nat, i: nat) {
    if i == 0 then w % 2 == 1 else Bit(w / 2, i - 1)
  }

  lemma {:induction false} BitIs(w: nat, i: nat)
    ensures 0 < Pow2(i)
    ensures Bit(w, i) <==> w / Pow2(i) % 2 == 1
  {
    if i > 0 {
      BitIs(w / 2, i - 1);
      DivideAgain(w, Pow2(i - 1));
    }
  }

  lemma DivideAgain(w: nat, p: nat)
    requires 0 < p
    ensures w / 2 / p == w / (2 * p)
  {
    var q, r := w / 2 / p, w / 2 % p;
    assert w / 2 == q * p + r;
    var low := w - q * (2 * p);
    assert low == 2 * r + w % 2 by { assert q * (2 * p) == 2 * (q * p); }
    Quotient(q, 2 * p, low);
  }

  /** The digits decide the number. */
  lemma {:induction false} SameBits(x: nat, y: nat, n: nat)
    requires x < Pow2(n) && y < Pow2(n)
    requires forall i :: 0 <= i < n ==> Bit(x, i) == Bit(y, i)
    ensures x == y
  {
    if n > 0 {
      assert Bit(x, 0) == Bit(y, 0);
      forall i | 0 <= i < n - 1 ensures Bit(x / 2, i) == Bit(y / 2, i) {
        assert Bit(x, i + 1) == Bit(y, i + 1);
      }
      SameBits(x / 2, y / 2, n - 1);
    }
  }

  /** A number written after another. */
  lemma {:induction false} JoinedBits(n: nat, high: nat, low: nat, k: nat, i: nat)
    requires Joins(n, high, Pow2(k), low)
    ensures Bit(n, i) == if i < k then Bit(low, i) else Bit(high, i - k)
    decreases k
  {
    hide Joins;
    if k == 0 {
      JoinsNothing(n, high, low);
    } else {
      JoinsShorter(n, high, Pow2(k - 1), 2, low);
      hide Pow2;
      if i > 0 { JoinedBits(n / 2, high, low / 2, k - 1, i - 1); }
    }
  }

  // ----- The bitwise operators -----

  lemma {:induction false} XorBit(a: nat, b: nat, n: nat, i: nat)
    requires i < n
    ensures Bit(XorBits(a, b, n), i) == (Bit(a, i) != Bit(b, i))
  {
    var x := XorBits(a / 2, b / 2, n - 1);
    LastBit(x, (a % 2 + b % 2) % 2);
    if i > 0 { XorBit(a / 2, b / 2, n - 1, i - 1); }
  }

  lemma {:induction false} AndBit(a: nat, b: nat, n: nat, i: nat)
    requires i < n
    ensures Bit(AndBits(a, b, n), i) == (Bit(a, i) && Bit(b, i))
  {
    var x := AndBits(a / 2, b / 2, n - 1);
    BothOdd(a % 2, b % 2);
    LastBit(x, (a % 2) * (b % 2));
    if i > 0 { AndBit(a / 2, b / 2, n - 1, i - 1); }
  }

  lemma BothOdd(p: nat, q: nat)
    requires p < 2 && q < 2
    ensures p * q == if p == 1 && q == 1 then 1 else 0
  {
    if p == 1 { assert p * q == q; }
  }

  lemma LastBit(x: nat, low: nat)
    requires low < 2
    ensures (2 * x + low) / 2 == x && (2 * x + low) % 2 == low
  {}

  lemma {:induction false} NotBit(x: nat, n: nat, i: nat)
    requires x < Pow2(n) && i < n
    ensures Bit(Pow2(n) - 1 - x, i) == !Bit(x, i)
  {
    var half := Pow2(n - 1);
    assert Pow2(n) - 1 - x == 2 * (half - 1 - x / 2) + (1 - x % 2);
    LastBit(half - 1 - x / 2, 1 - x % 2);
    if i > 0 { NotBit(x / 2, n - 1, i - 1); }
  }

  lemma WordBits(x: Word, y: Word, i: nat)
    requires i < 32
    ensures Bit(Xor32(x, y), i) == (Bit(x, i) != Bit(y, i))
    ensures Bit(And32(x, y), i) == (Bit(x, i) && Bit(y, i))
    ensures Bit(Not32(x), i) == !Bit(x, i)
  {
    XorBit(x, y, 32, i);
    AndBit(x, y, 32, i);
    Pow2Of32();
    hide Pow2, Bit, XorBits, AndBits;
    NotBit(x, 32, i);
  }

  /** Ch chooses: y where x has a one, z where it has a zero. */
  lemma ChBit(x: Word, y: Word, z: Word, i: nat)
    requires i < 32
    ensures Bit(Ch(x, y, z), i) == if Bit(x, i) then Bit(y, i) else Bit(z, i)
  {
    hide Bit, Xor32, And32, Not32;
    WordBits(x, y, i);
    WordBits(Not32(x), z, i);
    WordBits(And32(x, y), And32(Not32(x), z), i);
  }

  function Ones(x: bool, y: bool, z: bool): nat {
    (if x then 1 else 0) + (if y then 1 else 0) + (if z then 1 else 0)
  }

  /** Maj is what at least two of the three have. */
  lemma MajBit(x: Word, y: Word, z: Word, i: nat)
    requires i < 32
    ensures Bit(Maj(x, y, z), i) <==> 2 <= Ones(Bit(x, i), Bit(y, i), Bit(z, i))
  {
    hide Bit, Xor32, And32, Not32;
    WordBits(x, y, i);
    WordBits(x, z, i);
    WordBits(y, z, i);
    WordBits(And32(x, y), And32(x, z), i);
    WordBits(Xor32(And32(x, y), And32(x, z)), And32(y, z), i);
  }

  /** Parity is one for an odd number of ones. */
  lemma ParityBit(x: Word, y: Word, z: Word, i: nat)
    requires i < 32
    ensures Bit(Parity(x, y, z), i) <==> Ones(Bit(x, i), Bit(y, i), Bit(z, i)) % 2 == 1
  {
    hide Bit, Xor32, And32, Not32;
    WordBits(x, y, i);
    WordBits(Xor32(x, y), z, i);
  }

  // ----- Rotation -----

  /** Both parts of a word change places. */
  lemma TurnedBits(w: nat, turned: nat, high: nat, low: nat, n: nat, k: nat, i: nat)
    requires Joins(w, high, Pow2(n), low) && Joins(turned, low, Pow2(k), high) && i < n + k
    ensures Bit(turned, i) == Bit(w, if i < k then i + n else i - k)
  {
    JoinedBits(turned, low, high, k, i);
    JoinedBits(w, high, low, n, if i < k then i + n else i - k);
  }

  lemma Powers()
    ensures Pow2(1) == 2 && Pow2(2) == 4 && Pow2(5) == 0x20 && Pow2(27) == 0x800_0000 && Pow2(30) == 0x4000_0000
    ensures Pow2(31) == 0x8000_0000
  {
    assert Pow2(3) == 8 && Pow2(8) == 256 && Pow2(16) == 0x1_0000 && Pow2(24) == 0x100_0000;
    assert Pow2(29) == 0x2000_0000;
  }

  /** A circular left shift by k: bit i comes from bit i - k, around the end of the word. */
  lemma RotLBit(k: nat, w: Word, i: nat)
    requires (k == 1 || k == 5 || k == 30) && i < 32
    ensures Bit(RotL(k, w), i) == Bit(w, (i - k) % 32)
  {
    Powers();
    hide Bit, Pow2;
    var p := if k == 1 then 0x8000_0000 else if k == 5 then 0x800_0000 else 4;
    Parts(w, p);
    assert Joins(RotL(k, w), w % p, Pow2(k), w / p);
    TurnedBits(w, RotL(k, w), w / p, w % p, 32 - k, k, i);
  }

  lemma Parts(w: nat, p: nat)
    requires 0 < p
    ensures Joins(w, w / p, p, w % p)
  {}

  // ----- Constants and words -----

  /** The constants of the steps are the square roots of 2, 3, 5 and 10, in units of 2^-30. */
  lemma ConstantIsRoot(t: nat)
    requires t < 80
    ensures var n, k := if t < 20 then 2 else if t < 40 then 3 else if t < 60 then 5 else 10, K(t) as int;
            k * k <= n * 0x1000_0000_0000_0000 < (k + 1) * (k + 1)
  {
    assert 0x5A827999 * 0x5A827999 <= 2 * 0x1000_0000_0000_0000 < 0x5A82799A * 0x5A82799A;
    assert 0x6ED9EBA1 * 0x6ED9EBA1 <= 3 * 0x1000_0000_0000_0000 < 0x6ED9EBA2 * 0x6ED9EBA2;
    assert 0x8F1BBCDC * 0x8F1BBCDC <= 5 * 0x1000_0000_0000_0000 < 0x8F1BBCDD * 0x8F1BBCDD;
    assert 0xCA62C1D6 * 0xCA62C1D6 <= 10 * 0x1000_0000_0000_0000 < 0xCA62C1D7 * 0xCA62C1D7;
  }

  /** A word of the block has its most significant octet first. */
  lemma WordIsBigEndian(s: seq<byte>)
    requires |s| == 4
    ensures WordOf(s) == FromBigEndian(s) && BigEndian(WordOf(s), 4) == s
  {
    FromBigEndianRoundTrip(s);
    hide BigEndian;
    assert s[..3][..2] == s[..2] && s[..2][..1] == s[..1] && s[..1][..0] == [];
    assert FromBigEndian(s[..1]) == s[0] as int;
    assert FromBigEndian(s[..2]) == 0x100 * FromBigEndian(s[..1]) + s[1];
    assert FromBigEndian(s[..3]) == 0x100 * FromBigEndian(s[..2]) + s[2];
  }
}
