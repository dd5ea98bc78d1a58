/**
 * The compression in the 32-bit machine words of the C code, with its own operators: what it
 * computes is what the numbers of the specification say.
 */
module Sha1Machine {
  import opened Bytes
  import opened Sha1Spec
  import opened Sha1Words

  // ----- The bits of a machine word -----

  function Up(b: bv32): bv32 {
    b << 1
  }

  function Odd(b: bv32): bv32 {
    b | 1
  }

  /** A word with only bit i. */
  function Mask(i: nat): bv32 {
    if i == 0 then 1 else Up(Mask(i - 1))
  }

  predicate OneBit(m: bv32) {
    m != 0 && m & (m - 1) == 0
  }

  predicate Has(b: bv32, m: bv32) {
    b & m != 0
  }

  lemma {:induction false} MaskIs(i: nat)
    requires i < 32
    ensures OneBit(Mask(i))
  {
    Masks();
    if Mask(i) == 0 { NothingLeft(i); }
    if i > 0 {
      MaskIs(i - 1);
      NextBit(Mask(i - 1));
    }
    hide OneBit;
  }

  lemma NextBit(m: bv32)
    requires OneBit(m)
    ensures Up(m) == 0 || OneBit(Up(m))
  {}

  lemma {:induction false} NothingLeft(i: nat)
    requires i < 32 && Mask(i) == 0
    ensures Mask(31) == 0
    decreases 32 - i
  {
    if i < 31 { NothingLeft(i + 1); }
  }

  // ----- The operators of the C code -----

  function AndWord(x: bv32, y: bv32): bv32 {
    x & y
  }

  function XorWord(x: bv32, y: bv32): bv32 {
    x ^ y
  }

  function NotWord(x: bv32): bv32 {
    !x
  }

  function SumWord(x: bv32, y: bv32): bv32 {
    x + y
  }

  /** SHA_Ch. */
  function ChWord(x: bv32, y: bv32, z: bv32): bv32 {
    XorWord(AndWord(x, y), AndWord(NotWord(x), z))
  }

  /** SHA_Maj. */
  function MajWord(x: bv32, y: bv32, z: bv32): bv32 {
    XorWord(XorWord(AndWord(x, y), AndWord(x, z)), AndWord(y, z))
  }

  /** SHA_Parity. */
  function ParityWord(x: bv32, y: bv32, z: bv32): bv32 {
    XorWord(XorWord(x, y), z)
  }

  /** The macros that the C code has for speed give the same words. */
  lemma FasterMacros(x: bv32, y: bv32, z: bv32)
    ensures (x & (y ^ z)) ^ z == ChWord(x, y, z)
    ensures (x & (y | z)) | (y & z) == MajWord(x, y, z)
  {
    hide *;
    FasterCh(x, y, z);
    FasterMaj(x, y, z);
    ChMacro(x, y, z);
    MajMacro(x, y, z);
  }

  lemma FasterCh(x: bv32, y: bv32, z: bv32)
    ensures (x & (y ^ z)) ^ z == (x & y) ^ (!x & z)
  {}

  lemma FasterMaj(x: bv32, y: bv32, z: bv32)
    ensures (x & (y | z)) | (y & z) == (x & y) ^ (x & z) ^ (y & z)
  {}

  lemma ChMacro(x: bv32, y: bv32, z: bv32)
    ensures ChWord(x, y, z) == (x & y) ^ (!x & z)
  {}

  lemma MajMacro(x: bv32, y: bv32, z: bv32)
    ensures MajWord(x, y, z) == (x & y) ^ (x & z) ^ (y & z)
  {}

  /** SHA1_ROTL. */
  function Turn(k: nat, b: bv32): bv32
    requires k == 1 || k == 5 || k == 30
  {
    if k == 1 then (b << 1) | (b >> 31) else if k == 5 then (b << 5) | (b >> 27) else (b << 30) | (b >> 2)
  }

  function Back(k: nat, b: bv32): bv32
    requires k == 1 || k == 5 || k == 30
  {
    if k == 1 then (b >> 1) | (b << 31) else if k == 5 then (b >> 5) | (b << 27) else (b >> 30) | (b << 2)
  }

  /** The bits that are carried where s is the sum of x and y. */
  function Carries(x: bv32, y: bv32, s: bv32): bv32 {
    (x & y) | ((x | y) & !s)
  }

  lemma HasXor(x: bv32, y: bv32, m: bv32)
    requires OneBit(m)
    ensures Has(XorWord(x, y), m) == (Has(x, m) != Has(y, m))
  {
    XorBitOf(x, y, m);
  }

  lemma XorBitOf(x: bv32, y: bv32, m: bv32)
    requires m != 0 && m & (m - 1) == 0
    ensures ((x ^ y) & m != 0) == ((x & m != 0) != (y & m != 0))
  {}

  lemma HasAnd(x: bv32, y: bv32, m: bv32)
    requires OneBit(m)
    ensures Has(AndWord(x, y), m) == (Has(x, m) && Has(y, m))
  {
    AndBitOf(x, y, m);
  }

  lemma AndBitOf(x: bv32, y: bv32, m: bv32)
    requires m != 0 && m & (m - 1) == 0
    ensures ((x & y) & m != 0) == ((x & m != 0) && (y & m != 0))
  {
    AllOrNothing(x, m);
    AllOrNothing(y, m);
  }

  lemma AllOrNothing(x: bv32, m: bv32)
    requires m != 0 && m & (m - 1) == 0
    ensures x & m == 0 || x & m == m
  {}

  lemma HasNot(x: bv32, m: bv32)
    requires OneBit(m)
    ensures Has(NotWord(x), m) == !Has(x, m)
  {
    NotBitOf(x, m);
  }

  lemma NotBitOf(x: bv32, m: bv32)
    requires m != 0 && m & (m - 1) == 0
    ensures (!x & m != 0) == (x & m == 0)
  {}

  lemma HasTurned(k: nat, b: bv32, m: bv32)
    requires k == 1 || k == 5 || k == 30
    ensures Has(Turn(k, b), m) == Has(b, Back(k, m))
  {
    hide Turn, Back;
    TurnedBitOf(k, b, m);
  }

  lemma TurnedBitOf(k: nat, b: bv32, m: bv32)
    requires k == 1 || k == 5 || k == 30
    ensures (Turn(k, b) & m != 0) == (b & Back(k, m) != 0)
  {
    if k == 1 { Turned1(b, m); } else if k == 5 { Turned5(b, m); } else { Turned30(b, m); }
  }

  lemma Turned1(b: bv32, m: bv32)
    ensures (((b << 1) | (b >> 31)) & m != 0) == (b & ((m >> 1) | (m << 31)) != 0)
  {}

  lemma Turned5(b: bv32, m: bv32)
    ensures (((b << 5) | (b >> 27)) & m != 0) == (b & ((m >> 5) | (m << 27)) != 0)
  {}

  lemma Turned30(b: bv32, m: bv32)
    ensures (((b << 30) | (b >> 2)) & m != 0) == (b & ((m >> 30) | (m << 2)) != 0)
  {}

  lemma HasSum(x: bv32, y: bv32, m: bv32)
    requires OneBit(m) && m & 1 == 0
    ensures var s := SumWord(x, y); Has(s, m) == ((Has(x, m) != Has(y, m)) != Has(Carries(x, y, s), m >> 1))
  {
    SumBitOf(x, y, m);
  }

  lemma SumBitOf(x: bv32, y: bv32, m: bv32)
    requires m != 0 && m & (m - 1) == 0 && m & 1 == 0
    ensures ((x + y) & m != 0)
         == (((x & m != 0) != (y & m != 0)) != (((x & y) | ((x | y) & !(x + y))) & (m >> 1) != 0))
  {}

  lemma HasCarry(x: bv32, y: bv32, s: bv32, m: bv32)
    requires OneBit(m)
    ensures Has(Carries(x, y, s), m) == ((Has(x, m) && Has(y, m)) || ((Has(x, m) || Has(y, m)) && !Has(s, m)))
  {
    CarryBitOf(x, y, s, m);
  }

  lemma CarryBitOf(x: bv32, y: bv32, s: bv32, m: bv32)
    requires m != 0 && m & (m - 1) == 0
    ensures (((x & y) | ((x | y) & !s)) & m != 0)
         == (((x & m != 0) && (y & m != 0)) || (((x & m != 0) || (y & m != 0)) && s & m == 0))
  {}

  lemma HasTwice(b: bv32, m: bv32)
    requires OneBit(m) && OneBit(Up(m))
    ensures Has(Up(b), Up(m)) == Has(b, m) && Has(Odd(Up(b)), Up(m)) == Has(b, m)
  {
    hide Has, Up, Odd, OneBit;
    UpBitOf(b, m);
    UpIsEven(m);
    OddBitOf(Up(b), Up(m));
  }

  lemma UpBitOf(b: bv32, m: bv32)
    requires OneBit(m) && OneBit(Up(m))
    ensures Has(Up(b), Up(m)) == Has(b, m)
  {
    RaisedBitOf(b, m);
  }

  lemma OddBitOf(b: bv32, m: bv32)
    requires m & 1 == 0
    ensures Has(Odd(b), m) == Has(b, m)
  {
    hide Odd;
    OddKeeps(b, m);
  }

  lemma OddKeeps(b: bv32, m: bv32)
    requires m & 1 == 0
    ensures Odd(b) & m == b & m
  {}

  lemma UpIsEven(b: bv32)
    ensures Up(b) & 1 == 0
  {}

  lemma RaisedBitOf(b: bv32, m: bv32)
    requires m != 0 && m & (m - 1) == 0 && m << 1 != 0
    ensures ((b << 1) & (m << 1) != 0) == (b & m != 0)
  {}

  lemma {:induction false} MaskBack(k: nat, i: nat)
    requires (k == 1 || k == 5 || k == 30) && i < 32
    ensures Back(k, Mask(i)) == Mask((i - k) % 32)
  {
    Masks();
    if i == 0 {
    } else if i == k {
    } else {
      hide Mask, Back;
      MaskBack(k, i - 1);
      Around(i, k);
      MaskBackNext(k, i, (i - 1 - k) % 32);
    }
  }

  lemma Around(i: nat, k: nat)
    requires 0 < i < 32 && 0 < k < 32 && i != k
    ensures (i - k) % 32 == (i - 1 - k) % 32 + 1
  {
    assert i - k == (if i < k then -32 else 0) + (i - k) % 32;
  }

  lemma MaskBackNext(k: nat, i: nat, j: nat)
    requires (k == 1 || k == 5 || k == 30) && 0 < i < 32 && j < 31 && Back(k, Mask(i - 1)) == Mask(j)
    ensures Back(k, Mask(i)) == Mask(j + 1)
  {
    hide OneBit, Back, Up;
    MaskIs(i - 1);
    MaskIs(i);
    MaskIs(j + 1);
    NotZero(Mask(j + 1));
    BackTwice(k, Mask(i - 1));
  }

  lemma NotZero(m: bv32)
    requires OneBit(m)
    ensures m != 0
  {}

  lemma BackTwice(k: nat, m: bv32)
    requires (k == 1 || k == 5 || k == 30) && OneBit(m) && OneBit(Up(m)) && Up(Back(k, m)) != 0
    ensures Back(k, Up(m)) == Up(Back(k, m))
  {}

  lemma Masks()
    ensures Mask(1) == 2 && Mask(2) == 4 && Mask(5) == 0x20 && Mask(27) == 0x800_0000 && Mask(30) == 0x4000_0000
    ensures Mask(31) == 0x8000_0000
  {
    assert Mask(8) == 0x100 && Mask(16) == 0x1_0000 && Mask(24) == 0x100_0000;
  }

  // ----- The number of a machine word -----

  /** The number that the last n bits of b write. */
  function Low(b: bv32, n: nat): nat {
    if n == 0 then 0 else Low(b, n - 1) + if Has(b, Mask(n - 1)) then Pow2(n - 1) else 0
  }

  lemma {:induction false} LowBound(b: bv32, n: nat)
    ensures Low(b, n) < Pow2(n)
  {
    if n > 0 { LowBound(b, n - 1); }
  }

  lemma {:induction false} LowBit(b: bv32, n: nat, i: nat)
    requires i < n
    ensures Bit(Low(b, n), i) == Has(b, Mask(i))
  {
    LowBound(b, n - 1);
    var top := if Has(b, Mask(n - 1)) then 1 else 0;
    hide Has, Mask;
    assert Joins(Low(b, n), top, Pow2(n - 1), Low(b, n - 1));
    hide Pow2, Low, Joins;
    JoinedBits(Low(b, n), top, Low(b, n - 1), n - 1, i);
    if i < n - 1 { LowBit(b, n - 1, i); }
  }

  function Number(b: bv32): Word {
    LowBound(b, 32);
    Pow2Of32();
    Low(b, 32)
  }

  /** A number with the bits of b is its number. */
  lemma HasBits(w: Word, b: bv32)
    requires forall i :: 0 <= i < 32 ==> Bit(w, i) == Has(b, Mask(i))
    ensures w == Number(b)
  {
    Pow2Of32();
    hide Bit, Has, Mask, Low, Pow2;
    forall i | 0 <= i < 32 ensures Bit(w, i) == Bit(Low(b, 32), i) { LowBit(b, 32, i); }
    SameBits(w, Number(b), 32);
  }

  lemma NumberBit(b: bv32, i: nat)
    requires i < 32
    ensures Bit(Number(b), i) == Has(b, Mask(i))
  {
    hide Bit, Has, Mask, Low;
    LowBit(b, 32, i);
  }

  /** The word with the last n bits of a number. */
  function Machine(w: nat, n: nat): bv32 {
    if n == 0 then 0
    else
      var b := Up(Machine(w / 2, n - 1));
      if w % 2 == 1 then Odd(b) else b
  }

  lemma {:induction false} MachineHas(w: nat, n: nat, i: nat)
    requires i < n <= 32
    ensures Has(Machine(w, n), Mask(i)) == Bit(w, i)
  {
    hide Has, OneBit, Up, Odd;
    var b := Machine(w / 2, n - 1);
    MaskIs(i);
    if i > 0 {
      MachineHas(w / 2, n - 1, i - 1);
      MaskIs(i - 1);
      HasTwice(b, Mask(i - 1));
    } else {
      LastOfTwice(b);
    }
  }

  lemma LastOfTwice(b: bv32)
    ensures !Has(Up(b), 1) && Has(Odd(Up(b)), 1)
  {}

  /** Every number below 2^32 is the number of a machine word. */
  lemma NumberOfMachine(w: Word)
    ensures Number(Machine(w, 32)) == w
  {
    hide Has, Bit, Mask, Machine;
    forall i | 0 <= i < 32 ensures Bit(w, i) == Has(Machine(w, 32), Mask(i)) { MachineHas(w, 32, i); }
    HasBits(w, Machine(w, 32));
  }

  // ----- Words written out -----

  /** Four bits from m on, the first with weight p. */
  function Nibble(b: bv32, m: bv32, p: nat): nat {
    (if Has(b, m) then p else 0) + (if Has(b, m << 1) then 2 * p else 0)
    + (if Has(b, m << 2) then 4 * p else 0) + (if Has(b, m << 3) then 8 * p else 0)
  }

  lemma NibbleMore(b: bv32, n: nat)
    ensures Low(b, n + 4) == Low(b, n) + Nibble(b, Mask(n), Pow2(n))
  {
    hide Has, Mask, Low, Pow2;
    NextMasks(n);
    LowFour(b, n);
  }

  lemma LowFour(b: bv32, n: nat)
    ensures Low(b, n + 4) == Low(b, n) + (if Has(b, Mask(n)) then Pow2(n) else 0)
                             + (if Has(b, Mask(n + 1)) then 2 * Pow2(n) else 0)
                             + (if Has(b, Mask(n + 2)) then 4 * Pow2(n) else 0)
                             + (if Has(b, Mask(n + 3)) then 8 * Pow2(n) else 0)
  {
    hide Has, Mask;
    assert Low(b, n + 2) == Low(b, n + 1) + if Has(b, Mask(n + 1)) then Pow2(n + 1) else 0;
    assert Low(b, n + 3) == Low(b, n + 2) + if Has(b, Mask(n + 2)) then Pow2(n + 2) else 0;
    assert Pow2(n + 1) == 2 * Pow2(n) && Pow2(n + 2) == 4 * Pow2(n);
  }

  lemma NextMasks(n: nat)
    ensures Mask(n + 1) == Mask(n) << 1 && Mask(n + 2) == Mask(n) << 2 && Mask(n + 3) == Mask(n) << 3
  {}

  /** The hexadecimal digits of a word. */
  lemma NumberIs(b: bv32)
    ensures Number(b) == Nibble(b, 1, 1) + Nibble(b, 0x10, 0x10) + Nibble(b, 0x100, 0x100) + Nibble(b, 0x1000, 0x1000)
                         + Nibble(b, 0x1_0000, 0x1_0000) + Nibble(b, 0x10_0000, 0x10_0000)
                         + Nibble(b, 0x100_0000, 0x100_0000) + Nibble(b, 0x1000_0000, 0x1000_0000)
  {
    Places();
    hide Has, Nibble, Mask, Pow2;
    NibbleMore(b, 0);
    NibbleMore(b, 4);
    NibbleMore(b, 8);
    NibbleMore(b, 12);
    NibbleMore(b, 16);
    NibbleMore(b, 20);
    NibbleMore(b, 24);
    NibbleMore(b, 28);
    assert Low(b, 0) == 0;
  }

  lemma Places()
    ensures Mask(0) == 1 && Mask(4) == 0x10 && Mask(8) == 0x100 && Mask(12) == 0x1000 && Mask(16) == 0x1_0000
    ensures Mask(20) == 0x10_0000 && Mask(24) == 0x100_0000 && Mask(28) == 0x1000_0000
    ensures Pow2(0) == 1 && Pow2(4) == 0x10 && Pow2(8) == 0x100 && Pow2(12) == 0x1000 && Pow2(16) == 0x1_0000
    ensures Pow2(20) == 0x10_0000 && Pow2(24) == 0x100_0000 && Pow2(28) == 0x1000_0000
  {}

  // ----- The operators on numbers -----

  function FWord(t: nat, x: bv32, y: bv32, z: bv32): bv32 {
    if t < 20 then ChWord(x, y, z) else if t < 40 then ParityWord(x, y, z)
    else if t < 60 then MajWord(x, y, z) else ParityWord(x, y, z)
  }

  lemma XorIs(x: bv32, y: bv32)
    ensures Xor32(Number(x), Number(y)) == Number(XorWord(x, y))
  {
    hide Bit, Has, Mask, OneBit, Xor32, And32, Not32, Number, XorWord, AndWord, NotWord;
    forall i | 0 <= i < 32 ensures Bit(Xor32(Number(x), Number(y)), i) == Has(XorWord(x, y), Mask(i)) {
      WordBits(Number(x), Number(y), i);
      NumberBit(x, i);
      NumberBit(y, i);
      MaskIs(i);
      HasXor(x, y, Mask(i));
    }
    HasBits(Xor32(Number(x), Number(y)), XorWord(x, y));
  }

  lemma AndIs(x: bv32, y: bv32)
    ensures And32(Number(x), Number(y)) == Number(AndWord(x, y))
  {
    hide Bit, Has, Mask, OneBit, Xor32, And32, Not32, Number, XorWord, AndWord, NotWord;
    forall i | 0 <= i < 32 ensures Bit(And32(Number(x), Number(y)), i) == Has(AndWord(x, y), Mask(i)) {
      WordBits(Number(x), Number(y), i);
      NumberBit(x, i);
      NumberBit(y, i);
      MaskIs(i);
      HasAnd(x, y, Mask(i));
    }
    HasBits(And32(Number(x), Number(y)), AndWord(x, y));
  }

  lemma NotIs(x: bv32)
    ensures Not32(Number(x)) == Number(NotWord(x))
  {
    hide Bit, Has, Mask, OneBit, Xor32, And32, Not32, Number, XorWord, AndWord, NotWord;
    forall i | 0 <= i < 32 ensures Bit(Not32(Number(x)), i) == Has(NotWord(x), Mask(i)) {
      WordBits(Number(x), Number(x), i);
      NumberBit(x, i);
      MaskIs(i);
      HasNot(x, Mask(i));
    }
    HasBits(Not32(Number(x)), NotWord(x));
  }

  lemma ChIs(x: bv32, y: bv32, z: bv32)
    ensures Ch(Number(x), Number(y), Number(z)) == Number(ChWord(x, y, z))
  {
    hide Number, Xor32, And32, Not32, XorWord, AndWord, NotWord;
    NotIs(x);
    AndIs(x, y);
    AndIs(NotWord(x), z);
    XorIs(AndWord(x, y), AndWord(NotWord(x), z));
  }

  lemma MajIs(x: bv32, y: bv32, z: bv32)
    ensures Maj(Number(x), Number(y), Number(z)) == Number(MajWord(x, y, z))
  {
    hide Number, Xor32, And32, Not32, XorWord, AndWord;
    AndIs(x, y);
    AndIs(x, z);
    AndIs(y, z);
    XorIs(AndWord(x, y), AndWord(x, z));
    XorIs(XorWord(AndWord(x, y), AndWord(x, z)), AndWord(y, z));
  }

  lemma ParityIs(x: bv32, y: bv32, z: bv32)
    ensures Parity(Number(x), Number(y), Number(z)) == Number(ParityWord(x, y, z))
  {
    hide Number, Xor32, XorWord;
    XorIs(x, y);
    XorIs(XorWord(x, y), z);
  }

  lemma FIs(t: nat, x: bv32, y: bv32, z: bv32)
    ensures F(t, Number(x), Number(y), Number(z)) == Number(FWord(t, x, y, z))
  {
    hide Number, Ch, Maj, Parity, ChWord, MajWord, ParityWord;
    ChIs(x, y, z);
    MajIs(x, y, z);
    ParityIs(x, y, z);
  }

  lemma TurnIs(k: nat, b: bv32)
    requires k == 1 || k == 5 || k == 30
    ensures RotL(k, Number(b)) == Number(Turn(k, b))
  {
    hide Bit, Has, Mask, Number, Turn, Back, RotL;
    forall i | 0 <= i < 32 ensures Bit(RotL(k, Number(b)), i) == Has(Turn(k, b), Mask(i)) {
      RotLBit(k, Number(b), i);
      NumberBit(b, (i - k) % 32);
      HasTurned(k, b, Mask(i));
      MaskBack(k, i);
    }
    HasBits(RotL(k, Number(b)), Turn(k, b));
  }

  function Carried(x: bv32, y: bv32, n: nat): bool {
    n > 0 && Has(Carries(x, y, SumWord(x, y)), Mask(n - 1))
  }

  /** Addition with the carry out of the last n places. */
  lemma {:induction false} LowSum(x: bv32, y: bv32, n: nat)
    requires n <= 32
    ensures Low(x, n) + Low(y, n) == Low(SumWord(x, y), n) + if Carried(x, y, n) then Pow2(n) else 0
  {
    hide Has, Mask, Carried, SumWord;
    if n == 0 {
      NothingCarried(x, y);
    } else {
      LowSum(x, y, n - 1);
      FullAdder(x, y, n);
    }
  }

  lemma NothingCarried(x: bv32, y: bv32)
    ensures !Carried(x, y, 0)
  {}

  /** One more place: its carry, and the sum's bit with the carry that comes in. */
  lemma FullAdder(x: bv32, y: bv32, n: nat)
    requires 0 < n <= 32
    ensures var m, s := Mask(n - 1), SumWord(x, y);
            && Carried(x, y, n) == ((Has(x, m) && Has(y, m)) || ((Has(x, m) || Has(y, m)) && !Has(s, m)))
            && Has(s, m) == ((Has(x, m) != Has(y, m)) != Carried(x, y, n - 1))
  {
    hide Has, Carries, OneBit, Mask, SumWord;
    MaskIs(n - 1);
    HasCarry(x, y, SumWord(x, y), Mask(n - 1));
    if n > 1 { LaterSum(x, y, n - 1); } else { FirstSum(x, y); }
  }

  lemma LaterSum(x: bv32, y: bv32, i: nat)
    requires 0 < i < 32
    ensures var m, s := Mask(i), SumWord(x, y);
            Has(s, m) == ((Has(x, m) != Has(y, m)) != Has(Carries(x, y, s), Mask(i - 1)))
  {
    hide Has, Carries, OneBit, Mask, SumWord;
    MaskIs(i);
    EvenMask(i);
    HasSum(x, y, Mask(i));
  }

  lemma EvenMask(i: nat)
    requires 0 < i < 32
    ensures Mask(i) & 1 == 0 && Mask(i) >> 1 == Mask(i - 1)
  {
    MaskIs(i - 1);
    MaskIs(i);
    ShiftBack(Mask(i - 1));
    hide OneBit;
  }

  lemma ShiftBack(m: bv32)
    requires OneBit(m) && OneBit(Up(m))
    ensures Up(m) >> 1 == m && Up(m) & 1 == 0
  {}

  lemma FirstSum(x: bv32, y: bv32)
    ensures Has(SumWord(x, y), Mask(0)) == (Has(x, Mask(0)) != Has(y, Mask(0)))
  {}

  /** The sum of machine words is the sum modulo 2^32. */
  lemma SumIs(x: bv32, y: bv32)
    ensures Add32(Number(x), Number(y)) == Number(SumWord(x, y))
  {
    hide Low, Carried, Pow2, SumWord;
    Pow2Of32();
    LowSum(x, y, 32);
  }

  // ----- The compression -----

  /** The working variables A to E. */
  datatype Words = Words(a: bv32, b: bv32, c: bv32, d: bv32, e: bv32)

  function KWord(t: nat): bv32 {
    if t < 20 then 0x5A827999 else if t < 40 then 0x6ED9EBA1 else if t < 60 then 0x8F1BBCDC else 0xCA62C1D6
  }

  function Five(p: bv32, q: bv32, r: bv32, s: bv32, t: bv32): bv32 {
    SumWord(SumWord(SumWord(SumWord(p, q), r), s), t)
  }

  function RoundWords(r: Words, t: nat, word: bv32): Words {
    Words(Five(Turn(5, r.a), FWord(t, r.b, r.c, r.d), r.e, word, KWord(t)), r.a, Turn(30, r.b), r.c, r.d)
  }

  function RoundsWords(r: Words, w: seq<bv32>, n: nat): Words
    requires n <= |w|
  {
    if n == 0 then r else RoundWords(RoundsWords(r, w, n - 1), n - 1, w[n - 1])
  }

  function NextOf(w: seq<bv32>): bv32
    requires 16 <= |w|
  {
    var t := |w|;
    Turn(1, XorWord(XorWord(XorWord(w[t - 3], w[t - 8]), w[t - 14]), w[t - 16]))
  }

  /** The array W of the C code. */
  function ScheduleWords(m: seq<bv32>, n: nat): (w: seq<bv32>)
    requires |m| == 16
    ensures |w| == n
  {
    if n <= 16 then m[..n]
    else
      var w := ScheduleWords(m, n - 1);
      w + [NextOf(w)]
  }

  function Totals(h: Words, r: Words): Words {
    Words(SumWord(h.a, r.a), SumWord(h.b, r.b), SumWord(h.c, r.c), SumWord(h.d, r.d), SumWord(h.e, r.e))
  }

  function CompressWords(h: Words, m: seq<bv32>): Words
    requires |m| == 16
  {
    Totals(h, RoundsWords(h, ScheduleWords(m, 80), 80))
  }

  // ----- The compression on numbers -----

  function Values(r: Words): Regs {
    Regs(Number(r.a), Number(r.b), Number(r.c), Number(r.d), Number(r.e))
  }

  function HashOf(r: Words): Hash {
    [Number(r.a), Number(r.b), Number(r.c), Number(r.d), Number(r.e)]
  }

  function Numbers(w: seq<bv32>): (s: seq<Word>)
    ensures |s| == |w|
  {
    seq(|w|, i requires 0 <= i < |w| => Number(w[i]))
  }

  /** The block holds the words m. */
  ghost predicate Holds(block: Block, m: seq<bv32>) {
    |m| == 16 && forall k :: 0 <= k < 16 ==> WordOf(block[4 * k..4 * (k + 1)]) == Number(m[k])
  }

  lemma KIs(t: nat)
    ensures K(t) == Number(KWord(t))
  {
    hide Number;
    NumberIs(KWord(t));
  }

  lemma ThreeAre(p: bv32, q: bv32, r: bv32)
    ensures (Number(p) + Number(q) + Number(r)) % TWO_32 == Number(SumWord(SumWord(p, q), r))
  {
    hide Number, SumWord;
    SumIs(p, q);
    SumIs(SumWord(p, q), r);
    WrapsOnce(Number(p) + Number(q), Number(r));
  }

  lemma FiveIs(p: bv32, q: bv32, r: bv32, s: bv32, t: bv32)
    ensures (Number(p) + Number(q) + Number(r) + Number(s) + Number(t)) % TWO_32 == Number(Five(p, q, r, s, t))
  {
    hide Number, SumWord;
    ThreeAre(p, q, r);
    ThreeAre(SumWord(SumWord(p, q), r), s, t);
    WrapsOnce(Number(p) + Number(q) + Number(r), Number(s) + Number(t));
  }

  lemma WrapsOnce(x: nat, y: nat)
    ensures (x % TWO_32 + y) % TWO_32 == (x + y) % TWO_32
  {}

  lemma RoundIs(r: Words, t: nat, word: bv32)
    ensures Round(Values(r), t, Number(word)) == Values(RoundWords(r, t, word))
  {
    hide Number, F, FWord, RotL, Turn, K, KWord, Five;
    TurnIs(5, r.a);
    FIs(t, r.b, r.c, r.d);
    KIs(t);
    TurnIs(30, r.b);
    FiveIs(Turn(5, r.a), FWord(t, r.b, r.c, r.d), r.e, word, KWord(t));
  }

  lemma {:induction false} RoundsIs(r: Words, w: seq<bv32>, n: nat)
    requires n <= |w|
    ensures Rounds(Values(r), Numbers(w), n) == Values(RoundsWords(r, w, n))
  {
    hide Round, RoundWords, Values, Number;
    if n > 0 {
      RoundsIs(r, w, n - 1);
      RoundIs(RoundsWords(r, w, n - 1), n - 1, w[n - 1]);
    }
  }

  lemma NextIs(w: seq<bv32>)
    requires 16 <= |w|
    ensures NextWord(Numbers(w)) == Number(NextOf(w))
  {
    hide Number, Xor32, RotL, Turn, XorWord;
    var t := |w|;
    FourIs(w[t - 3], w[t - 8], w[t - 14], w[t - 16]);
  }

  lemma FourIs(p: bv32, q: bv32, r: bv32, s: bv32)
    ensures RotL(1, Xor32(Xor32(Xor32(Number(p), Number(q)), Number(r)), Number(s)))
         == Number(Turn(1, XorWord(XorWord(XorWord(p, q), r), s)))
  {
    hide Number, Xor32, RotL, Turn, XorWord;
    XorIs(p, q);
    XorIs(XorWord(p, q), r);
    XorIs(XorWord(XorWord(p, q), r), s);
    TurnIs(1, XorWord(XorWord(XorWord(p, q), r), s));
  }

  lemma {:induction false} ScheduleIs(block: Block, m: seq<bv32>, n: nat)
    requires Holds(block, m)
    ensures Schedule(block, n) == Numbers(ScheduleWords(m, n))
  {
    hide Number, WordOf, NextWord, NextOf;
    if n > 0 {
      assert Holds(block, m);
      ScheduleIs(block, m, n - 1);
      if n > 16 {
        NextIs(ScheduleWords(m, n - 1));
      } else {
        assert Schedule(block, n)[n - 1] == Number(m[n - 1]);
      }
    }
  }

  lemma TotalsAre(h: Words, r: Words)
    ensures AddRegs(HashOf(h), Values(r)) == HashOf(Totals(h, r))
  {
    hide Number, SumWord, Add32;
    SumIs(h.a, r.a);
    SumIs(h.b, r.b);
    SumIs(h.c, r.c);
    SumIs(h.d, r.d);
    SumIs(h.e, r.e);
  }

  /** On the words of the C code the compression is that of the standard. */
  lemma CompressIs(h: Words, block: Block, m: seq<bv32>)
    requires Holds(block, m)
    ensures Compress(HashOf(h), block) == HashOf(CompressWords(h, m))
  {
    hide Number, Rounds, RoundsWords, Schedule, ScheduleWords, Totals, AddRegs, WordOf;
    var w := ScheduleWords(m, 80);
    ScheduleIs(block, m, 80);
    RoundsIs(h, w, 80);
    TotalsAre(h, RoundsWords(h, w, 80));
  }

  function MachineHash(h: Hash): Words {
    Words(Machine(h[0], 32), Machine(h[1], 32), Machine(h[2], 32), Machine(h[3], 32), Machine(h[4], 32))
  }

  function MachineBlock(block: Block): (m: seq<bv32>)
    ensures |m| == 16
  {
    seq(16, k requires 0 <= k < 16 => Machine(WordOf(block[4 * k..4 * (k + 1)]), 32))
  }

  /** For every hash and every block. */
  lemma CompressionIsMachine(h: Hash, block: Block)
    ensures Compress(h, block) == HashOf(CompressWords(MachineHash(h), MachineBlock(block)))
  {
    hide Number, Machine, Compress, CompressWords, WordOf;
    forall k | 0 <= k < 16 ensures WordOf(block[4 * k..4 * (k + 1)]) == Number(MachineBlock(block)[k]) {
      NumberOfMachine(WordOf(block[4 * k..4 * (k + 1)]));
    }
    forall i | 0 <= i < 5 ensures h[i] == Number(Machine(h[i], 32)) { NumberOfMachine(h[i]); }
    assert HashOf(MachineHash(h)) == h;
    CompressIs(MachineHash(h), block, MachineBlock(block));
  }
}
