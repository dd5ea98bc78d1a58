/**
 * src/sha1/sha1.c and src/sha1_internal.c: the hash computed in place, octet by octet.
 */
module Sha1 {
  import opened Bytes
  import opened Frames
  import opened Sha1Spec

  const SHA_SUCCESS := 0
  const SHA_STATE_ERROR := 3

  // ----- What the context holds -----

  /** Complete blocks are compressed and the rest waits in the block. */
  predicate Absorbed(hash: seq<Word>, block: seq<byte>, index: nat, message: seq<byte>) {
    && |block| == 64 && index == |message| % 64
    && hash == Fold(message[..|message| - index])
    && block[..index] == message[|message| - index..]
  }

  lemma AbsorbedIndex(hash: seq<Word>, block: seq<byte>, index: nat, message: seq<byte>)
    requires Absorbed(hash, block, index, message)
    ensures index < 64
  {
    hide Fold;
  }

  /** And the two words count the bits. */
  predicate Holds(hash: seq<Word>, block: seq<byte>, index: nat, low: Word, high: Word, message: seq<byte>) {
    Absorbed(hash, block, index, message) && high * TWO_32 + low == 8 * |message|
  }

  /** The message alone determines all that matters of the context, so it does not matter in
      how many pieces it came. */
  lemma SplitsDoNotMatter(h1: seq<Word>, b1: seq<byte>, i1: nat, l1: Word, g1: Word,
                          h2: seq<Word>, b2: seq<byte>, i2: nat, l2: Word, g2: Word, message: seq<byte>)
    requires Holds(h1, b1, i1, l1, g1, message) && Holds(h2, b2, i2, l2, g2, message)
    ensures h1 == h2 && i1 == i2 && b1[..i1] == b2[..i2] && l1 == l2 && g1 == g2
  {
    hide WholeBlocks, Fold;
  }

  lemma FoldBlock(m: seq<byte>, block: seq<byte>)
    requires WholeBlocks(m) && |block| == 64
    ensures WholeBlocks(m + block) && Fold(m + block) == Compress(Fold(m), block)
  {
    var all := m + block;
    assert all[..|all| - 64] == m && all[|all| - 64..] == block;
    hide Compress;
  }

  /** One more octet that does not complete the block. */
  lemma OneMore(hash: seq<Word>, block: seq<byte>, index: nat, message: seq<byte>, octet: byte, after: seq<byte>)
    requires Absorbed(hash, block, index, message) && index < 63
    requires after == block[..index] + [octet] + block[index + 1..]
    ensures Absorbed(hash, after, index + 1, message + [octet])
  {
    hide WholeBlocks, Fold;
    SplitMore(message, octet, |message| - index);
    assert after[..index + 1] == block[..index] + [octet];
  }

  lemma SplitMore(message: seq<byte>, octet: byte, n: nat)
    requires n <= |message|
    ensures (message + [octet])[..n] == message[..n] && (message + [octet])[n..] == message[n..] + [octet]
  {}

  /** One that does. */
  lemma LastOfBlock(hash: seq<Word>, block: seq<byte>, message: seq<byte>, octet: byte, after: seq<byte>)
    requires Absorbed(hash, block, 63, message)
    requires after == block[..63] + [octet]
    ensures var m := message + [octet];
            WholeBlocks(m) && forall b: seq<byte> :: |b| == 64 ==> Absorbed(Compress(hash, after), b, 0, m)
  {
    hide Rounds;
    var m := message + [octet];
    var done, rest := message[..|message| - 63], message[|message| - 63..];
    FoldBlock(done, after);
    hide WholeBlocks, Fold, Compress;
    assert m == done + after by { assert message == done + rest; }
    assert m[..|m| - 0] == m;
    forall b: seq<byte> | |b| == 64 ensures Absorbed(Compress(hash, after), b, 0, m) {
      assert b[..0] == m[|m| - 0..];
    }
  }

  /** The last block holds what does not fit before it, and the length; `h` is the hash before
      it and `start` its other octets. */
  lemma PadFits(hash: seq<Word>, block: seq<byte>, index: nat, message: seq<byte>, pad: byte, length: nat,
                h: Hash, start: seq<byte>)
    requires Absorbed(hash, block, index, message)
    requires if index < 56 then h == hash && start == block[..index] + [pad] + Zeros(55 - index)
             else h == Compress(hash, block[..index] + [pad] + Zeros(63 - index)) && start == Zeros(56)
    ensures Fold(Padded(message, pad, length)) == Compress(h, start + BigEndian(length, 8))
  {
    hide Fold, Compress, BigEndian;
    var done, rest, e := message[..|message| - index], message[|message| - index..], BigEndian(length, 8);
    assert message == done + rest;
    if index < 56 {
      assert ZeroCount(|message|) == 55 - index;
      FoldBlock(done, start + e);
      assert Padded(message, pad, length) == done + (start + e);
    } else {
      assert ZeroCount(|message|) == 63 - index + 56;
      var one := rest + [pad] + Zeros(63 - index);
      FoldBlock(done, one);
      FoldBlock(done + one, start + e);
      assert Zeros(63 - index + 56) == Zeros(63 - index) + Zeros(56);
      assert Padded(message, pad, length) == done + one + (start + e);
    }
  }

  lemma {:induction false} BigEndianConcat(n: nat, high: nat, low: nat, k: nat, j: nat)
    requires Joins(n, high, Pow256(j), low)
    ensures BigEndian(n, k + j) == BigEndian(high, k) + BigEndian(low, j)
    decreases j
  {
    hide Joins;
    if j == 0 {
      JoinsNothing(n, high, low);
    } else {
      JoinsShorter(n, high, Pow256(j - 1), 256, low);
      hide Pow256;
      BigEndianConcat(n / 256, high, low / 256, k, j - 1);
      BigEndianStep(n, k + j - 1);
      BigEndianStep(low, j - 1);
      hide BigEndian;
      OneLonger(BigEndian(high, k), BigEndian(low / 256, j - 1), low % 256);
    }
  }

  lemma OneLonger(x: seq<byte>, y: seq<byte>, b: byte)
    ensures x + (y + [b]) == x + y + [b]
  {}

  /** The big-endian octets of the two words that count the bits. */
  lemma LengthOctets(high: Word, low: Word)
    ensures BigEndian(high * TWO_32 + low, 8) ==
            [high / 0x100_0000 % 0x100, high / 0x1_0000 % 0x100, high / 0x100 % 0x100, high % 0x100,
             low / 0x100_0000 % 0x100, low / 0x1_0000 % 0x100, low / 0x100 % 0x100, low % 0x100]
  {
    assert Pow256(2) == 0x1_0000 && Pow256(4) == TWO_32;
    BigEndianConcat(high * TWO_32 + low, high, low, 4, 4);
    hide BigEndian;
    OctetOfWord(high);
    OctetOfWord(low);
  }

  lemma {:induction false} DigestAt(h: seq<Word>, i: nat)
    requires i < 4 * |h|
    ensures |Digest(h)| == 4 * |h|
    ensures Digest(h)[i] == BigEndian(h[i / 4], 4)[i % 4]
    decreases |h|
  {
    hide BigEndian;
    var n := |h| - 1;
    if n > 0 { DigestAt(h[..n], if i < 4 * n then i else 0); }
  }

  lemma OctetOfWord(word: Word)
    ensures BigEndian(word, 4) ==
            [word / 0x100_0000 % 0x100, word / 0x1_0000 % 0x100, word / 0x100 % 0x100, word % 0x100]
  {
    DivideTwice(word);
    BigEndianStep(word, 3);
    BigEndianStep(word / 0x100, 2);
    BigEndianStep(word / 0x1_0000, 1);
    BigEndianStep(word / 0x100_0000, 0);
  }

  /** `word >> 8 * (3 - k)`, cut to an octet. */
  function OctetAtShift(word: Word, k: nat): byte
    requires k < 4
  {
    (if k == 0 then word / 0x100_0000 else if k == 1 then word / 0x1_0000 else if k == 2 then word / 0x100 else word) % 0x100
  }

  lemma OctetAt(word: Word, k: nat)
    requires k < 4
    ensures BigEndian(word, 4)[k] == OctetAtShift(word, k)
  {
    OctetOfWord(word);
    hide BigEndian;
  }

  class Sha1Context {
    const hash: array<Word>
    var lengthLow: Word
    var lengthHigh: Word
    var index: nat
    const block: array<byte>
    var computed: bool
    var corrupted: int
    // what has been taken, and once the digest is computed the padded message
    ghost var message: seq<byte>
    ghost var padded: seq<byte>

    ghost predicate Valid()
      reads this, hash, block
    {
      && hash.Length == 5 && block.Length == 64
      && (corrupted == 0 && !computed ==> Holds(hash[..], block[..], index, lengthLow, lengthHigh, message))
      && (corrupted == 0 && computed ==> WholeBlocks(padded) && hash[..] == Fold(padded))
    }

    /** SHA1Reset on a new context */
    constructor ()
      ensures Valid() && corrupted == 0 && !computed && message == []
      ensures fresh(hash) && fresh(block)
    {
      hash := new Word[5](i requires 0 <= i < 5 => START[i]);
      block := new byte[64](_ => 0);
      lengthLow, lengthHigh, index := 0, 0, 0;
      computed, corrupted := false, 0;
      message, padded := [], [];
      new;
      assert hash[..] == START;
    }

    /** SHA1AddLength: the words overflow only when the sum reaches 2^64. */
    method AddLength(length: nat) returns (overflow: bool)
      requires length < TWO_32
      modifies this`lengthLow, this`lengthHigh, this`corrupted
      ensures var sum := old(lengthHigh * TWO_32 + lengthLow) + length;
              && overflow == (TWO_64 <= sum) && corrupted == (if overflow then 1 else 0)
              && lengthHigh * TWO_32 + lengthLow == if overflow then sum - TWO_64 else sum
    {
      var addTemp := lengthLow;
      lengthLow := (lengthLow + length) % TWO_32;
      overflow := false;
      if lengthLow < addTemp {
        lengthHigh := (lengthHigh + 1) % TWO_32;
        overflow := lengthHigh == 0;
      }
      corrupted := if overflow then 1 else 0;
    }

    // ----- SHA1ProcessMessageBlock -----

    /** The message schedule. */
    method Expand() returns (w: array<Word>)
      requires block.Length == 64
      ensures fresh(w) && w.Length == 80 && w[..] == Schedule(block[..], 80)
    {
      hide RotL, Xor32, WordOf;
      w := new Word[80];
      LoadWords(w);
      for t := 16 to 80
        invariant w[..t] == Schedule(block[..], t)
      {
        w[t] := RotL(1, Xor32(Xor32(Xor32(w[t - 3], w[t - 8]), w[t - 14]), w[t - 16]));
        assert w[t] == NextWord(w[..t]);
        assert w[..t + 1] == w[..t] + [w[t]];
      }
      assert w[..] == w[..80];
    }

    /** The first loop: the block as words. */
    method LoadWords(w: array<Word>)
      requires block.Length == 64 && w.Length == 80
      modifies w
      ensures w[..16] == Schedule(block[..], 16)
    {
      hide NextWord;
      for t := 0 to 16
        invariant w[..t] == Schedule(block[..], t)
      {
        w[t] := block[4 * t] as int * 0x100_0000;
        w[t] := w[t] + block[4 * t + 1] as int * 0x1_0000;
        w[t] := w[t] + block[4 * t + 2] as int * 0x100;
        w[t] := w[t] + block[4 * t + 3] as int;
        assert w[t] == WordOf(block[..][4 * t..4 * (t + 1)]);
        assert w[..t + 1] == w[..t] + [w[t]];
      }
    }

    /** The eighty steps. */
    method Steps(w: array<Word>) returns (r: Regs)
      requires hash.Length == 5 && w.Length == 80
      ensures r == Rounds(Registers(hash[..]), w[..], 80)
    {
      hide RotL, Ch, Maj, Parity;
      var A: Word, B: Word, C: Word, D: Word, E: Word := hash[0], hash[1], hash[2], hash[3], hash[4];
      ghost var start := Registers(hash[..]);
      for t := 0 to 20
        invariant Regs(A, B, C, D, E) == Rounds(start, w[..], t)
      {
        var temp := (RotL(5, A) + Ch(B, C, D) + E + w[t] + 0x5A827999) % TWO_32;
        E, D, C, B, A := D, C, RotL(30, B), A, temp;
      }
      for t := 20 to 40
        invariant Regs(A, B, C, D, E) == Rounds(start, w[..], t)
      {
        var temp := (RotL(5, A) + Parity(B, C, D) + E + w[t] + 0x6ED9EBA1) % TWO_32;
        E, D, C, B, A := D, C, RotL(30, B), A, temp;
      }
      for t := 40 to 60
        invariant Regs(A, B, C, D, E) == Rounds(start, w[..], t)
      {
        var temp := (RotL(5, A) + Maj(B, C, D) + E + w[t] + 0x8F1BBCDC) % TWO_32;
        E, D, C, B, A := D, C, RotL(30, B), A, temp;
      }
      for t := 60 to 80
        invariant Regs(A, B, C, D, E) == Rounds(start, w[..], t)
      {
        var temp := (RotL(5, A) + Parity(B, C, D) + E + w[t] + 0xCA62C1D6) % TWO_32;
        E, D, C, B, A := D, C, RotL(30, B), A, temp;
      }
      r := Regs(A, B, C, D, E);
    }

    /** SHA1ProcessMessageBlock */
    method ProcessMessageBlock()
      requires hash.Length == 5 && block.Length == 64
      modifies this`index, hash
      ensures index == 0 && hash[..] == Compress(old(hash[..]), block[..])
    {
      hide Rounds, Schedule, AddRegs, Registers;
      var w := Expand();
      var r := Steps(w);
      AddToHash(r);
      index := 0;
    }

    method AddToHash(r: Regs)
      requires hash.Length == 5
      modifies hash
      ensures hash[..] == AddRegs(old(hash[..]), r)
    {
      hash[0] := (hash[0] + r.a) % TWO_32;
      hash[1] := (hash[1] + r.b) % TWO_32;
      hash[2] := (hash[2] + r.c) % TWO_32;
      hash[3] := (hash[3] + r.d) % TWO_32;
      hash[4] := (hash[4] + r.e) % TWO_32;
    }

    // ----- Taking the message -----

    /** The body of the loop of SHA1Input. */
    method TakeOctet(octet: byte)
      requires Valid() && corrupted == 0 && !computed
      modifies this`lengthLow, this`lengthHigh, this`index, this`corrupted, this`message, hash, block
      ensures Valid()
      ensures if 8 * (|old(message)| + 1) < TWO_64 then corrupted == 0 && message == old(message) + [octet]
              else corrupted == 1
    {
      ghost var before, tail, was := block[..], index, message;
      block[index] := octet;
      index := index + 1;
      message := message + [octet];
      assert block[..] == before[..tail] + [octet] + before[tail + 1..];
      if tail < 63 {
        OneMore(hash[..], before, tail, was, octet, block[..]);
      } else {
        LastOfBlock(hash[..], before, was, octet, block[..]);
      }
      hide WholeBlocks, Fold, Compress, Absorbed;
      var overflow := AddLength(8);
      if !overflow && index == 64 {
        ProcessMessageBlock();
      }
    }

    /** SHA1Input: after the end of the hash it is refused and spoils the context; otherwise all
        octets are taken, unless the message then has 2^64 bits, which spoils the context
        although success is returned. */
    method Input(data: seq<byte>) returns (rv: int)
      requires Valid()
      modifies this`lengthLow, this`lengthHigh, this`index, this`corrupted, this`message, hash, block
      ensures Valid()
      ensures data == [] ==> rv == SHA_SUCCESS && message == old(message) && corrupted == old(corrupted)
      ensures data != [] && computed ==> rv == corrupted == SHA_STATE_ERROR
      ensures data != [] && !computed && old(corrupted) != 0 ==> rv == corrupted == old(corrupted)
      ensures data != [] && !computed && old(corrupted) == 0 ==>
                && rv == SHA_SUCCESS
                && if 8 * (|old(message)| + |data|) < TWO_64 then corrupted == 0 && message == old(message) + data
                   else corrupted == 1
    {
      rv := SHA_SUCCESS;
      if |data| == 0 {
        return;
      }
      if computed {
        corrupted := SHA_STATE_ERROR;
        return SHA_STATE_ERROR;
      }
      if corrupted != 0 {
        return corrupted;
      }
      TakeAll(data);
    }

    /** The loop of SHA1Input. */
    method TakeAll(data: seq<byte>)
      requires Valid() && corrupted == 0 && !computed && data != []
      modifies this`lengthLow, this`lengthHigh, this`index, this`corrupted, this`message, hash, block
      ensures Valid()
      ensures if 8 * (|old(message)| + |data|) < TWO_64 then corrupted == 0 && message == old(message) + data
              else corrupted == 1
    {
      hide *;
      var i := 0;
      while i < |data| && corrupted == 0
        invariant 0 <= i <= |data| && Valid() && corrupted in {0, 1}
        invariant corrupted == 0 ==> message == old(message) + data[..i]
        invariant corrupted == 0 && 0 < i ==> 8 * (|old(message)| + i) < TWO_64
        invariant corrupted != 0 ==> TWO_64 <= 8 * (|old(message)| + |data|)
      {
        assert old(message) + data[..i] + [data[i]] == old(message) + data[..i + 1];
        TakeOctet(data[i]);
        i := i + 1;
      }
      assert data[..|data|] == data;
    }

    // ----- Padding -----

    /** The loops of SHA1PadMessage that write zeros up to `end`. */
    method FillZeros(end: nat)
      requires index <= end <= block.Length
      modifies this`index, block
      ensures index == end
      ensures block[..end] == old(block[..index]) + Zeros(end - old(index))
      ensures block[end..] == old(block[end..])
    {
      ghost var before, start := block[..], index;
      while index < end
        invariant start <= index <= end
        invariant block[..] == before[..start] + Zeros(index - start) + before[index..]
      {
        block[index] := 0;
        index := index + 1;
      }
    }

    /** The last part of SHA1PadMessage. */
    method WriteLength()
      requires block.Length == 64
      modifies block
      ensures block[..] == old(block[..56]) + BigEndian(lengthHigh * TWO_32 + lengthLow, 8)
    {
      LengthOctets(lengthHigh, lengthLow);
      hide BigEndian;
      block[56], block[57] := lengthHigh / 0x100_0000 % 0x100, lengthHigh / 0x1_0000 % 0x100;
      block[58], block[59] := lengthHigh / 0x100 % 0x100, lengthHigh % 0x100;
      block[60], block[61] := lengthLow / 0x100_0000 % 0x100, lengthLow / 0x1_0000 % 0x100;
      block[62], block[63] := lengthLow / 0x100 % 0x100, lengthLow % 0x100;
      assert block[..56] == old(block[..56]);
      assert block[..] == block[..56] + block[56..];
    }

    /** The first half of SHA1PadMessage: if the length does not fit behind the mark, the block
        is filled and compressed. */
    method StartPadding(pad: byte)
      requires hash.Length == 5 && block.Length == 64 && index < 64
      modifies this`index, hash, block
      ensures if old(index) < 56 then
                index == old(index) + 1 && hash[..] == old(hash[..]) && block[..index] == old(block[..index]) + [pad]
              else index == 0 && hash[..] == Compress(old(hash[..]), old(block[..index]) + [pad] + Zeros(63 - old(index)))
    {
      hide Compress;
      ghost var before, tail := block[..], index;
      if 56 <= index {
        block[index] := pad;
        index := index + 1;
        assert block[..index] == before[..tail] + [pad];
        FillZeros(64);
        assert block[..] == block[..64] == before[..tail] + [pad] + Zeros(63 - tail);
        ProcessMessageBlock();
      } else {
        block[index] := pad;
        index := index + 1;
        assert block[..index] == before[..tail] + [pad];
      }
    }

    /** SHA1PadMessage up to the length. */
    method PadToLength(pad: byte)
      requires hash.Length == 5 && block.Length == 64 && index < 64
      modifies this`index, hash, block
      ensures if old(index) < 56 then
                hash[..] == old(hash[..]) && block[..56] == old(block[..index]) + [pad] + Zeros(55 - old(index))
              else
                && hash[..] == Compress(old(hash[..]), old(block[..index]) + [pad] + Zeros(63 - old(index)))
                && block[..56] == Zeros(56)
    {
      hide Compress;
      StartPadding(pad);
      ghost var before, at := block[..], index;
      FillZeros(56);
      assert before[..0] + Zeros(56) == Zeros(56);
    }

    /** SHA1PadMessage from there on. */
    method LastBlock()
      requires hash.Length == 5 && block.Length == 64
      modifies this`index, hash, block
      ensures hash[..] == Compress(old(hash[..]), old(block[..56]) + BigEndian(lengthHigh * TWO_32 + lengthLow, 8))
    {
      hide *;
      WriteLength();
      ProcessMessageBlock();
    }

    /** SHA1PadMessage */
    method PadMessage(pad: byte)
      requires hash.Length == 5 && block.Length == 64 && Absorbed(hash[..], block[..], index, message)
      modifies this`index, hash, block
      ensures hash[..] == Fold(Padded(message, pad, lengthHigh * TWO_32 + lengthLow))
    {
      hide *;
      ghost var h0: Hash, before, tail, length := hash[..], block[..], index, lengthHigh * TWO_32 + lengthLow;
      AbsorbedIndex(h0, before, tail, message);
      PadToLength(pad);
      PadFits(h0, before, tail, message, pad, length, hash[..], block[..56]);
      LastBlock();
    }

    /** SHA1Finalize */
    method Finalize(pad: byte)
      requires hash.Length == 5 && block.Length == 64 && corrupted == 0
      requires Absorbed(hash[..], block[..], index, message)
      modifies this`lengthLow, this`lengthHigh, this`index, this`computed, this`padded, hash, block
      ensures Valid() && computed
      ensures padded == Padded(message, pad, old(lengthHigh * TWO_32 + lengthLow))
    {
      hide WholeBlocks, Fold, Padded, Absorbed;
      PadMessage(pad);
      padded := Padded(message, pad, lengthHigh * TWO_32 + lengthLow);
      for i := 0 to 64
        modifies block
      {
        block[i] := 0;
      }
      lengthLow, lengthHigh := 0, 0;
      computed := true;
    }

    /** SHA1FinalBits */
    method FinalBits(bits: byte, length: nat) returns (rv: int)
      requires Valid()
      modifies this, hash, block
      ensures Valid() && message == old(message)
      ensures length == 0 ==> rv == SHA_SUCCESS && corrupted == old(corrupted) && computed == old(computed)
      ensures 0 < length && (old(computed) || 8 <= length) ==> rv == corrupted == SHA_STATE_ERROR
      ensures 0 < length < 8 && !old(computed) && old(corrupted) != 0 ==> rv == corrupted == old(corrupted)
      ensures 0 < length < 8 && !old(computed) && old(corrupted) == 0 ==>
                && rv == SHA_SUCCESS && corrupted == 0 && computed
                && padded == Padded(message, PadByte(bits, length), 8 * |message| + length)
    {
      rv := SHA_SUCCESS;
      if length == 0 {
        return;
      }
      if computed || 8 <= length {
        corrupted := SHA_STATE_ERROR;
        return SHA_STATE_ERROR;
      }
      if corrupted != 0 {
        return corrupted;
      }
      hide WholeBlocks, Fold, Padded, PadByte, Absorbed;
      FinishBits(bits, length);
    }

    /** SHA1FinalBits after its checks. */
    method FinishBits(bits: byte, length: nat)
      requires Valid() && corrupted == 0 && !computed && 0 < length < 8
      modifies this, hash, block
      ensures Valid() && message == old(message) && corrupted == 0 && computed
      ensures padded == Padded(message, PadByte(bits, length), 8 * |message| + length)
    {
      hide WholeBlocks, Fold, Padded, PadByte, Absorbed;
      ghost var m := message;
      var pad := MarkBits(bits, length);
      var _ := AddLength(length);
      Finalize(pad);
    }

    /** The masks and marks of SHA1FinalBits. */
    method MarkBits(bits: byte, length: nat) returns (pad: byte)
      requires 0 < length < 8
      ensures pad == PadByte(bits, length)
    {
      Pow2Table();
      var mark: nat := [0x80, 0x40, 0x20, 0x10, 8, 4, 2, 1][length];
      pad := bits - bits % (2 * mark) + mark;
    }

    /** SHA1Result */
    method Result(md: array<byte>) returns (rv: int)
      requires Valid() && md.Length == 20 && md != block
      modifies this, hash, block, md
      ensures Valid() && message == old(message) && corrupted == old(corrupted)
      ensures corrupted != 0 ==> rv == corrupted && md[..] == old(md[..])
      ensures corrupted == 0 ==>
                && rv == SHA_SUCCESS && computed
                && padded == (if old(computed) then old(padded) else Padded(message, 0x80, 8 * |message|))
                && WholeBlocks(padded) && md[..] == Digest(Fold(padded))
    {
      if corrupted != 0 {
        return corrupted;
      }
      hide WholeBlocks, Fold, Padded, Digest, Holds;
      Complete();
      WriteDigest(md);
      rv := SHA_SUCCESS;
    }

    /** The end of the message, unless it has been marked before. */
    method Complete()
      requires Valid() && corrupted == 0
      modifies this, hash, block
      ensures Valid() && message == old(message) && corrupted == 0 && computed
      ensures padded == if old(computed) then old(padded) else Padded(message, 0x80, 8 * |message|)
    {
      hide WholeBlocks, Fold, Padded, Absorbed;
      if !computed {
        Finalize(0x80);
      }
    }

    /** The loop of SHA1Result. */
    method WriteDigest(md: array<byte>)
      requires hash.Length == 5 && md.Length == 20 && md != block
      modifies md
      ensures md[..] == Digest(hash[..])
    {
      hide BigEndian, Digest, OctetAtShift;
      DigestAt(hash[..], 0);
      for i := 0 to 20
        invariant md[..i] == Digest(hash[..])[..i]
      {
        OctetAt(hash[i / 4], i % 4);
        DigestAt(hash[..], i);
        md[i] := OctetAtShift(hash[i / 4], i % 4);
        assert md[..i + 1] == md[..i] + [md[i]];
      }
      assert md[..] == md[..20];
    }
  }

  /** cws_sha1: the digest of the input, cut to its length modulo 2^32. */
  method CwsSha1(input: seq<byte>, output: array<byte>) returns (rv: int)
    requires output.Length == 20
    modifies output
    ensures rv == 0
    ensures var m := input[..|input| % TWO_32]; output[..] == Digest(Fold(Padded(m, 0x80, 8 * |m|)))
  {
    hide WholeBlocks, Fold, Digest, Padded;
    ghost var m := input[..|input| % TWO_32];
    assert [] + m == m;
    var ctx := new Sha1Context();
    var ok := ctx.Input(input[..|input| % TWO_32]);
    var md := new byte[20];
    rv := ctx.Result(md);
    CopyTo(output, 0, md[..]);
    assert output[..] == output[0..20];
  }
}
