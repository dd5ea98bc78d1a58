/**
 * What the validator's answers mean: the grammar, splitting a string in two, the strings
 * that can still be completed, and the scalar values that whole characters stand for.
 */
module Utf8Theory {
  import opened Bytes
  import opened Utf8

  lemma CharSize(c: seq<byte>)
    requires IsChar(c)
    ensures c != [] && GetSize(c[0]) == |c|
  {}

  lemma TextFirst(s: seq<byte>)
    requires s != [] && IsText(s)
    ensures 0 < GetSize(s[0]) <= |s| && IsChar(s[..GetSize(s[0])]) && IsText(s[GetSize(s[0])..])
  {
    var k: nat :| 1 <= k <= |s| && IsChar(s[..k]) && IsText(s[k..]);
    CharSize(s[..k]);
  }

  /** Whether the first k octets are a text, by the first character. */
  lemma FirstChar(s: seq<byte>, k: nat)
    ensures IsText(s[..0])
    ensures s != [] && 0 < k <= |s| && IsText(s[..k]) ==>
              0 < GetSize(s[0]) <= k && IsChar(s[..GetSize(s[0])])
    ensures s != [] && 0 < GetSize(s[0]) <= k <= |s| && IsChar(s[..GetSize(s[0])]) ==>
              (IsText(s[..k]) <==> IsText(s[GetSize(s[0])..][..k - GetSize(s[0])]))
  {
    hide IsChar, GetSize;
    assert s[..0] == [];
    if s != [] && 0 < k <= |s| {
      var t, size := s[..k], GetSize(s[0]);
      if IsText(t) { TextFirst(t); }
      if size <= k { assert t[..size] == s[..size] && t[size..] == s[size..][..k - size]; }
    }
  }

  /** The validator accepts a string with length k exactly when the first k octets are whole
      characters and what follows is nothing or a lead octet announcing more than remains. */
  lemma {:induction false} WholePrefixIsGrammar(s: seq<byte>, k: nat)
    ensures WholePrefix(s) == Some(k)
       <==> k <= |s| && IsText(s[..k]) && (k == |s| || |s| - k < GetSize(s[k]))
    decreases |s|
  {
    hide GetSize, IsChar, IsText, WholePrefix;
    WholePrefixEnds(s);
    FirstChar(s, k);
    if s != [] {
      var size := GetSize(s[0]);
      if 0 < size <= |s| {
        WholePrefixStep(s);
        if IsChar(s[..size]) && size <= k <= |s| { WholePrefixIsGrammar(s[size..], k - size); }
      }
    }
  }

  lemma TextIsWhole(s: seq<byte>)
    ensures IsText(s) <==> WholePrefix(s) == Some(|s|)
  {
    WholePrefixIsGrammar(s, |s|);
    assert s[..|s|] == s;
  }

  lemma SplitParts(p: seq<byte>, q: seq<byte>, n: nat)
    requires n <= |p|
    ensures (p + q)[..n] == p[..n] && (p + q)[n..] == p[n..] + q
  {}

  lemma DropTwice(p: seq<byte>, n: nat, v: nat)
    requires n + v <= |p|
    ensures p[n..][v..] == p[n + v..]
  {}

  /** Validation may be resumed at the last character boundary. */
  lemma {:induction false} WholePrefixSplit(p: seq<byte>, q: seq<byte>)
    ensures WholePrefix(p).None? ==> WholePrefix(p + q).None?
    ensures WholePrefix(p).Some? ==>
              var v := WholePrefix(p).value;
              WholePrefix(p + q) == Plus(v, WholePrefix(p[v..] + q))
    decreases |p|
  {
    hide IsChar, GetSize, WholePrefix;
    WholePrefixEnds(p);
    if p == [] || |p| < GetSize(p[0]) {
      assert p[0..] == p;
    } else {
      var size := GetSize(p[0]);
      SplitParts(p, q, size);
      assert (p + q)[0] == p[0];
      WholePrefixEnds(p + q);
      if 0 < size {
        WholePrefixStep(p);
        WholePrefixStep(p + q);
        if IsChar(p[..size]) {
          WholePrefixSplit(p[size..], q);
          if WholePrefix(p).Some? { DropTwice(p, size, WholePrefix(p[size..]).value); }
        }
      }
    }
  }

  lemma TextConcat(a: seq<byte>, b: seq<byte>)
    requires IsText(a)
    ensures IsText(a + b) <==> IsText(b)
  {
    hide IsText, WholePrefix;
    TextIsWhole(a);
    TextIsWhole(b);
    TextIsWhole(a + b);
    WholePrefixSplit(a, b);
    assert a[|a|..] + b == b;
  }

  predicate IsAscii(s: seq<byte>) {
    forall i :: 0 <= i < |s| ==> s[i] < 0x80
  }

  lemma {:induction false} AsciiIsText(s: seq<byte>)
    requires IsAscii(s)
    ensures WholePrefix(s) == Some(|s|) && IsText(s)
  {
    if s != [] {
      AsciiIsText(s[1..]);
      assert GetSize(s[0]) == 1 && IsChar(s[..1]);
    }
  }

  lemma CharIsText(c: seq<byte>)
    requires IsChar(c)
    ensures IsText(c) && WholePrefix(c) == Some(|c|)
  {
    assert c[..|c|] == c && c[|c|..] == [];
    TextIsWhole(c);
  }

  // ----- Strings that can still be completed -----

  lemma ViableTail(t: seq<byte>)
    requires t != [] && |t| < GetSize(t[0])
    ensures Viable(t) <==> exists c: seq<byte> :: IsChar(c) && t <= c
  {
    if Viable(t) {
      var more :| IsText(t + more);
      TextFirst(t + more);
      var c := (t + more)[..GetSize(t[0])];
      assert t == (t + more)[..|t|] == c[..|t|];
      assert IsChar(c) && t <= c;
    }
    if c: seq<byte> :| IsChar(c) && t <= c {
      CharIsText(c);
      assert t + c[|t|..] == c;
    }
  }

  /** The early test is exact, except that it refuses the lone lead octets 0xE0 and 0xF0,
      which do begin characters: padding them with 0x80 gives an overlong form. */
  lemma MaybeValidExact(t: seq<byte>)
    requires t != [] && |t| < GetSize(t[0])
    ensures MaybeValidSpec(t) <==> Viable(t) && t != [0xE0] && t != [0xF0]
  {
    hide IsChar, Viable, MaybeValidSpec;
    ViableTail(t);
    OverlongLeads();
    PaddedIs(t);
    if Viable(t) && !MaybeValidSpec(t) {
      var d: seq<byte> :| IsChar(d) && t <= d;
      NearMiss(t, d);
    }
  }

  lemma OverlongLeads()
    ensures !MaybeValidSpec([0xE0]) && !MaybeValidSpec([0xF0])
  {
    assert Padded([0xE0])[..3] == [0xE0, 0x80, 0x80] && Padded([0xF0])[..4] == [0xF0, 0x80, 0x80, 0x80];
  }

  /** The padded test tries one completion. */
  lemma PaddedIs(t: seq<byte>)
    requires t != [] && |t| < GetSize(t[0])
    ensures MaybeValidSpec(t) ==> exists c: seq<byte> :: IsChar(c) && t <= c
  {
    var c := Padded(t)[..GetSize(t[0])];
    assert t == c[..|t|] && Padded(t)[0] == t[0];
    hide IsChar;
    assert MaybeValidSpec(t) ==> IsChar(c);
  }

  lemma NearMiss(t: seq<byte>, d: seq<byte>)
    requires t != [] && |t| < GetSize(t[0])
    requires IsChar(d) && t <= d && !MaybeValidSpec(t)
    ensures t == [0xE0] || t == [0xF0]
  {
    assert t == d[..|t|];
    var c := Padded(t)[..|d|];
    assert forall i :: |t| <= i < |d| ==> c[i] == 0x80;
  }

  lemma LoneLeadsAreViable()
    ensures Viable([0xE0]) && Viable([0xF0])
  {
    ViableTail([0xE0]);
    ViableTail([0xF0]);
    assert IsChar([0xE0, 0xA0, 0x80]) && [0xE0] <= [0xE0, 0xA0, 0x80];
    assert IsChar([0xF0, 0x90, 0x80, 0x80]) && [0xF0] <= [0xF0, 0x90, 0x80, 0x80];
  }

  lemma ViablePrefix(s: seq<byte>, more: seq<byte>)
    requires Viable(s + more)
    ensures Viable(s)
  {
    var rest :| IsText(s + more + rest);
    assert s + more + rest == s + (more + rest);
  }

  /** A string can be completed when its whole characters are well formed and so can
      be the character it breaks off in. */
  lemma ViableByWholePrefix(s: seq<byte>)
    ensures Viable(s) <==>
            WholePrefix(s).Some? && (WholePrefix(s).value == |s| || Viable(s[WholePrefix(s).value..]))
  {
    hide IsChar;
    if Viable(s) { ViableTailOf(s); }
    if WholePrefix(s).Some? && (WholePrefix(s).value == |s| || Viable(s[WholePrefix(s).value..])) {
      ViableFromTail(s);
    }
  }

  lemma ViableTailOf(s: seq<byte>)
    requires Viable(s)
    ensures WholePrefix(s).Some?
    ensures WholePrefix(s).value == |s| || Viable(s[WholePrefix(s).value..])
  {
    var more :| IsText(s + more);
    CompletedBy(s, more);
    hide *;
  }

  lemma CompletedBy(s: seq<byte>, more: seq<byte>)
    requires IsText(s + more)
    ensures WholePrefix(s).Some?
    ensures WholePrefix(s).value == |s| || Viable(s[WholePrefix(s).value..])
  {
    hide IsText, WholePrefix;
    TextIsWhole(s + more);
    WholePrefixSplit(s, more);
    var v := WholePrefix(s).value;
    TextIsWhole(s[v..] + more);
  }

  lemma ViableFromTail(s: seq<byte>)
    requires WholePrefix(s).Some?
    requires WholePrefix(s).value == |s| || Viable(s[WholePrefix(s).value..])
    ensures Viable(s)
  {
    hide IsText, IsChar, WholePrefix;
    var v := WholePrefix(s).value;
    WholePrefixIsGrammar(s, v);
    assert s == s[..v] + s[v..];
    if v == |s| {
      assert s + [] == s == s[..v];
    } else {
      var more :| IsText(s[v..] + more);
      TextConcat(s[..v], s[v..] + more);
      assert s[..v] + (s[v..] + more) == s + more;
    }
  }

  // ----- Scalar values (section 3 of RFC 3629) -----

  predicate IsScalar(v: nat) {
    v <= 0xD7FF || 0xE000 <= v <= 0x10FFFF
  }

  function EncodeScalar(v: nat): seq<byte>
    requires IsScalar(v)
  {
    if v <= 0x7F then [v]
    else if v <= 0x7FF then [0xC0 + v / 0x40, 0x80 + v % 0x40]
    else if v <= 0xFFFF then [0xE0 + v / 0x1000, 0x80 + v / 0x40 % 0x40, 0x80 + v % 0x40]
    else [0xF0 + v / 0x40000, 0x80 + v / 0x1000 % 0x40, 0x80 + v / 0x40 % 0x40, 0x80 + v % 0x40]
  }

  function DecodeChar(c: seq<byte>): nat
    requires IsChar(c)
  {
    var b0: int := c[0];
    if |c| == 1 then b0
    else
      var b1: int := c[1];
      if |c| == 2 then (b0 - 0xC0) * 0x40 + (b1 - 0x80)
      else
        var b2: int := c[2];
        if |c| == 3 then (b0 - 0xE0) * 0x1000 + (b1 - 0x80) * 0x40 + (b2 - 0x80)
        else
          var b3: int := c[3];
          (b0 - 0xF0) * 0x40000 + (b1 - 0x80) * 0x1000 + (b2 - 0x80) * 0x40 + (b3 - 0x80)
  }

  lemma CharRoundTrip(c: seq<byte>)
    requires IsChar(c)
    ensures IsScalar(DecodeChar(c)) && EncodeScalar(DecodeChar(c)) == c
  {
    if |c| == 1 {
      assert c == [c[0]];
    } else if |c| == 2 {
      CharOfTwo(c);
    } else if |c| == 3 {
      CharOfThree(c);
    } else {
      CharOfFour(c);
    }
  }

  lemma CharOfTwo(c: seq<byte>)
    requires IsChar(c) && |c| == 2
    ensures IsScalar(DecodeChar(c)) && EncodeScalar(DecodeChar(c)) == c
  {
    TwoOctets(c[0], c[1]);
    assert c == [c[0], c[1]];
  }

  lemma CharOfThree(c: seq<byte>)
    requires IsChar(c) && |c| == 3
    ensures IsScalar(DecodeChar(c)) && EncodeScalar(DecodeChar(c)) == c
  {
    ThreeOctets(c[0], c[1], c[2]);
    assert c == [c[0], c[1], c[2]];
  }

  lemma CharOfFour(c: seq<byte>)
    requires IsChar(c) && |c| == 4
    ensures IsScalar(DecodeChar(c)) && EncodeScalar(DecodeChar(c)) == c
  {
    FourOctets(c[0], c[1], c[2], c[3]);
    assert c == [c[0], c[1], c[2], c[3]];
  }

  lemma TwoOctets(b0: int, b1: int)
    requires 0xC2 <= b0 <= 0xDF && 0x80 <= b1 <= 0xBF
    ensures var v := (b0 - 0xC0) * 0x40 + (b1 - 0x80);
            0x7F < v <= 0x7FF && v / 0x40 == b0 - 0xC0 && v % 0x40 == b1 - 0x80
  {}

  lemma ThreeOctets(b0: int, b1: int, b2: int)
    requires 0xE0 <= b0 <= 0xEF && 0x80 <= b1 <= 0xBF && 0x80 <= b2 <= 0xBF
    ensures var v := (b0 - 0xE0) * 0x1000 + (b1 - 0x80) * 0x40 + (b2 - 0x80);
            && v / 0x1000 == b0 - 0xE0 && v / 0x40 % 0x40 == b1 - 0x80 && v % 0x40 == b2 - 0x80
            && (b0 != 0xE0 || 0xA0 <= b1 ==> 0x7FF < v) && v <= 0xFFFF
            && (b0 < 0xED || (b0 == 0xED && b1 <= 0x9F) ==> v <= 0xD7FF)
            && (b0 > 0xED ==> 0xE000 <= v)
  {
    var v := (b0 - 0xE0) * 0x1000 + (b1 - 0x80) * 0x40 + (b2 - 0x80);
    assert v / 0x40 == (b0 - 0xE0) * 0x40 + (b1 - 0x80);
  }

  lemma FourOctets(b0: int, b1: int, b2: int, b3: int)
    requires 0xF0 <= b0 <= 0xF4 && 0x80 <= b1 <= 0xBF && 0x80 <= b2 <= 0xBF && 0x80 <= b3 <= 0xBF
    ensures var v := (b0 - 0xF0) * 0x40000 + (b1 - 0x80) * 0x1000 + (b2 - 0x80) * 0x40 + (b3 - 0x80);
            && v / 0x40000 == b0 - 0xF0 && v / 0x1000 % 0x40 == b1 - 0x80
            && v / 0x40 % 0x40 == b2 - 0x80 && v % 0x40 == b3 - 0x80
            && (b0 != 0xF0 || 0x90 <= b1 ==> 0xFFFF < v)
            && (b0 != 0xF4 || b1 <= 0x8F ==> v <= 0x10FFFF)
  {
    var v := (b0 - 0xF0) * 0x40000 + (b1 - 0x80) * 0x1000 + (b2 - 0x80) * 0x40 + (b3 - 0x80);
    assert v / 0x40 == (b0 - 0xF0) * 0x1000 + (b1 - 0x80) * 0x40 + (b2 - 0x80);
    assert v / 0x1000 == (b0 - 0xF0) * 0x40 + (b1 - 0x80);
  }

  lemma ScalarRoundTrip(v: nat)
    requires IsScalar(v)
    ensures IsChar(EncodeScalar(v)) && DecodeChar(EncodeScalar(v)) == v
  {
    Digits(v);
    hide EncodeScalar;
    if v <= 0x7FF { ShortScalar(v); } else if v <= 0xFFFF { MediumScalar(v); } else { LongScalar(v); }
  }

  lemma Digits(v: nat)
    ensures v == v / 0x40 * 0x40 + v % 0x40
    ensures v / 0x40 == v / 0x1000 * 0x40 + v / 0x40 % 0x40
    ensures v / 0x1000 == v / 0x40000 * 0x40 + v / 0x1000 % 0x40
  {}

  lemma ShortScalar(v: nat)
    requires v <= 0x7FF
    ensures IsChar(EncodeScalar(v)) && DecodeChar(EncodeScalar(v)) == v
  {}

  lemma MediumScalar(v: nat)
    requires 0x7FF < v <= 0xFFFF && IsScalar(v)
    ensures IsChar(EncodeScalar(v)) && DecodeChar(EncodeScalar(v)) == v
  {
    Digits(v);
  }

  lemma LongScalar(v: nat)
    requires 0xFFFF < v <= 0x10FFFF
    ensures IsChar(EncodeScalar(v)) && DecodeChar(EncodeScalar(v)) == v
  {
    Digits(v);
  }

  predicate AllScalars(vs: seq<nat>) {
    forall i :: 0 <= i < |vs| ==> IsScalar(vs[i])
  }

  function EncodeAll(vs: seq<nat>): seq<byte>
    requires AllScalars(vs)
  {
    if vs == [] then [] else EncodeScalar(vs[0]) + EncodeAll(vs[1..])
  }

  /** Text is exactly what encodes some sequence of scalar values. */
  lemma TextIsEncodedScalars(s: seq<byte>)
    ensures IsText(s) <==> exists vs :: AllScalars(vs) && EncodeAll(vs) == s
  {
    if IsText(s) { var vs := DecodeAll(s); }
    if vs :| AllScalars(vs) && EncodeAll(vs) == s { EncodedIsText(vs); }
  }

  lemma {:induction false} DecodeAll(s: seq<byte>) returns (vs: seq<nat>)
    requires IsText(s)
    ensures AllScalars(vs) && EncodeAll(vs) == s
    decreases |s|
  {
    hide IsChar, GetSize, DecodeChar, EncodeScalar, IsScalar, IsText;
    if s == [] {
      vs := [];
    } else {
      TextFirst(s);
      var size := GetSize(s[0]);
      CharRoundTrip(s[..size]);
      var rest := DecodeAll(s[size..]);
      vs := [DecodeChar(s[..size])] + rest;
      assert vs[1..] == rest;
    }
  }

  lemma {:induction false} EncodedIsText(vs: seq<nat>)
    requires AllScalars(vs)
    ensures IsText(EncodeAll(vs))
  {
    if vs != [] {
      EncodedIsText(vs[1..]);
      ScalarRoundTrip(vs[0]);
      CharIsText(EncodeScalar(vs[0]));
      TextConcat(EncodeScalar(vs[0]), EncodeAll(vs[1..]));
    }
  }
}
