/**
 * src/utf8.c: the validator used on received and on sent text, against the grammar of
 * section 4 of RFC 3629.
 */
module Utf8 {
  import opened Bytes

  // ----- The grammar of RFC 3629 -----

  predicate Tail(b: byte) {
    0x80 <= b <= 0xBF
  }

  /** One well-formed character (UTF8-1 to UTF8-4). */
  predicate IsChar(s: seq<byte>) {
    || (|s| == 1 && s[0] <= 0x7F)
    || (|s| == 2 && 0xC2 <= s[0] <= 0xDF && Tail(s[1]))
    || (|s| == 3 && Tail(s[2]) &&
        (|| (s[0] == 0xE0 && 0xA0 <= s[1] <= 0xBF)
         || (0xE1 <= s[0] <= 0xEC && Tail(s[1]))
         || (s[0] == 0xED && 0x80 <= s[1] <= 0x9F)
         || (0xEE <= s[0] <= 0xEF && Tail(s[1]))))
    || (|s| == 4 && Tail(s[2]) && Tail(s[3]) &&
        (|| (s[0] == 0xF0 && 0x90 <= s[1] <= 0xBF)
         || (0xF1 <= s[0] <= 0xF3 && Tail(s[1]))
         || (s[0] == 0xF4 && 0x80 <= s[1] <= 0x8F)))
  }

  /** A string of whole characters. */
  ghost predicate IsText(s: seq<byte>)
    decreases |s|
  {
    s == [] || exists k: nat :: 1 <= k <= |s| && IsChar(s[..k]) && IsText(s[k..])
  }

  /** The start of some text: more octets can still make it whole. */
  ghost predicate Viable(s: seq<byte>) {
    exists more: seq<byte> :: IsText(s + more)
  }

  // ----- The lead-octet table and the validator -----

  /** The table `utf8_len`: octets in the character a lead octet announces, 0 if it is none. */
  function GetSize(c: byte): nat {
    if c < 0x80 then 1
    else if c < 0xC2 then 0
    else if c < 0xE0 then 2
    else if c < 0xF0 then 3
    else if c < 0xF5 then 4
    else 0
  }

  /** How many octets of `s` are whole characters before it ends, perhaps inside a
      character; None when a malformed character comes first. */
  function WholePrefix(s: seq<byte>): (r: Option<nat>)
    ensures r.Some? ==> r.value <= |s|
  {
    if s == [] then Some(0)
    else
      var size := GetSize(s[0]);
      if |s| < size then Some(0)
      else if size == 0 || !IsChar(s[..size]) then None
      else Plus(size, WholePrefix(s[size..]))
  }

  function Plus(n: nat, r: Option<nat>): Option<nat> {
    match r case None => None case Some(k) => Some(n + k)
  }

  lemma WholePrefixStep(s: seq<byte>)
    requires s != [] && 0 < GetSize(s[0]) <= |s|
    ensures IsChar(s[..GetSize(s[0])]) ==> WholePrefix(s) == Plus(GetSize(s[0]), WholePrefix(s[GetSize(s[0])..]))
    ensures !IsChar(s[..GetSize(s[0])]) ==> WholePrefix(s) == None
  {
    hide IsChar, GetSize;
  }

  lemma WholePrefixEnds(s: seq<byte>)
    ensures s == [] ==> WholePrefix(s) == Some(0)
    ensures s != [] && |s| < GetSize(s[0]) ==> WholePrefix(s) == Some(0)
    ensures s != [] && GetSize(s[0]) == 0 ==> WholePrefix(s) == None
  {
    hide IsChar, GetSize;
  }

  lemma {:induction false} WholePrefixStops(s: seq<byte>)
    requires WholePrefix(s).Some? && WholePrefix(s).value < |s|
    ensures |s| - WholePrefix(s).value < GetSize(s[WholePrefix(s).value])
    decreases |s|
  {
    var size := GetSize(s[0]);
    if size <= |s| { WholePrefixStops(s[size..]); }
  }

  predicate Checks3(b0: int, b1: int, b2: int) {
    var c := (b0 % 16) * 0x1000 + (b1 % 64) * 0x40 + b2 % 64;
    !(c < 0x800 || 0xD800 <= c <= 0xDFFF || b1 / 64 != 2 || b2 / 64 != 2)
  }

  predicate Checks4(b0: int, b1: int, b2: int, b3: int) {
    var c := (b0 % 8) * 0x40000 + (b1 % 64) * 0x1000 + (b2 % 64) * 0x40 + b3 % 64;
    !(c < 0x10000 || 0x10FFFF < c || b1 / 64 != 2 || b2 / 64 != 2 || b3 / 64 != 2)
  }

  /** One turn of the validator's loop: the masks and comparisons decide the grammar. */
  method CheckChar(bytes: seq<byte>) returns (ok: bool)
    requires bytes != [] && |bytes| == GetSize(bytes[0])
    ensures ok == IsChar(bytes)
  {
    if |bytes| == 2 {
      return bytes[1] / 64 == 2;
    } else if |bytes| == 3 {
      return Checks3(bytes[0], bytes[1], bytes[2]);
    } else if |bytes| == 4 {
      return Checks4(bytes[0], bytes[1], bytes[2], bytes[3]);
    }
    return true;
  }

  /** The validator: `len` is the C in-out parameter, left alone on an error. */
  method Validate(text: seq<byte>) returns (ok: bool, len: nat)
    ensures ok == WholePrefix(text).Some?
    ensures len == if ok then WholePrefix(text).value else |text|
  {
    hide WholePrefix, IsChar, GetSize;
    len := |text|;
    var left, at := |text|, 0;
    assert text[0..] == text;
    while left > 0
      invariant 0 <= left && at + left == |text| == len
      invariant WholePrefix(text) == Plus(at, WholePrefix(text[at..]))
    {
      ghost var rest := text[at..];
      var size := GetSize(text[at]);
      WholePrefixEnds(rest);
      if left < size {
        return true, len - left;
      }
      if size == 0 {
        return false, len;
      }
      var good := CheckChar(text[at..at + size]);
      assert text[at..at + size] == rest[..size];
      WholePrefixStep(rest);
      if !good {
        return false, len;
      }
      assert rest[size..] == text[at + size..];
      left, at := left - size, at + size;
    }
    WholePrefixEnds(text[at..]);
    return true, len - left;
  }

  /** Four octets, those missing from `text` taken as 0x80. */
  function Padded(text: seq<byte>): (r: seq<byte>)
    requires |text| <= 4
    ensures |r| == 4
  {
    text + [0, 0x80, 0x80, 0x80][|text|..]
  }

  /** utf8_maybe_valid as a function. */
  predicate MaybeValidSpec(text: seq<byte>)
    requires |text| <= 4
  {
    IsChar(Padded(text)[..GetSize(Padded(text)[0])])
  }

  method MaybeValid(text: seq<byte>) returns (ok: bool)
    requires |text| <= 4
    ensures ok == MaybeValidSpec(text)
  {
    var buf := new byte[4](i => if i == 0 then 0 else 0x80);
    for i := 0 to |text|
      invariant forall j :: 0 <= j < 4 ==> buf[j] == if j < i then text[j] else if j == 0 then 0 else 0x80
    {
      buf[i] := text[i];
    }
    assert buf[..] == Padded(text);
    hide Padded;
    var size := GetSize(buf[0]);
    assert buf[..size] == buf[..][..size];
    if size == 0 {
      return false;
    }
    OneChar(buf[..size]);
    var valid, _ := Validate(buf[..size]);
    return valid;
  }

  /** The validator on one character. */
  lemma OneChar(c: seq<byte>)
    requires c != [] && |c| == GetSize(c[0])
    ensures WholePrefix(c).Some? <==> IsChar(c)
  {
    hide IsChar, GetSize, WholePrefix;
    WholePrefixStep(c);
    assert c[..|c|] == c && c[|c|..] == [];
    WholePrefixEnds([]);
  }
}
