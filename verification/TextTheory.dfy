/**
 * What _process_text_stream does to the octets of one frame: only whole characters are let
 * through, and exactly when it makes no difference to cut the octets in two.
 */
module TextTheory {
  import opened Bytes
  import opened Utf8
  import opened Utf8Theory
  import opened ReceiveSpec

  /** What is handed on is always whole characters. */
  lemma SentIsText(stash: seq<byte>, more: nat, final: bool, p: seq<byte>)
    requires StashShape(stash, more) && |stash| + more <= 4
    ensures var t := TextStep(stash, more, final, p); t.TextOk? ==> IsText(t.send)
  {
    hide IsChar;
    var t := TextStep(stash, more, final, p);
    if t.TextOk? {
      if more > 0 {
        TextIsWhole(t.send);
      } else {
        WholePrefixIsGrammar(p, WholePrefix(p).value);
        assert p[..|p|] == p;
      }
    }
  }

  // ----- Cutting a piece of text in two -----

  /** The octets p ++ q of one frame, looked at in two calls. */
  function TextTwice(stash: seq<byte>, more: nat, final: bool, p: seq<byte>, q: seq<byte>): TextResult
    requires StashShape(stash, more) && |stash| + more <= 4
  {
    match TextStep(stash, more, false, p)
    case TextBad => TextBad
    case TextOk(s1, m1, sent1) =>
      TextStepOk(stash, more, false, p);
      match TextStep(s1, m1, final, q)
      case TextBad => TextBad
      case TextOk(s2, m2, sent2) => TextOk(s2, m2, sent1 + sent2)
  }

  /** Whether the pending character survives the octets p. */
  predicate PendingOk(stash: seq<byte>, more: nat, p: seq<byte>)
    requires |stash| + more <= 4 && stash != []
  {
    if |p| < more then MaybeValidSpec(stash + p) else IsChar(stash + p[..more])
  }

  /** When cutting between p and q changes nothing.  With a character pending, the cut must
      come before it is complete, at a point where the early test accepts it; otherwise any
      character the cut breaks must be completed by exactly the rest, or be malformed. */
  predicate CutIsHarmless(stash: seq<byte>, more: nat, final: bool, p: seq<byte>, q: seq<byte>)
    requires StashShape(stash, more) && |stash| + more <= 4
  {
    if more > 0 then
      !PendingOk(stash, more, p + q) || (|p| < more && MaybeValidSpec(stash + p))
    else
      match WholePrefix(p)
      case None => true
      case Some(v) => v == |p| || BrokenIsHarmless(p[v..], q, final)
  }

  predicate BrokenIsHarmless(t: seq<byte>, q: seq<byte>, final: bool)
    requires t != []
  {
    var more := GetSize(t[0]) - |t|;
    if |q| < more then |t + q| <= 4 && MaybeValidSpec(t + q) != final
    else if |q| == more then true
    else 0 <= more && !IsChar(t + q[..more])
  }

  /** Cutting is harmless in exactly those cases. */
  lemma CutExactly(stash: seq<byte>, more: nat, final: bool, p: seq<byte>, q: seq<byte>)
    requires StashShape(stash, more) && |stash| + more <= 4 && q != []
    ensures TextTwice(stash, more, final, p, q) == TextStep(stash, more, final, p + q)
       <==> CutIsHarmless(stash, more, final, p, q)
  {
    if more > 0 {
      CutPending(stash, more, final, p, q);
    } else {
      WholePrefixSplit(p, q);
      if WholePrefix(p).Some? {
        var v := WholePrefix(p).value;
        if v == |p| {
          assert p[v..] + q == q;
          CutAtBoundary(final, p, q);
        } else {
          WholePrefixStops(p);
          CutInside(final, p, q);
        }
      }
    }
  }

  lemma CutAtBoundary(final: bool, p: seq<byte>, q: seq<byte>)
    requires WholePrefix(p) == Some(|p|) && WholePrefix(p + q) == Plus(|p|, WholePrefix(q))
    ensures TextTwice([], 0, final, p, q) == TextStep([], 0, final, p + q)
  {
    hide IsChar, WholePrefix;
    if WholePrefix(q).Some? {
      var w := WholePrefix(q).value;
      assert (p + q)[|p| + w..] == q[w..] && (p + q)[..|p| + w] == p + q[..w];
    }
  }

  lemma WholeOrBad(c: seq<byte>)
    requires c != [] && |c| == GetSize(c[0])
    ensures WholePrefix(c) == if IsChar(c) then Some(|c|) else None
  {
    hide IsChar;
    assert c[..|c|] == c && c[|c|..] == [];
  }

  lemma CutPending(stash: seq<byte>, more: nat, final: bool, p: seq<byte>, q: seq<byte>)
    requires StashShape(stash, more) && |stash| + more <= 4 && q != [] && more > 0
    ensures TextTwice(stash, more, final, p, q) == TextStep(stash, more, final, p + q)
       <==> CutIsHarmless(stash, more, final, p, q)
  {
    if |p| < more { CutBeforeComplete(stash, more, final, p, q); }
    else { CutAfterComplete(stash, more, final, p, q); }
  }

  /** What completing the stash amounts to. */
  lemma CompleteStashIs(stash: seq<byte>, more: nat, p: seq<byte>)
    requires StashShape(stash, more) && |stash| + more <= 4 && more > 0
    ensures PendingOk(stash, more, p) <==> CompleteStash(stash, more, p).TextOk?
    ensures PendingOk(stash, more, p) ==>
              CompleteStash(stash, more, p) == (if |p| < more then TextOk(stash + p, more - |p|, [])
                                                else TextOk([], 0, stash + p[..more]))
  {
    hide IsChar, WholePrefix, MaybeValidSpec;
    if more <= |p| { WholeOrBad(stash + p[..more]); } else { assert p[..|p|] == p; }
  }

  lemma CutBeforeComplete(stash: seq<byte>, more: nat, final: bool, p: seq<byte>, q: seq<byte>)
    requires StashShape(stash, more) && |stash| + more <= 4 && q != [] && |p| < more
    ensures TextTwice(stash, more, final, p, q) == TextStep(stash, more, final, p + q)
       <==> CutIsHarmless(stash, more, final, p, q)
  {
    hide IsChar, WholePrefix, MaybeValidSpec, CompleteStash;
    CompleteStashIs(stash, more, p);
    CompleteStashIs(stash, more, p + q);
    if MaybeValidSpec(stash + p) {
      CompleteStashIs(stash + p, more - |p|, q);
      assert stash + p + q == stash + (p + q);
      if more <= |p + q| {
        assert stash + p + q[..more - |p|] == stash + (p + q)[..more];
      }
    }
  }

  lemma CutAfterComplete(stash: seq<byte>, more: nat, final: bool, p: seq<byte>, q: seq<byte>)
    requires StashShape(stash, more) && |stash| + more <= 4 && q != [] && 0 < more <= |p|
    ensures TextTwice(stash, more, final, p, q) == TextStep(stash, more, final, p + q)
       <==> CutIsHarmless(stash, more, final, p, q)
  {
    hide IsChar, WholePrefix, MaybeValidSpec, CompleteStash;
    CompleteStashIs(stash, more, p);
    CompleteStashIs(stash, more, p + q);
    assert (p + q)[..more] == p[..more];
    SomethingIsKept(final, q);
    var t := TextStep([], 0, final, q);
    if t.TextOk? {
      var c := stash + p[..more];
      assert |c + t.send| == |c| + |t.send|;
    }
  }

  /** Octets looked at with an empty stash end up sent or stashed. */
  lemma SomethingIsKept(final: bool, q: seq<byte>)
    requires q != []
    ensures var t := TextStep([], 0, final, q); t.TextOk? ==> t.stash != [] || t.send != []
  {}

  /** What a tail amounts to once more octets follow it. */
  lemma BrokenTail(t: seq<byte>, q: seq<byte>)
    requires t != [] && |t| < GetSize(t[0]) && q != []
    ensures var more := GetSize(t[0]) - |t|;
            WholePrefix(t + q) ==
              if |q| < more then Some(0)
              else if !IsChar(t + q[..more]) then None
              else Plus(|t| + more, WholePrefix(q[more..]))
  {
    var more := GetSize(t[0]) - |t|;
    if |q| < more {
      BrokenCharStops(t + q);
    } else {
      hide IsChar;
      assert (t + q)[..|t| + more] == t + q[..more] && (t + q)[|t| + more..] == q[more..];
      WholePrefixStep(t + q);
    }
  }

  lemma CutInside(final: bool, p: seq<byte>, q: seq<byte>)
    requires WholePrefix(p).Some? && WholePrefix(p).value < |p| && q != []
    requires |p| - WholePrefix(p).value < GetSize(p[WholePrefix(p).value])
    requires WholePrefix(p + q) == Plus(WholePrefix(p).value, WholePrefix(p[WholePrefix(p).value..] + q))
    ensures TextTwice([], 0, final, p, q) == TextStep([], 0, final, p + q)
       <==> BrokenIsHarmless(p[WholePrefix(p).value..], q, final)
  {
    hide IsChar, WholePrefix, MaybeValidSpec, CompleteStash;
    var v := WholePrefix(p).value;
    var t := p[v..];
    var more := GetSize(t[0]) - |t|;
    BrokenTail(t, q);
    CompleteStashIs(t, more, q);
    assert TextStep([], 0, false, p) == TextOk(t, more, p[..v]);
    if |q| < more {
      assert (p + q)[v..] == t + q && (p + q)[..v] == p[..v];
    } else {
      assert t + q[..more] == (p + q)[v..v + |t| + more];
      if IsChar(t + q[..more]) {
        assert WholePrefix([]) == Some(0) by { TextIsWhole([]); }
        CutInsideGood(final, p, q, v, more);
      }
    }
  }

  lemma CutInsideGood(final: bool, p: seq<byte>, q: seq<byte>, v: nat, more: nat)
    requires v < |p| && 0 < more <= |q|
    requires WholePrefix(p + q) == Plus(|p| + more, WholePrefix(q[more..]))
    requires WholePrefix([]) == Some(0)
    ensures (TextOk([], 0, p[..v] + (p[v..] + q[..more])) == TextStep([], 0, final, p + q)) <==> |q| == more
  {
    hide IsChar, WholePrefix, MaybeValidSpec, CompleteStash, GetSize;
    Rejoin(p, q[..more], v);
    if |q| == more {
      assert q[..more] == q && q[more..] == [];
    } else {
      LongerIsNotShorter(final, p, q, more);
    }
  }

  lemma Rejoin(p: seq<byte>, c: seq<byte>, v: nat)
    requires v <= |p|
    ensures p[..v] + (p[v..] + c) == p + c
  {}

  lemma LongerIsNotShorter(final: bool, p: seq<byte>, q: seq<byte>, more: nat)
    requires more < |q|
    ensures TextOk([], 0, p + q[..more]) != TextStep([], 0, final, p + q)
  {
    hide IsChar, WholePrefix, MaybeValidSpec, CompleteStash, GetSize;
    var s := TextStep([], 0, final, p + q);
    if s.TextOk? {
      var k := WholePrefix(p + q).value;
      if k < |p + q| { assert s.stash == (p + q)[k..] != []; }
      else { assert |s.send| == |p| + |q| != |p + q[..more]|; }
    }
  }

  lemma BrokenCharStops(s: seq<byte>)
    requires s != [] && |s| < GetSize(s[0])
    ensures WholePrefix(s) == Some(0)
  {}

  // ----- Failing as soon as the text cannot be completed -----

  /** The octets of one frame, each looked at in a call of its own, none the last of a message. */
  function Bytewise(p: seq<byte>): (t: TextResult)
    ensures t.TextOk? ==> StashShape(t.stash, t.more) && |t.stash| + t.more <= 4
  {
    if p == [] then TextOk([], 0, [])
    else
      var n := |p| - 1;
      match Bytewise(p[..n])
      case TextBad => TextBad
      case TextOk(s1, m1, sent1) =>
        TextStepOk(s1, m1, false, p[n..]);
        match TextStep(s1, m1, false, p[n..])
        case TextBad => TextBad
        case TextOk(s2, m2, sent2) => TextOk(s2, m2, sent1 + sent2)
  }

  lemma ViableAfterText(a: seq<byte>, b: seq<byte>)
    requires IsText(a)
    ensures Viable(a + b) <==> Viable(b)
  {
    hide IsText;
    if Viable(a + b) {
      var more :| IsText(a + b + more);
      assert a + b + more == a + (b + more);
      TextConcat(a, b + more);
    }
    if Viable(b) {
      var more :| IsText(b + more);
      assert a + b + more == a + (b + more);
      TextConcat(a, b + more);
    }
  }

  lemma ViableLead(b: byte)
    ensures Viable([b]) <==> GetSize(b) > 0
  {
    if GetSize(b) > 1 {
      MaybeValidExact([b]);
      LoneLeadsAreViable();
      if b != 0xE0 && b != 0xF0 { LeadIsMaybeValid(b); }
    } else if GetSize(b) == 1 {
      CharIsText([b]);
      assert [b] + [] == [b];
    } else if Viable([b]) {
      var more :| IsText([b] + more);
      TextFirst([b] + more);
    }
  }

  lemma LeadIsMaybeValid(b: byte)
    requires GetSize(b) > 1 && b != 0xE0 && b != 0xF0
    ensures MaybeValidSpec([b])
  {
    assert Padded([b]) == [b, 0x80, 0x80, 0x80];
  }

  lemma ViableChar(u: seq<byte>)
    requires u != [] && |u| == GetSize(u[0])
    ensures Viable(u) <==> IsChar(u)
  {
    hide IsChar;
    if Viable(u) {
      var more :| IsText(u + more);
      TextFirst(u + more);
      assert (u + more)[..|u|] == u;
    }
    if IsChar(u) {
      CharIsText(u);
      assert u + [] == u;
    }
  }

  /** One more octet after text `sent` and a pending stash. */
  lemma OneMoreOctet(stash: seq<byte>, more: nat, b: byte)
    requires StashShape(stash, more) && |stash| + more <= 4
    ensures var t := TextStep(stash, more, false, [b]);
            && (t.TextOk? <==> Viable(stash + [b]))
            && (t.TextOk? ==> t.send + t.stash == stash + [b] && IsText(t.send))
  {
    hide IsChar, MaybeValidSpec;
    SentIsText(stash, more, false, [b]);
    if more == 0 {
      ViableLead(b);
      if GetSize(b) == 1 { assert IsAscii([b]); AsciiIsText([b]); }
      assert stash + [b] == [b];
    } else {
      var u := stash + [b];
      CompleteStashIs(stash, more, [b]);
      assert [b][..1] == [b];
      if 1 < more { MaybeValidExact(u); } else { ViableChar(u); }
    }
  }

  /** Fed octet by octet, the receiver keeps the connection open exactly as long as the octets
      seen can still become text, and all of them are either handed on or in the stash. */
  lemma {:induction false} BytewiseIsViable(p: seq<byte>)
    ensures Bytewise(p).TextOk? <==> Viable(p)
    ensures Bytewise(p).TextOk? ==> Bytewise(p).send + Bytewise(p).stash == p && IsText(Bytewise(p).send)
  {
    hide TextStep, Viable;
    if p == [] {
      assert IsText([]) && Viable([]) by { TextIsWhole([]); ViableByWholePrefix([]); }
    } else {
      hide IsText;
      var n := |p| - 1;
      BytewiseIsViable(p[..n]);
      assert p == p[..n] + p[n..] && p[n..] == [p[n]];
      if Bytewise(p[..n]).TextOk? {
        FailFastStep(Bytewise(p[..n]), p[..n], p[n]);
      } else if Viable(p) {
        ViablePrefix(p[..n], p[n..]);
      }
    }
  }

  lemma FailFastStep(before: TextResult, p: seq<byte>, b: byte)
    requires before.TextOk? && StashShape(before.stash, before.more) && |before.stash| + before.more <= 4
    requires before.send + before.stash == p && IsText(before.send)
    ensures var t := TextStep(before.stash, before.more, false, [b]);
            && (t.TextOk? <==> Viable(p + [b]))
            && (t.TextOk? ==> before.send + t.send + t.stash == p + [b] && IsText(before.send + t.send))
  {
    hide TextStep, Viable, IsText;
    OneMoreOctet(before.stash, before.more, b);
    assert p + [b] == before.send + (before.stash + [b]);
    ViableAfterText(before.send, before.stash + [b]);
    var t := TextStep(before.stash, before.more, false, [b]);
    if t.TextOk? {
      TextConcat(before.send, t.send);
      assert before.send + t.send + t.stash == before.send + (t.send + t.stash);
    }
  }
}
