/**
 * The payloads of a text message whose characters may span frames, which section 5.4 of
 * RFC 6455 allows: exactly which of them the receiver accepts, and which octets it keeps.
 */
module TextFragments {
  import opened Bytes
  import opened Utf8
  import opened Utf8Theory
  import opened TextTheory
  import opened ReceiveSpec

  /** The payloads of the frames of a message, each looked at whole; `ends`: the last of them
      ends the message. */
  function Fragments(stash: seq<byte>, more: nat, ps: seq<seq<byte>>, ends: bool): (t: TextResult)
    requires StashShape(stash, more) && |stash| + more <= 4
    decreases |ps|
  {
    if ps == [] then TextOk(stash, more, [])
    else
      match TextStep(stash, more, ends && |ps| == 1, ps[0])
      case TextBad => TextBad
      case TextOk(s1, m1, sent1) =>
        TextStepOk(stash, more, ends && |ps| == 1, ps[0]);
        match Fragments(s1, m1, ps[1..], ends)
        case TextBad => TextBad
        case TextOk(s2, m2, sent2) => TextOk(s2, m2, sent1 + sent2)
  }

  // ----- The same by the octets alone -----

  /** The beginning of a character in which the octets end, if they do. */
  function Unfinished(before: seq<byte>): (t: seq<byte>)
    ensures t != [] ==> |t| < GetSize(t[0]) <= 4
  {
    match WholePrefix(before)
    case None => []
    case Some(v) =>
      if v < |before| then WholePrefixStops(before); before[v..] else []
  }

  function Missing(before: seq<byte>): (n: nat)
    ensures |Unfinished(before)| + n <= 4
  {
    var t := Unfinished(before);
    if t == [] then 0 else GetSize(t[0]) - |t|
  }

  /** Of a frame that begins inside a character nothing behind that character is looked at. */
  function LookedAt(before: seq<byte>, p: seq<byte>): (x: seq<byte>)
    ensures |x| <= |p|
  {
    if 0 < Missing(before) < |p| then p[..Missing(before)] else p
  }

  /** All octets that are looked at. */
  function Looked(before: seq<byte>, ps: seq<seq<byte>>): seq<byte>
    decreases |ps|
  {
    if ps == [] then before else Looked(before + LookedAt(before, ps[0]), ps[1..])
  }

  /** A frame that stays inside the character in which it begins must pass the early test, even
      if it is the last one; any other must leave the beginning of a text, and the last one a
      text. */
  ghost predicate Passes(before: seq<byte>, p: seq<byte>, final: bool) {
    var now := before + LookedAt(before, p);
    if |p| < Missing(before) then MaybeValidSpec(Unfinished(before) + p)
    else if final then IsText(now)
    else WholePrefix(now).Some?
  }

  ghost predicate AllPass(before: seq<byte>, ps: seq<seq<byte>>, ends: bool)
    decreases |ps|
  {
    ps == [] || (Passes(before, ps[0], ends && |ps| == 1) && AllPass(before + LookedAt(before, ps[0]), ps[1..], ends))
  }

  /** After the octets `before` of the message, a frame with payload p: if it begins inside a
      character it does not go beyond it, and if it does not complete it either, the early test
      lets it pass. */
  predicate EntersHarmlessly(before: seq<byte>, p: seq<byte>) {
    && WholePrefix(before).Some?
    && (Missing(before) == 0 || |p| == Missing(before)
        || (|p| < Missing(before) && MaybeValidSpec(Unfinished(before) + p)))
  }

  predicate AllEnterHarmlessly(before: seq<byte>, ps: seq<seq<byte>>)
    decreases |ps|
  {
    ps == [] || (EntersHarmlessly(before, ps[0]) && AllEnterHarmlessly(before + ps[0], ps[1..]))
  }

  // ----- One frame -----

  /** The octets so far are whole characters and the pending one. */
  ghost predicate At(sent: seq<byte>, stash: seq<byte>, more: nat) {
    StashShape(stash, more) && |stash| + more <= 4 && IsText(sent)
  }

  lemma AfterText(x: seq<byte>, y: seq<byte>)
    requires IsText(x)
    ensures WholePrefix(x + y) == Plus(|x|, WholePrefix(y))
  {
    hide WholePrefix, IsText;
    TextIsWhole(x);
    WholePrefixSplit(x, y);
    assert x[|x|..] + y == y;
  }

  lemma AtIs(sent: seq<byte>, stash: seq<byte>, more: nat)
    requires At(sent, stash, more)
    ensures WholePrefix(sent + stash) == Some(|sent|)
    ensures Unfinished(sent + stash) == stash && Missing(sent + stash) == more
  {
    hide WholePrefix, IsText, GetSize;
    WholePrefixEnds(stash);
    AfterText(sent, stash);
    assert (sent + stash)[|sent|..] == stash;
  }

  lemma SliceWhole(x: seq<byte>)
    ensures x[..|x|] == x && x[|x|..] == [] && x + [] == x && [] + x == x
  {}

  /** A frame that begins between characters. */
  lemma StepBetween(sent: seq<byte>, p: seq<byte>, final: bool)
    requires IsText(sent)
    ensures var t := TextStep([], 0, final, p);
            && (t.TextOk? <==> Passes(sent, p, final))
            && (t.TextOk? ==> t.send + t.stash == p && At(sent + t.send, t.stash, t.more))
  {
    hide WholePrefix, IsText, MaybeValidSpec, TextStep, Missing, Unfinished;
    SliceWhole(sent);
    AtIs(sent, [], 0);
    AfterText(sent, p);
    TextConcat(sent, p);
    StartsFresh(p, final);
    TextStepOk([], 0, final, p);
    var t := TextStep([], 0, final, p);
    if t.TextOk? { TextConcat(sent, t.send); }
  }

  /** A frame of which all is looked at. */
  lemma StartsFresh(p: seq<byte>, final: bool)
    ensures var t := TextStep([], 0, final, p);
            && (t.TextOk? <==> if final then IsText(p) else WholePrefix(p).Some?)
            && (t.TextOk? ==> t.send + t.stash == p && IsText(t.send))
  {
    hide WholePrefix, IsText, GetSize;
    TextIsWhole(p);
    SliceWhole(p);
    if WholePrefix(p).Some? {
      var v := WholePrefix(p).value;
      WholePrefixIsGrammar(p, v);
      assert p[..v] + p[v..] == p;
    }
  }

  lemma InsideLooksAt(before: seq<byte>, p: seq<byte>)
    requires 0 < Missing(before)
    ensures LookedAt(before, p) == if |p| < Missing(before) then p else p[..Missing(before)]
  {
    hide Missing;
    SliceWhole(p);
  }

  /** A frame that begins inside a character. */
  lemma StepInside(sent: seq<byte>, stash: seq<byte>, more: nat, p: seq<byte>, final: bool)
    requires At(sent, stash, more) && 0 < more
    ensures var t := TextStep(stash, more, final, p);
            && (t.TextOk? <==> Passes(sent + stash, p, final))
            && (t.TextOk? ==> t.send + t.stash == stash + LookedAt(sent + stash, p) && At(sent + t.send, t.stash, t.more))
  {
    hide WholePrefix, IsText, MaybeValidSpec, IsChar, GetSize, CompleteStash, LookedAt, Missing, Unfinished;
    AtIs(sent, stash, more);
    CompleteStashIs(stash, more, p);
    assert TextStep(stash, more, final, p) == CompleteStash(stash, more, p);
    InsideLooksAt(sent + stash, p);
    SliceWhole(sent);
    if |p| < more {
      assert (stash + p)[0] == stash[0];
    } else {
      var u := stash + p[..more];
      assert u[0] == stash[0];
      assert sent + stash + p[..more] == sent + u;
      CharOrNot(sent, u);
      SliceWhole(u);
    }
  }

  lemma CharOrNot(sent: seq<byte>, u: seq<byte>)
    requires IsText(sent) && u != [] && |u| == GetSize(u[0])
    ensures IsText(sent + u) <==> IsChar(u)
    ensures WholePrefix(sent + u).Some? <==> IsChar(u)
  {
    hide WholePrefix, IsText, IsChar, GetSize;
    WholeOrBad(u);
    AfterText(sent, u);
    TextIsWhole(u);
    TextConcat(sent, u);
  }

  lemma StepExactly(sent: seq<byte>, stash: seq<byte>, more: nat, p: seq<byte>, final: bool)
    requires At(sent, stash, more)
    ensures var t := TextStep(stash, more, final, p);
            && (t.TextOk? <==> Passes(sent + stash, p, final))
            && (t.TextOk? ==> t.send + t.stash == stash + LookedAt(sent + stash, p) && At(sent + t.send, t.stash, t.more))
  {
    hide TextStep, Passes, IsText, WholePrefix;
    if more == 0 {
      SliceWhole(sent);
      SliceWhole(p);
      AtIs(sent, stash, more);
      StepBetween(sent, p, final);
    } else {
      StepInside(sent, stash, more, p, final);
    }
  }

  // ----- All frames -----

  /** Which messages are accepted, and what is handed on: the octets looked at, up to the
      character that is pending at the end. */
  lemma {:induction false} AcceptedExactly(sent: seq<byte>, stash: seq<byte>, more: nat, ps: seq<seq<byte>>, ends: bool)
    requires At(sent, stash, more)
    ensures var t := Fragments(stash, more, ps, ends);
            && (t.TextOk? <==> AllPass(sent + stash, ps, ends))
            && (t.TextOk? ==> sent + t.send + t.stash == Looked(sent + stash, ps) && At(sent + t.send, t.stash, t.more))
    decreases |ps|
  {
    hide TextStep, Passes, IsText, LookedAt;
    if ps == [] {
      SliceWhole(sent);
    } else {
      var p, final := ps[0], ends && |ps| == 1;
      StepExactly(sent, stash, more, p, final);
      var t := TextStep(stash, more, final, p);
      if t.TextOk? {
        assert sent + t.send + t.stash == sent + stash + LookedAt(sent + stash, p) by {
          assert sent + t.send + t.stash == sent + (t.send + t.stash);
        }
        AcceptedExactly(sent + t.send, t.stash, t.more, ps[1..], ends);
        var later := Fragments(t.stash, t.more, ps[1..], ends);
        hide At, AllPass, Looked;
        if later.TextOk? { assert sent + t.send + later.send == sent + (t.send + later.send); }
      }
    }
  }

  lemma {:induction false} LookedBound(before: seq<byte>, ps: seq<seq<byte>>)
    ensures |Looked(before, ps)| <= |before| + |Flatten(ps)|
    decreases |ps|
  {
    hide LookedAt;
    if ps != [] { LookedBound(before + LookedAt(before, ps[0]), ps[1..]); }
  }

  lemma {:induction false} HarmlessLooksAtAll(before: seq<byte>, ps: seq<seq<byte>>)
    requires AllEnterHarmlessly(before, ps)
    ensures Looked(before, ps) == before + Flatten(ps)
    decreases |ps|
  {
    hide Missing, Unfinished, MaybeValidSpec;
    if ps == [] {
      SliceWhole(before);
    } else {
      HarmlessLooksAtAll(before + ps[0], ps[1..]);
      assert before + Flatten(ps) == before + ps[0] + Flatten(ps[1..]);
    }
  }

  /** The beginning of a text. */
  lemma BeginsText(p: seq<byte>, rest: seq<byte>)
    requires IsText(p + rest)
    ensures WholePrefix(p).Some? && (rest == [] ==> IsText(p))
  {
    hide WholePrefix, IsText;
    TextIsWhole(p + rest);
    WholePrefixSplit(p, rest);
    SliceWhole(p);
  }

  /** A valid text passes and is looked at whole exactly when its frames enter harmlessly. */
  lemma {:induction false} TextPasses(before: seq<byte>, ps: seq<seq<byte>>)
    requires IsText(before + Flatten(ps))
    ensures AllPass(before, ps, true) && Looked(before, ps) == before + Flatten(ps) <==> AllEnterHarmlessly(before, ps)
    decreases |ps|
  {
    hide IsText, WholePrefix, Missing, Unfinished, MaybeValidSpec;
    if ps == [] {
      SliceWhole(before);
    } else {
      var p, rest := ps[0], Flatten(ps[1..]);
      assert before + Flatten(ps) == before + p + rest == before + (p + rest);
      BeginsText(before, p + rest);
      BeginsText(before + p, rest);
      TextPasses(before + p, ps[1..]);
      if 0 < Missing(before) < |p| {
        LookedBound(before + LookedAt(before, p), ps[1..]);
      } else {
        assert |ps| == 1 ==> ps[1..] == [];
        hide AllEnterHarmlessly, AllPass, Looked;
      }
    }
  }

  /** All octets of a text arrive if and only if every frame enters harmlessly. */
  lemma AllArriveExactly(sent: seq<byte>, stash: seq<byte>, more: nat, ps: seq<seq<byte>>)
    requires At(sent, stash, more) && IsText(sent + stash + Flatten(ps))
    ensures var t := Fragments(stash, more, ps, true);
            t.TextOk? && t.send == stash + Flatten(ps) <==> AllEnterHarmlessly(sent + stash, ps)
  {
    hide IsText, WholePrefix, Fragments, AllPass, AllEnterHarmlessly, Looked;
    AcceptedExactly(sent, stash, more, ps, true);
    TextPasses(sent + stash, ps);
    LookedBound(sent + stash, ps);
    var t, text := Fragments(stash, more, ps, true), stash + Flatten(ps);
    assert sent + stash + Flatten(ps) == sent + text;
    if t.TextOk? {
      if t.send == text {
        assert |t.stash| == 0;
        SliceWhole(sent + t.send);
      }
      if AllEnterHarmlessly(sent + stash, ps) {
        NothingLeft(sent + t.send, t.stash, t.more);
        SliceWhole(sent + t.send);
        SameRest(sent, t.send, text);
      }
    }
  }

  lemma SameRest(x: seq<byte>, y: seq<byte>, z: seq<byte>)
    requires x + y == x + z
    ensures y == z
  {
    assert (x + y)[|x|..] == y && (x + z)[|x|..] == z;
  }

  /** A complete text has no pending character. */
  lemma NothingLeft(sent: seq<byte>, stash: seq<byte>, more: nat)
    requires At(sent, stash, more) && IsText(sent + stash)
    ensures stash == []
  {
    hide IsText, WholePrefix;
    AtIs(sent, stash, more);
    TextIsWhole(sent + stash);
  }

  // ----- Invalid text -----

  /** The last frame stays inside the character in which it begins. */
  predicate StaysInside(ps: seq<seq<byte>>) {
    ps != [] && var n := |ps| - 1; |ps[n]| < Missing(Looked([], ps[..n]))
  }

  lemma {:induction false} LookedAppend(before: seq<byte>, ps: seq<seq<byte>>, p: seq<byte>)
    ensures var x := Looked(before, ps); Looked(before, ps + [p]) == x + LookedAt(x, p)
    decreases |ps|
  {
    hide LookedAt;
    if ps == [] {
      assert (ps + [p])[1..] == [];
    } else {
      assert (ps + [p])[1..] == ps[1..] + [p] && (ps + [p])[0] == ps[0];
      LookedAppend(before + LookedAt(before, ps[0]), ps[1..], p);
    }
  }

  lemma {:induction false} PassAppend(before: seq<byte>, ps: seq<seq<byte>>, p: seq<byte>)
    ensures AllPass(before, ps + [p], true) <==> AllPass(before, ps, false) && Passes(Looked(before, ps), p, true)
    decreases |ps|
  {
    hide LookedAt, Passes;
    if ps == [] {
      assert (ps + [p])[1..] == [];
    } else {
      assert (ps + [p])[1..] == ps[1..] + [p] && (ps + [p])[0] == ps[0];
      PassAppend(before + LookedAt(before, ps[0]), ps[1..], p);
    }
  }

  lemma {:induction false} HarmlessAppend(before: seq<byte>, ps: seq<seq<byte>>, p: seq<byte>)
    ensures Flatten(ps + [p]) == Flatten(ps) + p
    ensures AllEnterHarmlessly(before, ps + [p]) <==>
              AllEnterHarmlessly(before, ps) && EntersHarmlessly(before + Flatten(ps), p)
    decreases |ps|
  {
    hide EntersHarmlessly;
    FlattenAppend(ps, p);
    if ps == [] {
      SliceWhole(before);
      assert (ps + [p])[1..] == [];
    } else {
      assert (ps + [p])[1..] == ps[1..] + [p] && (ps + [p])[0] == ps[0];
      HarmlessAppend(before + ps[0], ps[1..], p);
      assert before + Flatten(ps) == before + ps[0] + Flatten(ps[1..]);
    }
  }

  /** Frames that enter harmlessly are looked at whole, and all but the last pass. */
  lemma {:induction false} HarmlessPasses(before: seq<byte>, ps: seq<seq<byte>>)
    requires AllEnterHarmlessly(before, ps) && WholePrefix(before + Flatten(ps)).Some?
    ensures AllPass(before, ps, false)
    decreases |ps|
  {
    hide WholePrefix, Missing, Unfinished, MaybeValidSpec;
    if ps != [] {
      assert before + Flatten(ps) == before + ps[0] + Flatten(ps[1..]);
      WholePrefixSplit(before + ps[0], Flatten(ps[1..]));
      HarmlessPasses(before + ps[0], ps[1..]);
    }
  }

  /** If all frames enter harmlessly, a message is accepted exactly when it is a text or its
      last frame stays inside the character in which it begins. */
  lemma HarmlessAccepted(ps: seq<seq<byte>>)
    requires ps != [] && AllEnterHarmlessly([], ps)
    ensures AllPass([], ps, true) <==> IsText(Flatten(ps)) || StaysInside(ps)
  {
    hide WholePrefix, Missing, Unfinished, MaybeValidSpec, IsText, AllEnterHarmlessly, AllPass;
    var n := |ps| - 1;
    var qs, p := ps[..n], ps[n];
    assert ps == qs + [p];
    HarmlessAppend([], qs, p);
    PassAppend([], qs, p);
    HarmlessLooksAtAll([], qs);
    SliceWhole(Flatten(qs));
    HarmlessPasses([], qs);
  }

  // ----- After a message that ended inside a character -----

  lemma LeadIsNoTail(s: seq<byte>)
    requires s != [] && IsText(s)
    ensures !Tail(s[0])
  {
    TextFirst(s);
    hide IsText;
  }

  lemma OnlyTails(u: seq<byte>, i: nat)
    requires 0 < i < |u| && !Tail(u[i])
    ensures !IsChar(u)
    ensures |u| <= GetSize(u[0]) ==> !MaybeValidSpec(u)
  {}

  /** An octet left pending refuses the next text message that has any octets. */
  lemma {:induction false} SpoilsNext(stash: seq<byte>, more: nat, ps: seq<seq<byte>>)
    requires StashShape(stash, more) && 0 < more && |stash| + more <= 4
    requires IsText(Flatten(ps)) && Flatten(ps) != []
    ensures Fragments(stash, more, ps, true).TextBad?
    decreases |ps|
  {
    hide IsText, IsChar, MaybeValidSpec, CompleteStash, GetSize, Tail;
    var p, final := ps[0], |ps| == 1;
    CompleteStashIs(stash, more, p);
    assert TextStep(stash, more, final, p) == CompleteStash(stash, more, p);
    if p == [] {
      SliceWhole(stash);
      SliceWhole(Flatten(ps[1..]));
      assert Flatten(ps) == Flatten(ps[1..]);
      SpoilsNext(stash, more, ps[1..]);
    } else {
      LeadIsNoTail(Flatten(ps));
      assert Flatten(ps)[0] == p[0];
      var u := stash + if |p| < more then p else p[..more];
      assert u[|stash|] == p[0] && u[0] == stash[0];
      OnlyTails(u, |stash|);
    }
  }
}
