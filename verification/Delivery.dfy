/**
 * From the wire to the user: what a well-formed server stream delivers, and that ASCII
 * streams deliver it however they are cut.
 */
module Delivery {
  import opened Bytes
  import opened Utf8
  import opened Utf8Theory
  import opened Frames
  import opened ReceiveSpec
  import opened ChunkTheory

  // ----- Streams whose text is ASCII -----

  /** Every payload octet of a text message among the octets received is ASCII.  The stream
      need not be well formed otherwise. */
  predicate AsciiText(r: Recv, buf: seq<byte>)
    requires Wf(r)
    decreases |buf|
  {
    buf == [] || r.Closed? ||
    (AtPayloadOk(r, buf);
     ProcessFrameKeepsWf(r, buf);
     var h, t := AtPayload(r, buf), ReceiveSpec.ProcessFrame(r, buf);
     && AsciiPiece(h.next, buf[h.used..])
     && (t.next.Closed? || AsciiText(t.next, buf[t.used..])))
  }

  predicate AsciiPiece(m: Recv, p: seq<byte>) {
    IsTextPiece(m) ==> IsAscii(p[..Min(m.frame.value.payloadLen, |p|)])
  }

  predicate NoStash(r: Recv) {
    r.Open? ==> r.more == 0
  }

  lemma AsciiKeepsNoStash(m: Recv, p: seq<byte>)
    requires WfAtPayload(m) && ReadyForPayload(m) && NoStash(m) && AsciiPiece(m, p)
    ensures NoStash(PayloadStep(m, p).next)
  {
    StashOkFits(m);
    if IsTextPiece(m) {
      var piece := p[..Min(m.frame.value.payloadLen, |p|)];
      AsciiIsText(piece);
      hide WholePrefix, SendStep, WfAtPayload;
      SendKeepsStash(m, |piece|, piece);
    } else {
      hide TextStep;
    }
  }

  lemma SendKeepsStash(m: Recv, i: nat, x: seq<byte>)
    requires m.Open? && m.frame.Some? && i <= m.frame.value.payloadLen
    ensures var s := SendStep(m.(stash := [], more := 0), i, x); s.next.Open? && s.next.more == 0
  {}

  lemma AsciiPass(r: Recv, buf: seq<byte>)
    requires Wf(r) && r.Open? && buf != [] && NoStash(r)
    requires AsciiPiece(AtPayload(r, buf).next, buf[AtPayload(r, buf).used..])
    ensures NoStash(ReceiveSpec.ProcessFrame(r, buf).next) && NoStash(AtPayload(r, buf).next)
  {
    AtPayloadOk(r, buf);
    ProcessFrameUnfold(r, buf);
    HeaderKeepsStash(r, buf);
    var h := AtPayload(r, buf);
    hide ProcessFrame, PayloadStep, AsciiPiece, Wf, WfAtPayload, AtPayload;
    if h.next.Open? && h.next.frame.Some? { AsciiKeepsNoStash(h.next, buf[h.used..]); }
  }

  lemma HeaderKeepsStash(r: Recv, buf: seq<byte>)
    requires r.Open?
    ensures var h := AtPayload(r, buf).next; h.Open? ==> h.more == r.more && h.stash == r.stash
  {
    hide Decode, FrameValidate;
  }

  lemma AsciiUnfold(r: Recv, buf: seq<byte>)
    requires Wf(r) && r.Open? && buf != []
    ensures var h, t := AtPayload(r, buf), ReceiveSpec.ProcessFrame(r, buf);
            Wf(t.next) &&
            (AsciiText(r, buf) <==>
              AsciiPiece(h.next, buf[h.used..]) && (t.next.Closed? || AsciiText(t.next, buf[t.used..])))
  {
    ProcessFrameKeepsWf(r, buf);
    hide AsciiPiece, ProcessFrame, Wf, AtPayload;
  }

  lemma HarmlessUnfold(r: Recv, a: seq<byte>, b: seq<byte>)
    requires Wf(r) && r.Open? && a != [] && b != []
    ensures var h, t := AtPayload(r, a), ReceiveSpec.ProcessFrame(r, a);
            var p := a[h.used..];
            if Straddles(h.next, p) then
              WfAtPayload(h.next) && (HarmlessCut(r, a, b) <==> PieceHarmless(h.next, p, b))
            else Wf(t.next) && (HarmlessCut(r, a, b) <==> t.next.Closed? || HarmlessCut(t.next, a[t.used..], b))
  {
    ProcessFrameKeepsWf(r, a);
    AtPayloadOk(r, a);
    hide PieceHarmless, ProcessFrame, Wf, AtPayload, WfAtPayload;
  }

  lemma HeaderShortIsAscii(r: Recv, a: seq<byte>, b: seq<byte>)
    requires Wf(r) && r.Open? && r.frame.None? && a != [] && |a| < Wanted(r) && b != []
    ensures HarmlessCut(r, a, b) && AsciiText(r, a)
  {
    HeaderShort(r, a);
    HeaderCutPass(r, a, b);
    AsciiUnfold(r, a);
    HarmlessUnfold(r, a, b);
    assert a[|a|..] == [];
    hide ProcessFrame, Wf, HeaderStep;
  }

  lemma StraddleIsAscii(r: Recv, a: seq<byte>, b: seq<byte>)
    requires Wf(r) && r.Open? && NoStash(r) && a != [] && b != [] && (r.frame.None? ==> Wanted(r) <= |a|)
    requires WfAtPayload(AtPayload(r, a).next) && Straddles(AtPayload(r, a).next, a[AtPayload(r, a).used..])
    requires AsciiPiece(AtPayload(r, a).next, a[AtPayload(r, a).used..])
    ensures HarmlessCut(r, a, b) && AsciiText(r, a)
  {
    var h, t := AtPayload(r, a), ReceiveSpec.ProcessFrame(r, a);
    AsciiUnfold(r, a);
    HarmlessUnfold(r, a, b);
    AsciiPass(r, a);
    StraddleUsesAll(r, a);
    AsciiCutPiece(h.next, a[h.used..], b);
    hide ProcessFrame, Wf, AtPayload, WfAtPayload, AsciiPiece, PieceHarmless;
  }

  lemma {:induction false} AsciiCut(r: Recv, a: seq<byte>, b: seq<byte>)
    requires Wf(r) && NoStash(r) && AsciiText(r, a + b)
    ensures HarmlessCut(r, a, b) && AsciiText(r, a)
    decreases |a|
  {
    hide ProcessFrame, Wf, WfAtPayload, PieceHarmless, AtPayload, AsciiPiece;
    if a == [] || r.Closed? {
    } else if b == [] {
      assert a + b == a;
    } else if r.frame.None? && |a| < Wanted(r) {
      HeaderShortIsAscii(r, a, b);
    } else {
      hide AsciiText, HarmlessCut;
      AtPayloadOk(r, a);
      AsciiUnfold(r, a + b);
      HeaderBeforeCut(r, a, b);
      var h := AtPayload(r, a);
      assert (a + b)[h.used..] == a[h.used..] + b;
      AsciiPrefix(h.next, a[h.used..], b);
      if Straddles(h.next, a[h.used..]) {
        StraddleIsAscii(r, a, b);
      } else {
        AsciiUnfold(r, a);
        HarmlessUnfold(r, a, b);
        AsciiPass(r, a);
        PassBeforeCut(r, a, b);
        var t := ReceiveSpec.ProcessFrame(r, a);
        ProcessFrameKeepsWf(r, a);
        if t.next.Open? {
          assert (a + b)[t.used..] == a[t.used..] + b;
          AsciiCut(t.next, a[t.used..], b);
        }
      }
    }
  }

  lemma StraddleUsesAll(r: Recv, a: seq<byte>)
    requires Wf(r) && r.Open? && a != []
    requires WfAtPayload(AtPayload(r, a).next) && Straddles(AtPayload(r, a).next, a[AtPayload(r, a).used..])
    ensures var t := ReceiveSpec.ProcessFrame(r, a); t.next.Open? ==> t.used == |a|
  {
    ProcessFrameUnfold(r, a);
    var h := AtPayload(r, a);
    hide AtPayload, ProcessFrame;
    PayloadUsesAll(h.next, a[h.used..]);
  }

  lemma PayloadUsesAll(m: Recv, p: seq<byte>)
    requires WfAtPayload(m) && ReadyForPayload(m) && Straddles(m, p)
    ensures var s := PayloadStep(m, p); s.next.Open? ==> s.used == |p|
  {
    StashOkFits(m);
    hide TextStep, SendStep, CloseEvents;
  }

  lemma AsciiPrefix(m: Recv, p: seq<byte>, b: seq<byte>)
    requires AsciiPiece(m, p + b)
    ensures AsciiPiece(m, p)
  {
    if IsTextPiece(m) {
      var n := m.frame.value.payloadLen;
      forall i | 0 <= i < Min(n, |p|) ensures p[i] < 0x80 {
        assert p[i] == (p + b)[..Min(n, |p + b|)][i];
      }
    }
  }

  lemma AsciiCutPiece(m: Recv, p: seq<byte>, b: seq<byte>)
    requires WfAtPayload(m) && NoStash(m) && AsciiPiece(m, p) && Straddles(m, p)
    ensures PieceHarmless(m, p, b)
  {
    if IsTextPiece(m) {
      assert p[..|p|] == p;
      AsciiIsText(p);
      StashOkFits(m);
      hide WholePrefix;
    }
  }

  lemma {:induction false} AsciiHarmless(r: Recv, chunks: seq<seq<byte>>)
    requires Wf(r) && NoStash(r) && AsciiText(r, Flatten(chunks))
    ensures AllHarmless(r, chunks)
  {
    if chunks != [] {
      hide AsciiText, HarmlessCut, Wf;
      var n := |chunks| - 1;
      assert chunks == chunks[..n] + [chunks[n]];
      FlattenAppend(chunks[..n], chunks[n]);
      AsciiCut(r, Flatten(chunks[..n]), chunks[n]);
      AsciiHarmless(r, chunks[..n]);
    }
  }

  /** For any stream whose text is ASCII, well formed or not, every way of cutting it into
      receive callbacks reaches the same state and tells the user the same. */
  lemma AsciiChunkingIndependence(chunks: seq<seq<byte>>)
    requires AsciiText(INITIAL, Flatten(chunks))
    ensures Same(Receive(INITIAL, Flatten(chunks)), ReceiveAll(INITIAL, chunks))
  {
    AsciiHarmless(INITIAL, chunks);
    ChunkingIndependence(INITIAL, chunks);
  }
}
