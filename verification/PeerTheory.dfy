/**
 * What the server at the other end makes of the octets a client has given to curl: an
 * independent parse of the wire, and the proof that every message accepted arrives.
 */
module PeerTheory {
  import opened Bytes
  import opened Frames
  import opened FrameTheory
  import opened SendSpec
  import opened ClientSpec
  import opened ClientTheory
  import opened Connection

  /** The complete frames at the start of the octets, unmasked. */
  function Parse(b: seq<byte>): seq<Frame>
    decreases |b|
  {
    match Decode(b)
    case Got(f, used) =>
      GotIsSome(b);
      if f.mask && used + f.payloadLen <= |b| then
        [f.(payload := Masked(b[used..used + f.payloadLen], f.key))] + Parse(b[used + f.payloadLen..])
      else []
    case _ => []
  }

  lemma GotIsSome(b: seq<byte>)
    requires Decode(b).Got?
    ensures 0 < Decode(b).used <= |b|
  {
    hide LengthValue, LengthError;
  }

  lemma GoodIsOnWire(f: Frame)
    requires Good(f)
    ensures Encodable(f) && f.(mask := true) == f && OnWire(f).(payload := f.payload) == f
  {}

  /** A good frame is read back as it was sent. */
  lemma ParseFrame(f: Frame, rest: seq<byte>)
    requires Good(f)
    ensures Parse(WireBytes(f) + rest) == [f] + Parse(rest)
  {
    var h, p := HeaderBytes(f), Masked(f.payload, f.key);
    GoodIsOnWire(f);
    DecodeEncoded(f, p + rest);
    var b := WireBytes(f) + rest;
    assert b == h + (p + rest);
    assert b[|h|..|h| + |p|] == p && b[|h| + |p|..] == rest;
    MaskingIsInvolutive(f.payload, f.key);
    hide Decode, HeaderBytes, Masked, Good;
  }

  /** A part of a frame is no frame. */
  lemma ParsePart(f: Frame, b: seq<byte>, more: seq<byte>)
    requires Good(f) && b + more == WireBytes(f) && more != []
    ensures Parse(b) == []
  {
    GoodIsOnWire(f);
    var p := Masked(f.payload, f.key);
    assert WireBytes(f) == HeaderBytes(f) + p;
    DecodeEncoded(f, p);
    hide Decode, HeaderBytes, Masked, Good;
    if Decode(b).Got? { DecodeIsStable(b, more); }
  }

  /** Of any initial part of what the accepted frames encode to, the server reads the first
      frames and nothing else. */
  lemma {:induction false} ParsePrefix(frames: seq<Frame>, max: nat, b: seq<byte>)
    requires b <= Deliverable(frames, max) && AllGood(frames)
    ensures Parse(b) <= frames
  {
    if frames == [] || !Fits(frames[0], max) {
      NothingToParse();
    } else {
      var f, rest := frames[0], Deliverable(frames[1..], max);
      FitsIsWire(f, max);
      var w := WireBytes(f);
      hide Deliverable, Fits, NodeFor, WireBytes, Good, Parse;
      SplitPrefix(b, w, rest);
      if |w| <= |b| {
        ParseFrame(f, b[|w|..]);
        ParsePrefix(frames[1..], max, b[|w|..]);
        PrefixCons(f, Parse(b[|w|..]), frames);
      } else {
        ParsePart(f, b, w[|b|..]);
      }
    }
  }

  lemma SplitPrefix(b: seq<byte>, w: seq<byte>, rest: seq<byte>)
    requires b <= w + rest
    ensures if |w| <= |b| then b == w + b[|w|..] && b[|w|..] <= rest else b + w[|b|..] == w && w[|b|..] != []
  {
    assert b == (w + rest)[..|b|];
  }

  lemma PrefixCons(f: Frame, some: seq<Frame>, frames: seq<Frame>)
    requires frames != [] && frames[0] == f && some <= frames[1..]
    ensures [f] + some <= frames
  {}

  predicate AllGood(frames: seq<Frame>) {
    forall i {:trigger frames[i]} :: 0 <= i < |frames| ==> Good(frames[i])
  }

  lemma NothingToParse()
    ensures Parse([]) == []
  {}

  lemma FitsIsWire(f: Frame, max: nat)
    requires Fits(f, max)
    ensures NodeFor(f, max).bytes == WireBytes(f)
  {}

  lemma {:induction false} ParseAll(frames: seq<Frame>, max: nat)
    requires AllFit(frames, max) && AllGood(frames)
    ensures Parse(Deliverable(frames, max)) == frames
  {
    if frames == [] {
      NothingToParse();
    } else {
      var f := frames[0];
      AllFitCons(frames, max);
      FitsIsWire(f, max);
      assert Deliverable(frames, max) == WireBytes(f) + Deliverable(frames[1..], max);
      hide Deliverable, Fits, NodeFor, WireBytes, Good, Parse, AllFit;
      ParseFrame(f, Deliverable(frames[1..], max));
      ParseAll(frames[1..], max);
      assert frames == [f] + frames[1..];
    }
  }

  lemma DrainedFits(c: Conn, frames: seq<Frame>, out: seq<byte>)
    requires ConnOk(c, frames, out) && c.queue == []
    ensures AllFit(frames, c.maxPayload) && out == Deliverable(frames, c.maxPayload)
  {
    assert out + [] == out;
    hide NodeFor, Good, Deliverable;
  }

  lemma OutIsPrefix(c: Conn, frames: seq<Frame>, out: seq<byte>)
    requires ConnOk(c, frames, out)
    ensures out <= Deliverable(frames, c.maxPayload) && AllGood(frames)
  {
    hide Track, Good, Deliverable, Pending, AllFit, QueueOk;
  }

  /** At every point of every run the server reads the first of the accepted frames, in order
      and unchanged, and once the queue is empty all of them. */
  lemma ServerReadsFrames(maxPayload: nat, calls: seq<Call>)
    requires 0 < maxPayload && AllOk(calls)
    ensures Inv(Begin(maxPayload))
    ensures var w := Run(Begin(maxPayload), calls);
            && Parse(w.out) <= w.frames
            && (w.conn.queue == [] ==> Parse(w.out) == w.frames)
  {
    BeginOk(maxPayload);
    var w := Run(Begin(maxPayload), calls);
    OutIsPrefix(w.conn, w.frames, w.out);
    ParsePrefix(w.frames, w.conn.maxPayload, w.out);
    if w.conn.queue == [] {
      DrainedFits(w.conn, w.frames, w.out);
      ParseAll(w.frames, w.conn.maxPayload);
    }
  }
}
