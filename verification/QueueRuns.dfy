/**
 * The send queue over all runs: frames queued in any order, urgent or not, between drains of
 * any size.
 */
module QueueRuns {
  import opened Bytes
  import opened SendSpec

  // ----- The line: all frames in the order in which they go out -----

  /** Whole encodings one after another, up to and including the first close frame; a frame that
      did not fit its buffer has no octets and stops the line. */
  function Whole(line: seq<Node>): seq<byte> {
    if line == [] || line[0].bytes == [] then []
    else line[0].bytes + if line[0].isClose then [] else Whole(line[1..])
  }

  /** How many frames of the line have begun to go out when n octets are out. */
  function Begun(line: seq<Node>, n: nat): nat {
    if line == [] || n == 0 then 0
    else if n <= |line[0].bytes| then 1
    else 1 + Begun(line[1..], n - |line[0].bytes|)
  }

  lemma {:induction false} BegunBound(line: seq<Node>, n: nat)
    ensures Begun(line, n) <= |line|
  {
    if line != [] && |line[0].bytes| < n { BegunBound(line[1..], n - |line[0].bytes|); }
  }

  // ----- The queue and the line -----

  /** The queue holds the last frames of the line; those before it are out. */
  predicate Tracks(line: seq<Node>, q: Queue) {
    && |q| <= |line|
    && var k := |line| - |q|;
    && (forall i {:trigger line[i]} :: 0 <= i < k ==> line[i].bytes != [] && !line[i].isClose)
    && (forall i {:trigger q[i]} :: 0 <= i < |q| ==> q[i].(sent := 0) == line[k + i])
  }

  function Lengths(line: seq<Node>): nat {
    if line == [] then 0 else |line[0].bytes| + Lengths(line[1..])
  }

  /** The octets out of the frame at the head. */
  function HeadSent(q: Queue): nat {
    if q == [] then 0 else q[0].sent
  }

  /** Frames that are out are complete, and of the queue only the head has begun. */
  predicate Placed(line: seq<Node>, q: Queue, n: nat)
    requires |q| <= |line|
  {
    n == Lengths(line[..|line| - |q|]) + HeadSent(q)
  }

  lemma {:induction false} BegunIs(line: seq<Node>, q: Queue, n: nat)
    requires QueueOk(q) && Tracks(line, q) && Placed(line, q, n)
    ensures Begun(line, n) == |line| - |q| + if 0 < HeadSent(q) then 1 else 0
    decreases |line|
  {
    var k := |line| - |q|;
    if k == 0 {
      assert line[..0] == [];
      if q != [] { assert q[0].(sent := 0) == line[0 + 0]; }
    } else {
      TracksRest(line, q);
      LengthsStep(line, k);
      assert line[0].bytes != [];
      LengthsPositive(line[1..], q);
      if |line[0].bytes| < n { BegunIs(line[1..], q, n - |line[0].bytes|); }
    }
  }

  lemma TracksRest(line: seq<Node>, q: Queue)
    requires Tracks(line, q) && |q| < |line|
    ensures Tracks(line[1..], q)
  {
    var k, rest := |line| - |q|, line[1..];
    forall i | 0 <= i < k - 1 ensures rest[i].bytes != [] && !rest[i].isClose { assert rest[i] == line[i + 1]; }
    forall i | 0 <= i < |q| ensures q[i].(sent := 0) == rest[k - 1 + i] { assert rest[k - 1 + i] == line[k + i]; }
  }

  /** A frame that is out before the queue has octets. */
  lemma LengthsPositive(line: seq<Node>, q: Queue)
    requires Tracks(line, q)
    ensures var out := line[..|line| - |q|]; Lengths(out) == 0 <==> out == []
  {
    var out := line[..|line| - |q|];
    if out != [] { assert out[0] == line[0] && line[0].bytes != []; }
  }

  /** What is out and what can still be sent are the line. */
  lemma {:induction false} LineSplits(line: seq<Node>, q: Queue)
    requires QueueOk(q) && Tracks(line, q)
    ensures HeadSent(q) <= |Whole(line)| && Lengths(line[..|line| - |q|]) + HeadSent(q) <= |Whole(line)|
    ensures Pending(q) == Whole(line)[Lengths(line[..|line| - |q|]) + HeadSent(q)..]
    decreases |line|
  {
    hide HeadSent;
    var k := |line| - |q|;
    if k == 0 {
      assert line[..0] == [];
      QueueIsLine(line, q);
    } else {
      TracksRest(line, q);
      LengthsStep(line, k);
      assert line[0].bytes != [] && !line[0].isClose;
      assert Whole(line) == line[0].bytes + Whole(line[1..]);
      hide QueueOk, Tracks, Pending, Lengths, Whole;
      LineSplits(line[1..], q);
      DropFirst(line[0].bytes, Whole(line[1..]), Lengths(line[1..][..k - 1]) + HeadSent(q));
    }
  }

  lemma LengthsStep(line: seq<Node>, k: nat)
    requires 0 < k <= |line|
    ensures Lengths(line[..k]) == |line[0].bytes| + Lengths(line[1..][..k - 1])
  {
    assert line[..k][0] == line[0] && line[..k][1..] == line[1..][..k - 1];
  }

  lemma DropFirst(x: seq<byte>, y: seq<byte>, n: nat)
    requires n <= |y|
    ensures (x + y)[|x| + n..] == y[n..]
  {}

  lemma {:induction false} QueueIsLine(line: seq<Node>, q: Queue)
    requires QueueOk(q) && Tracks(line, q) && |line| == |q|
    ensures HeadSent(q) <= |Whole(line)| && Pending(q) == Whole(line)[HeadSent(q)..]
    decreases |line|
  {
    if q != [] {
      assert q[0].(sent := 0) == line[0 + 0];
      var p := q[1..];
      assert QueueOk(p);
      forall i | 0 <= i < |p| ensures p[i].(sent := 0) == line[1..][0 + i] {
        assert q[i + 1].(sent := 0) == line[0 + (i + 1)];
      }
      QueueIsLine(line[1..], p);
      assert Whole(line[1..])[0..] == Whole(line[1..]);
    }
  }

  /** Draining moves along the line. */
  lemma {:induction false} FillTracks(line: seq<Node>, q: Queue, len: nat)
    requires QueueOk(q) && Tracks(line, q)
    ensures var r := Fill(q, len); if r.closeSent then r.queue == [] else Tracks(line, r.queue)
    decreases |q|
  {
    if q != [] && 0 < len && q[0].bytes != [] {
      var n := q[0];
      var lesser := Min(len, |n.bytes| - n.sent);
      if n.sent + lesser < |n.bytes| {
        TracksPart(line, q, n.(sent := n.sent + lesser));
      } else if !n.isClose {
        TracksTail(line, q);
        FillTracks(line, q[1..], len - lesser);
      }
    }
  }

  lemma TracksPart(line: seq<Node>, q: Queue, n: Node)
    requires Tracks(line, q) && q != [] && n == q[0].(sent := n.sent)
    ensures Tracks(line, q[0 := n])
  {
    var k, p := |line| - |q|, q[0 := n];
    forall i | 0 <= i < |q| ensures p[i].(sent := 0) == line[k + i] { assert q[i].(sent := 0) == line[k + i]; }
  }

  lemma TracksTail(line: seq<Node>, q: Queue)
    requires Tracks(line, q) && q != [] && q[0].bytes != [] && !q[0].isClose
    ensures Tracks(line, q[1..])
  {
    var k := |line| - |q|;
    assert q[0].(sent := 0) == line[k + 0];
    forall i | 0 <= i < |q| - 1 ensures q[1..][i].(sent := 0) == line[k + 1 + i] {
      assert q[i + 1].(sent := 0) == line[k + (i + 1)];
    }
  }

  // ----- Steps -----

  datatype Op = Put(node: Node, urgent: bool) | Take(len: nat)

  /** The queue, the octets handed out, whether the close frame is out, and on the side the line
      with the frames that were urgent. */
  datatype Sending = Sending(queue: Queue, out: seq<byte>, closed: bool, line: seq<Node>, urgent: seq<bool>)

  const EMPTY := Sending([], [], false, [], [])

  /** An ordinary frame is last in line; an urgent one is next, after the frames that have begun
      to go out. */
  function Place(s: Sending, urgent: bool): (i: nat)
    ensures i <= |s.line|
  {
    BegunBound(s.line, |s.out|);
    if urgent then Begun(s.line, |s.out|) else |s.line|
  }

  function Insert<T>(s: seq<T>, i: nat, x: T): seq<T>
    requires i <= |s|
  {
    s[..i] + [x] + s[i..]
  }

  /** A node is made for each frame; a line takes none once its close frame is out. */
  predicate OpOk(s: Sending, op: Op) {
    op.Put? ==> NodeOk(op.node) && op.node.sent == 0 && !s.closed
  }

  function Step(s: Sending, op: Op): Sending
    requires QueueOk(s.queue) && |s.line| == |s.urgent|
  {
    match op
    case Put(node, urgent) =>
      var i := Place(s, urgent);
      s.(queue := Enqueued(s.queue, node, urgent),
         line := Insert(s.line, i, node), urgent := Insert(s.urgent, i, urgent))
    case Take(len) =>
      var r := Fill(s.queue, len);
      s.(queue := r.queue, out := s.out + r.out, closed := s.closed || r.closeSent)
  }

  ghost predicate Inv(s: Sending) {
    && QueueOk(s.queue) && |s.line| == |s.urgent| && s.out <= Whole(s.line)
    && if s.closed then s.queue == [] && s.out == Whole(s.line)
       else Tracks(s.line, s.queue) && Placed(s.line, s.queue, |s.out|)
  }

  lemma {:induction false} WholeGrows(a: seq<Node>, b: seq<Node>)
    ensures Whole(a) <= Whole(a + b)
  {
    if a != [] {
      assert (a + b)[1..] == a[1..] + b;
      WholeGrows(a[1..], b);
    }
  }

  /** What is out belongs to the frames that have begun. */
  lemma {:induction false} OutHasBegun(line: seq<Node>, n: nat)
    requires n <= |Whole(line)|
    ensures Begun(line, n) <= |line| && Whole(line)[..n] <= Whole(line[..Begun(line, n)])
  {
    if line != [] && n != 0 {
      var x := line[0].bytes;
      if n <= |x| {
        assert line[..1][0] == line[0] && Whole(line)[..n] == x[..n];
        assert x <= Whole(line[..1]);
      } else {
        OutHasBegun(line[1..], n - |x|);
        var j := Begun(line[1..], n - |x|);
        assert line[..j + 1][1..] == line[1..][..j] && line[..j + 1][0] == line[0];
        assert Whole(line)[..n] == x + Whole(line[1..])[..n - |x|];
      }
    }
  }

  /** A frame put after those that have begun leaves what is out as it is. */
  lemma InsertKeepsOut(line: seq<Node>, out: seq<byte>, i: nat, x: Node)
    requires out <= Whole(line) && Begun(line, |out|) <= i <= |line|
    ensures out <= Whole(Insert(line, i, x))
  {
    OutHasBegun(line, |out|);
    var j := Begun(line, |out|);
    var rest := line[j..i] + [x] + line[i..];
    WholeGrows(line[..j], rest);
    InsertLater(line, i, j, x);
    hide Whole, Begun, Insert;
    assert Whole(line)[..|out|] == out;
  }

  lemma InsertLater(line: seq<Node>, i: nat, j: nat, x: Node)
    requires j <= i <= |line|
    ensures Insert(line, i, x) == line[..j] + (line[j..i] + [x] + line[i..])
  {
    assert line[..i] == line[..j] + line[j..i];
  }

  /** The queue takes the frame at the same place as the line. */
  lemma PutTracks(line: seq<Node>, q: Queue, n: nat, x: Node, urgent: bool)
    requires QueueOk(q) && Tracks(line, q) && Placed(line, q, n) && x.sent == 0
    ensures Begun(line, n) <= |line|
    ensures var i := if urgent then Begun(line, n) else |line|;
            Tracks(Insert(line, i, x), Enqueued(q, x, urgent)) && Placed(Insert(line, i, x), Enqueued(q, x, urgent), n)
  {
    BegunBound(line, n);
    BegunIs(line, q, n);
    var i := if urgent then Begun(line, n) else |line|;
    EnqueuedAt(q, x, urgent, i - (|line| - |q|));
    InsertTracks(line, q, i, x);
    InsertPlaced(line, q, i, x, n);
    hide Tracks, Placed, Enqueued, Begun, QueueOk;
  }

  lemma EnqueuedAt(q: Queue, x: Node, urgent: bool, i: nat)
    requires i == if !urgent then |q| else if 0 < HeadSent(q) then 1 else 0
    requires i <= |q|
    ensures Enqueued(q, x, urgent) == Insert(q, i, x)
  {}

  lemma InsertPlaced(line: seq<Node>, q: Queue, i: nat, x: Node, n: nat)
    requires |q| <= |line| && Placed(line, q, n) && |line| - |q| <= i <= |line| && x.sent == 0
    requires i == |line| - |q| ==> HeadSent(q) == 0
    ensures Placed(Insert(line, i, x), Insert(q, i - (|line| - |q|), x), n)
  {
    var k := |line| - |q|;
    assert Insert(line, i, x)[..k] == line[..k];
  }

  lemma InsertTracks(line: seq<Node>, q: Queue, i: nat, x: Node)
    requires Tracks(line, q) && |line| - |q| <= i <= |line| && x.sent == 0
    ensures Tracks(Insert(line, i, x), Insert(q, i - (|line| - |q|), x))
  {
    var k := |line| - |q|;
    var l, p := Insert(line, i, x), Insert(q, i - k, x);
    forall j | 0 <= j < k ensures l[j].bytes != [] && !l[j].isClose { assert l[j] == line[j]; }
    forall j | 0 <= j < |p| ensures p[j].(sent := 0) == l[k + j] {
      if k + j < i {
        assert p[j] == q[j] && l[k + j] == line[k + j];
      } else if i < k + j {
        assert p[j] == q[j - 1] && l[k + j] == line[k + (j - 1)];
      }
    }
  }

  lemma PutKeeps(s: Sending, node: Node, urgent: bool)
    requires Inv(s) && OpOk(s, Put(node, urgent))
    ensures Inv(Step(s, Put(node, urgent)))
  {
    hide Tracks, Placed, Whole, QueueOk, Enqueued, NodeOk, Begun, Insert;
    EnqueuedOk(s.queue, node, urgent);
    PutTracks(s.line, s.queue, |s.out|, node, urgent);
    InsertKeepsOut(s.line, s.out, Place(s, urgent), node);
    InsertLength(s.line, s.urgent, Place(s, urgent), node, urgent);
  }

  lemma InsertLength(line: seq<Node>, marks: seq<bool>, i: nat, x: Node, mark: bool)
    requires i <= |line| == |marks|
    ensures |Insert(line, i, x)| == |Insert(marks, i, mark)|
  {}

  lemma TakeKeeps(s: Sending, len: nat)
    requires Inv(s)
    ensures Inv(Step(s, Take(len)))
  {
    var r := Fill(s.queue, len);
    if s.closed {
      assert s.out + [] == s.out;
    } else {
      TakeMoves(s.line, s.queue, s.out, len);
      FillTracks(s.line, s.queue, len);
      FillIsNextOctets(s.queue, len);
      hide Fill, Tracks, Placed, Whole, QueueOk, Pending;
    }
  }

  /** The place is where the pending octets begin. */
  lemma PlacedIs(line: seq<Node>, q: Queue, n: nat)
    requires QueueOk(q) && Tracks(line, q)
    ensures Placed(line, q, n) <==> n <= |Whole(line)| && |Pending(q)| == |Whole(line)| - n
    ensures Placed(line, q, n) ==> Pending(q) == Whole(line)[n..]
  {
    LineSplits(line, q);
    hide QueueOk, Tracks, Whole, Pending, Lengths;
  }

  lemma TakeMoves(line: seq<Node>, q: Queue, out: seq<byte>, len: nat)
    requires QueueOk(q) && Tracks(line, q) && out <= Whole(line) && Placed(line, q, |out|)
    ensures var r := Fill(q, len);
            && out + r.out <= Whole(line)
            && if r.closeSent then out + r.out == Whole(line)
               else |r.queue| <= |line| && Placed(line, r.queue, |out + r.out|)
  {
    var r := Fill(q, len);
    FillTracks(line, q, len);
    FillIsNextOctets(q, len);
    PlacedIs(line, q, |out|);
    if !r.closeSent { PlacedIs(line, r.queue, |out + r.out|); }
    hide Fill, Whole, QueueOk, NodesOk, Pending, CloseAhead, Placed;
    MoveAlong(Whole(line), out, |r.out|);
  }

  lemma MoveAlong(w: seq<byte>, out: seq<byte>, j: nat)
    requires out <= w && |out| + j <= |w|
    ensures out + w[|out|..][..j] == w[..|out| + j] && |w[|out|..][j..]| == |w| - |out| - j
  {}

  lemma StepKeeps(s: Sending, op: Op)
    requires Inv(s) && OpOk(s, op)
    ensures Inv(Step(s, op)) && s.out <= Step(s, op).out
  {
    if op.Put? { PutKeeps(s, op.node, op.urgent); } else { TakeKeeps(s, op.len); }
    hide Fill, Enqueued, Tracks, Placed, Whole, QueueOk, Insert;
  }

  // ----- Which frames, in which order -----

  /** The frames of the line that are not urgent. */
  function Ordinary(line: seq<Node>, urgent: seq<bool>): seq<Node>
    requires |line| == |urgent|
  {
    if line == [] then []
    else (if urgent[0] then [] else [line[0]]) + Ordinary(line[1..], urgent[1..])
  }

  function OrdinaryPuts(ops: seq<Op>): seq<Node> {
    if ops == [] then []
    else
      var n := |ops| - 1;
      OrdinaryPuts(ops[..n]) + if ops[n].Put? && !ops[n].urgent then [ops[n].node] else []
  }

  function Puts(ops: seq<Op>): multiset<Node> {
    if ops == [] then multiset{}
    else
      var n := |ops| - 1;
      Puts(ops[..n]) + if ops[n].Put? then multiset{ops[n].node} else multiset{}
  }

  lemma {:induction false} OrdinaryInsert(line: seq<Node>, marks: seq<bool>, i: nat, x: Node, mark: bool)
    requires i <= |line| == |marks| && (!mark ==> i == |line|)
    ensures |Insert(line, i, x)| == |Insert(marks, i, mark)|
    ensures Ordinary(Insert(line, i, x), Insert(marks, i, mark)) == Ordinary(line, marks) + if mark then [] else [x]
    decreases |line|
  {
    var l, m := Insert(line, i, x), Insert(marks, i, mark);
    if i == 0 {
      assert l[1..] == line && m[1..] == marks;
      if !mark { assert line == []; }
    } else {
      assert l[1..] == Insert(line[1..], i - 1, x) && m[1..] == Insert(marks[1..], i - 1, mark);
      OrdinaryInsert(line[1..], marks[1..], i - 1, x, mark);
    }
  }

  lemma InsertContents(line: seq<Node>, i: nat, x: Node)
    requires i <= |line|
    ensures multiset(Insert(line, i, x)) == multiset(line) + multiset{x}
  {
    assert line == line[..i] + line[i..];
  }

  lemma StepOrder(s: Sending, op: Op)
    requires Inv(s) && OpOk(s, op)
    ensures var t := Step(s, op);
            && |t.line| == |t.urgent|
            && Ordinary(t.line, t.urgent) ==
               Ordinary(s.line, s.urgent) + (if op.Put? && !op.urgent then [op.node] else [])
            && multiset(t.line) == multiset(s.line) + (if op.Put? then multiset{op.node} else multiset{})
  {
    if op.Put? {
      OrdinaryInsert(s.line, s.urgent, Place(s, op.urgent), op.node, op.urgent);
      InsertContents(s.line, Place(s, op.urgent), op.node);
    } else {
      assert Ordinary(s.line, s.urgent) + [] == Ordinary(s.line, s.urgent);
    }
    hide Ordinary, Insert, Tracks, Whole, Fill, Enqueued, Begun;
  }

  lemma InvIsLine(s: Sending)
    requires Inv(s)
    ensures QueueOk(s.queue) && (s.closed ==> s.queue == []) && s.out + Pending(s.queue) == Whole(s.line)
  {
    hide QueueOk, Tracks, Whole, Lengths;
    if s.closed {
      assert s.out + [] == s.out;
    } else {
      LineSplits(s.line, s.queue);
      assert s.out == Whole(s.line)[..|s.out|];
    }
  }

  // ----- Runs -----

  lemma InvLength(s: Sending)
    requires Inv(s)
    ensures |s.line| == |s.urgent|
  {}

  /** The lines that a close frame has ended, and the present one: the first frame that is queued
      after a close frame is out begins a new line. */
  datatype Lines = Lines(past: seq<Sending>, now: Sending)

  predicate OpFits(op: Op) {
    op.Put? ==> NodeOk(op.node) && op.node.sent == 0
  }

  predicate OpsFit(ops: seq<Op>) {
    forall i {:trigger ops[i]} :: 0 <= i < |ops| ==> OpFits(ops[i])
  }

  ghost predicate AllInv(h: Lines) {
    Inv(h.now) && forall i {:trigger h.past[i]} :: 0 <= i < |h.past| ==> Inv(h.past[i]) && h.past[i].closed
  }

  lemma EmptyIsOk()
    ensures Inv(EMPTY)
  {
    assert EMPTY.line[..0] == [];
  }

  ghost function StepOn(h: Lines, op: Op): (t: Lines)
    requires AllInv(h) && OpFits(op)
    ensures AllInv(t)
  {
    hide QueueOk, Tracks, Placed, Whole, Enqueued, Fill, Insert;
    EmptyIsOk();
    if op.Put? && h.now.closed then
      StepKeeps(EMPTY, op);
      Lines(h.past + [h.now], Step(EMPTY, op))
    else
      StepKeeps(h.now, op);
      h.(now := Step(h.now, op))
  }

  ghost function Run(ops: seq<Op>): (h: Lines)
    requires OpsFit(ops)
    ensures AllInv(h)
  {
    EmptyIsOk();
    if ops == [] then Lines([], EMPTY) else StepOn(Run(ops[..|ops| - 1]), ops[|ops| - 1])
  }

  function AllOut(past: seq<Sending>): seq<byte> {
    if past == [] then [] else AllOut(past[..|past| - 1]) + past[|past| - 1].out
  }

  function AllWhole(past: seq<Sending>): seq<byte> {
    if past == [] then [] else AllWhole(past[..|past| - 1]) + Whole(past[|past| - 1].line)
  }

  ghost function AllOrdinary(past: seq<Sending>): seq<Node>
    requires forall i {:trigger past[i]} :: 0 <= i < |past| ==> Inv(past[i])
  {
    if past == [] then []
    else
      var last := past[|past| - 1];
      InvLength(last);
      AllOrdinary(past[..|past| - 1]) + Ordinary(last.line, last.urgent)
  }

  function AllNodes(past: seq<Sending>): multiset<Node> {
    if past == [] then multiset{} else AllNodes(past[..|past| - 1]) + multiset(past[|past| - 1].line)
  }

  /** A line that has been ended is out. */
  lemma {:induction false} PastIsOut(past: seq<Sending>)
    requires forall i {:trigger past[i]} :: 0 <= i < |past| ==> Inv(past[i]) && past[i].closed
    ensures AllOut(past) == AllWhole(past)
  {
    hide Whole, Tracks, Placed, QueueOk;
    if past != [] { PastIsOut(past[..|past| - 1]); }
  }

  lemma Reassociate<T>(a: seq<T>, b: seq<T>, c: seq<T>)
    ensures a + b + c == a + (b + c) && a + [] == a
  {}

  lemma PastAppend(past: seq<Sending>, s: Sending)
    requires Inv(s) && forall i {:trigger past[i]} :: 0 <= i < |past| ==> Inv(past[i])
    ensures AllOrdinary(past + [s]) == AllOrdinary(past) + Ordinary(s.line, s.urgent)
    ensures AllNodes(past + [s]) == AllNodes(past) + multiset(s.line)
  {
    hide Inv, Ordinary;
    assert (past + [s])[..|past|] == past && (past + [s])[|past|] == s;
  }

  lemma StepOnOrder(h: Lines, op: Op)
    requires AllInv(h) && OpFits(op)
    ensures |h.now.line| == |h.now.urgent|
    ensures var t := StepOn(h, op);
            && |t.now.line| == |t.now.urgent|
            && AllOrdinary(t.past) + Ordinary(t.now.line, t.now.urgent)
               == AllOrdinary(h.past) + Ordinary(h.now.line, h.now.urgent) + (if op.Put? && !op.urgent then [op.node] else [])
            && AllNodes(t.past) + multiset(t.now.line)
               == AllNodes(h.past) + multiset(h.now.line) + (if op.Put? then multiset{op.node} else multiset{})
  {
    hide Inv, Step, Ordinary, AllOrdinary, AllNodes;
    InvLength(h.now);
    var added := if op.Put? && !op.urgent then [op.node] else [];
    if op.Put? && h.now.closed {
      EmptyIsOk();
      PastAppend(h.past, h.now);
      StepOrder(EMPTY, op);
      NoLine();
      assert [] + added == added;
    } else {
      StepOrder(h.now, op);
      Reassociate(AllOrdinary(h.past), Ordinary(h.now.line, h.now.urgent), added);
    }
  }

  lemma {:induction false} RunOrder(ops: seq<Op>)
    requires OpsFit(ops)
    ensures var h := Run(ops);
            && |h.now.line| == |h.now.urgent|
            && AllOrdinary(h.past) + Ordinary(h.now.line, h.now.urgent) == OrdinaryPuts(ops)
            && AllNodes(h.past) + multiset(h.now.line) == Puts(ops)
  {
    hide AllInv, Inv, StepOn, Ordinary, AllOrdinary, AllNodes, OpFits;
    if ops == [] {
      NoLine();
      NoPast();
    } else {
      var n := |ops| - 1;
      RunOrder(ops[..n]);
      RunUnfold(ops);
      StepOnOrder(Run(ops[..n]), ops[n]);
    }
  }

  lemma RunUnfold(ops: seq<Op>)
    requires OpsFit(ops) && ops != []
    ensures var n := |ops| - 1; OpsFit(ops[..n]) && OpFits(ops[n]) && Run(ops) == StepOn(Run(ops[..n]), ops[n])
  {
    hide AllInv, StepOn, OpFits;
  }

  lemma NoPast()
    ensures AllOrdinary([]) == [] && AllNodes([]) == multiset{}
  {}

  lemma NoLine()
    ensures Ordinary([], []) == [] && EMPTY.line == [] && EMPTY.urgent == []
  {}

  /** Over every run from an empty queue: what is out followed by what can still be sent are whole
      encodings, none inside another; each line ends with the first close frame that is put into
      it; every frame queued is in one line once, and the ordinary ones in the order in which they
      came. */
  lemma EveryRunIsALine(ops: seq<Op>)
    requires OpsFit(ops)
    ensures var h := Run(ops);
            && QueueOk(h.now.queue) && |h.now.line| == |h.now.urgent|
            && AllOut(h.past) + h.now.out + Pending(h.now.queue) == AllWhole(h.past) + Whole(h.now.line)
            && AllOrdinary(h.past) + Ordinary(h.now.line, h.now.urgent) == OrdinaryPuts(ops)
            && AllNodes(h.past) + multiset(h.now.line) == Puts(ops)
            && (h.now.closed ==> h.now.queue == [] && h.now.out == Whole(h.now.line))
  {
    var h := Run(ops);
    RunOrder(ops);
    InvIsLine(h.now);
    ClosedIsOut(h.now);
    PastIsOut(h.past);
    hide *;
    Reassociate(AllOut(h.past), h.now.out, Pending(h.now.queue));
  }

  lemma ClosedIsOut(s: Sending)
    requires Inv(s)
    ensures s.closed ==> s.queue == [] && s.out == Whole(s.line)
  {
    hide Whole, Tracks, Placed, QueueOk;
  }

  /** In any state of a run an urgent frame goes before everything that has not begun to go out:
      to the head of the queue, or behind the head if some of it is out. */
  lemma UrgentIsNext(s: Sending, node: Node)
    requires Inv(s) && OpOk(s, Put(node, true))
    ensures var b := |s.line| - |s.queue| + if 0 < HeadSent(s.queue) then 1 else 0;
            0 <= b <= |s.line| && Step(s, Put(node, true)).line == s.line[..b] + [node] + s.line[b..]
  {
    BegunIs(s.line, s.queue, |s.out|);
    BegunBound(s.line, |s.out|);
    hide Tracks, Placed, Whole, Enqueued, Begun;
  }
}
