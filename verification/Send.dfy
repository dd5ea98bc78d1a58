/**
 * src/send.c in place: a linked queue of encoded frames, whose nodes live in pool blocks.
 */
module Send {
  import opened Bytes
  import opened Frames
  import opened SendSpec
  import opened Memory

  /** struct cws_buf_queue.  The back link of the C struct is never read and is left out. */
  class BufQueue {
    const block: Block
    const buffer: array<byte>
    var next: BufQueue?
    var isCloseFrame: bool
    var written: nat
    var sent: nat

    constructor (block: Block, size: nat)
      ensures this.block == block && fresh(buffer) && buffer.Length == size
      ensures next == null && !isCloseFrame && written == 0 && sent == 0
    {
      this.block := block;
      buffer := new byte[size](i => 0);
      next, isCloseFrame, written, sent := null, false, 0, 0;
    }
  }

  ghost predicate Chain(s: seq<BufQueue>, head: BufQueue?)
    reads s`next
  {
    && head == (if s == [] then null else s[0])
    && forall i {:trigger s[i].next} :: 0 <= i < |s| ==> s[i].next == if i + 1 == |s| then null else s[i + 1]
  }

  /** No two nodes share an object. */
  ghost predicate Apart(s: seq<BufQueue>) {
    forall i, j {:trigger s[i], s[j]} :: 0 <= i < j < |s| ==>
      s[i] != s[j] && s[i].buffer != s[j].buffer && s[i].block != s[j].block
  }

  function BuffersOf(s: seq<BufQueue>): set<array<byte>> {
    set n | n in s :: n.buffer
  }

  /** The nodes hold the octets of q. */
  ghost predicate Shows(s: seq<BufQueue>, q: Queue)
    reads s`written, s`sent, s`isCloseFrame, BuffersOf(s)
  {
    |s| == |q| && forall i {:trigger s[i]} {:trigger q[i]} :: 0 <= i < |s| ==> ShowsNode(s[i], q[i])
  }

  ghost predicate ShowsNode(b: BufQueue, n: Node)
    reads b`written, b`sent, b`isCloseFrame, b.buffer
  {
    b.written <= b.buffer.Length && n == Node(b.buffer[..b.written], b.sent, b.isCloseFrame)
  }

  /** Where send_frame puts a new element. */
  function Inserted<T>(s: seq<T>, x: T, urgent: bool, headStarted: bool): seq<T> {
    if s == [] then [x]
    else if !urgent then s + [x]
    else if headStarted then [s[0], x] + s[1..]
    else [x] + s
  }

  /** The tail of send_frame: links buf into the queue that starts at head. */
  method Link(buf: BufQueue, head: BufQueue?, urgent: bool, ghost s: seq<BufQueue>) returns (newHead: BufQueue)
    requires Chain(s, head) && Apart(s) && buf !in s && buf.next == null
    modifies s`next, buf`next
    ensures Chain(Inserted(s, buf, urgent, s != [] && 0 < s[0].sent), newHead)
  {
    if head == null {
      newHead := buf;
    } else if urgent {
      if 0 < head.sent {
        buf.next := head.next;
        head.next := buf;
        newHead := head;
      } else {
        newHead := buf;
        buf.next := head;
      }
    } else {
      Append(buf, head, s);
      newHead := head;
    }
  }

  method Append(buf: BufQueue, head: BufQueue, ghost s: seq<BufQueue>)
    requires Chain(s, head) && Apart(s) && buf !in s && buf.next == null
    modifies s`next
    ensures Chain(s + [buf], head)
  {
    var qP := head;
    ghost var i := 0;
    while qP.next != null
      invariant 0 <= i < |s| && qP == s[i]
      decreases |s| - i
    {
      qP := qP.next;
      i := i + 1;
    }
    qP.next := buf;
  }

  lemma InsertedShows(s: seq<BufQueue>, q: Queue, buf: BufQueue, n: Node, urgent: bool)
    requires Apart(s) && Shows(s, q) && ShowsNode(buf, n)
    requires forall i :: 0 <= i < |s| ==> s[i] != buf && s[i].buffer != buf.buffer && s[i].block != buf.block
    ensures var t := Inserted(s, buf, urgent, s != [] && 0 < s[0].sent);
            Apart(t) && Shows(t, Enqueued(q, n, urgent))
  {
    var k := if s == [] then 0 else if !urgent then |s| else if 0 < s[0].sent then 1 else 0;
    assert |s| == |q| && (s != [] ==> s[0].sent == q[0].sent) by { assert s != [] ==> ShowsNode(s[0], q[0]); }
    hide Apart, ShowsNode, Shows;
    assert Inserted(s, buf, urgent, s != [] && 0 < s[0].sent) == s[..k] + [buf] + s[k..];
    assert Enqueued(q, n, urgent) == q[..k] + [n] + q[k..];
    InsertedApart(s, buf, k);
    ShowsAt(s, q, buf, n, k);
  }

  lemma ShowsAt(s: seq<BufQueue>, q: Queue, buf: BufQueue, n: Node, k: nat)
    requires Shows(s, q) && ShowsNode(buf, n) && k <= |s|
    ensures Shows(s[..k] + [buf] + s[k..], q[..k] + [n] + q[k..])
  {
    hide ShowsNode;
    var t, p := s[..k] + [buf] + s[k..], q[..k] + [n] + q[k..];
    forall i | 0 <= i < |t| ensures ShowsNode(t[i], p[i]) {
      if i < k { assert t[i] == s[i] && p[i] == q[i]; } else if k < i { assert t[i] == s[i - 1] && p[i] == q[i - 1]; }
    }
  }

  lemma InsertedApart(s: seq<BufQueue>, buf: BufQueue, k: nat)
    requires Apart(s) && k <= |s|
    requires forall i :: 0 <= i < |s| ==> s[i] != buf && s[i].buffer != buf.buffer && s[i].block != buf.block
    ensures Apart(s[..k] + [buf] + s[k..])
  {}

  // ----- The blocks behind the nodes -----

  /** The two pools of a connection, one for control frames and one for data frames. */
  class Pools {
    const ctrl: BlockPool
    const data: BlockPool
    ghost var Repr: set<object>

    ghost predicate Valid()
      reads this, Repr
      ensures Valid() ==> this in Repr
    {
      && this in Repr && ctrl in Repr && data in Repr
      && Elements(ctrl.lists.free) <= Repr && Elements(ctrl.lists.active) <= Repr
      && Elements(data.lists.free) <= Repr && Elements(data.lists.active) <= Repr
      && PoolsOk()
    }

    ghost predicate PoolsOk()
      reads ctrl, ctrl.lists.free, ctrl.lists.active, data, data.lists.free, data.lists.active
    {
      ctrl != data && ctrl.Valid() && data.Valid()
    }

    /** The blocks in use. */
    ghost function Active(): set<Block>
      reads ctrl`lists, data`lists
    {
      Elements(ctrl.lists.active) + Elements(data.lists.active)
    }

    constructor ()
      ensures Valid() && Active() == {} && fresh(Repr)
    {
      ctrl := new BlockPool();
      data := new BlockPool();
      new;
      Repr := {this, ctrl, data};
    }

    /** mem_alloc_ctrl and mem_alloc_data */
    method Take(control: bool, malloc: bool) returns (b: Block?)
      requires Valid()
      modifies Repr
      ensures Valid() && fresh(Repr - old(Repr))
      ensures b == null <==> !malloc && old((if control then ctrl else data).lists.free) == []
      ensures b == null ==> Active() == old(Active())
      ensures b != null ==> b !in old(Active()) && Active() == old(Active()) + {b}
    {
      ghost var c, d := ctrl.lists, data.lists;
      b := TakeBlock(control, malloc);
      if b != null {
        ActiveGrows(if control then c else d, b);
        ListsGrow(if control then c else d, b);
        Repr := Repr + {b};
      }
    }

    method TakeBlock(control: bool, malloc: bool) returns (b: Block?)
      requires PoolsOk()
      modifies ctrl, ctrl.lists.free, ctrl.lists.active, data, data.lists.free, data.lists.active
      ensures PoolsOk()
      ensures b == null <==> !malloc && old((if control then ctrl else data).lists.free) == []
      ensures b == null ==> ctrl.lists == old(ctrl.lists) && data.lists == old(data.lists)
      ensures b != null ==>
                && (control ==> ctrl.lists == Allocated(old(ctrl.lists), b) && data.lists == old(data.lists))
                && (!control ==> data.lists == Allocated(old(data.lists), b) && ctrl.lists == old(ctrl.lists))
                && b !in old(Active()) && (b in old(Elements(ctrl.lists.free) + Elements(data.lists.free)) || fresh(b))
                && (control && old(ctrl.lists.free) != [] ==> b == old(ctrl.lists.free)[0])
                && (!control && old(data.lists.free) != [] ==> b == old(data.lists.free)[0])
    {
      ListsApart();
      if control {
        b := ctrl.Alloc(malloc);
      } else {
        b := data.Alloc(malloc);
      }
    }

    /** Blocks of different pools are different blocks. */
    lemma ListsApart()
      requires PoolsOk()
      ensures forall i, j :: 0 <= i < |ctrl.lists.active| && 0 <= j < |data.lists.active| ==>
                ctrl.lists.active[i] != data.lists.active[j]
      ensures forall i, j :: 0 <= i < |ctrl.lists.active| && 0 <= j < |data.lists.free| ==>
                ctrl.lists.active[i] != data.lists.free[j]
      ensures forall i, j :: 0 <= i < |ctrl.lists.free| && 0 <= j < |data.lists.active| ==>
                ctrl.lists.free[i] != data.lists.active[j]
      ensures forall i, j :: 0 <= i < |ctrl.lists.free| && 0 <= j < |data.lists.free| ==>
                ctrl.lists.free[i] != data.lists.free[j]
    {}

    /** mem_free of a block in use */
    method Give(b: Block)
      requires Valid() && b in Active()
      modifies Repr
      ensures Valid() && fresh(Repr - old(Repr)) && Active() == old(Active()) - {b}
    {
      ghost var c, d := ctrl.lists, data.lists;
      FreedElements(c, b);
      FreedElements(d, b);
      hide Freed;
      GiveBlock(b);
    }

    method GiveBlock(b: Block)
      requires PoolsOk() && b in Active()
      modifies ctrl, ctrl.lists.free, ctrl.lists.active, data, data.lists.free, data.lists.active
      ensures PoolsOk()
      ensures b in old(ctrl.lists.active) ==>
                ctrl.lists == Freed(old(ctrl.lists), b) && data.lists == old(data.lists) && b !in old(data.lists.active)
      ensures b !in old(ctrl.lists.active) ==>
                data.lists == Freed(old(data.lists), b) && ctrl.lists == old(ctrl.lists)
    {
      ListsApart();
      MemFree(b);
    }
  }

  lemma FreedElements(l: Lists<Block>, b: Block)
    requires l.WellFormed()
    ensures Elements(Freed(l, b).free) <= Elements(l.free) + {b}
    ensures Elements(Freed(l, b).active) == Elements(l.active) - {b}
  {
    WithoutElements(l.active, b);
    WithoutElements(l.free, b);
    var w := Without(l.free, b);
    assert Elements([b] + w) == {b} + Elements(w);
  }

  lemma ListsGrow(l: Lists<Block>, b: Block)
    ensures Elements(Allocated(l, b).free) <= Elements(l.free)
    ensures l.free != [] ==> Elements(Allocated(l, b).active) <= Elements(l.active) + {l.free[0]}
    ensures l.free == [] ==> Elements(Allocated(l, b).active) <= Elements(l.active) + {b}
  {}

  lemma ActiveGrows(l: Lists<Block>, b: Block)
    requires l.free != [] ==> b == l.free[0]
    ensures Elements(Allocated(l, b).active) == Elements(l.active) + {b}
  {
    assert [b] + l.active == Allocated(l, b).active;
  }

  function BlocksOf(s: seq<BufQueue>): set<Block> {
    set n | n in s :: n.block
  }

  // ----- The queue -----

  class SendQueue {
    const pools: Pools
    const maxPayload: nat
    var send: BufQueue?
    ghost var nodes: seq<BufQueue>
    ghost var queue: Queue
    /** The nodes and their buffers. */
    ghost var Repr: set<object>

    /** The linked nodes hold the queue. */
    ghost predicate ListOk()
      reads this, Repr
    {
      && Within(nodes, Repr) && this !in Repr
      && Chain(nodes, send) && Apart(nodes) && Shows(nodes, queue) && QueueOk(queue)
    }

    /** The blocks in use are exactly those of the queue's nodes. */
    ghost predicate Backed()
      reads this, pools, pools.Repr, pools.ctrl`lists, pools.data`lists
    {
      pools.Valid() && this !in pools.Repr && pools.Repr !! Repr && BlocksOf(nodes) == pools.Active()
    }

    ghost predicate Valid()
      reads this, Repr, pools, pools.Repr, pools.ctrl`lists, pools.data`lists
    {
      ListOk() && Backed()
    }

    constructor (maxPayload: nat)
      ensures Valid() && queue == [] && this.maxPayload == maxPayload
      ensures fresh(Repr) && fresh(pools) && fresh(pools.Repr)
    {
      this.maxPayload := maxPayload;
      send, nodes, queue, Repr := null, [], [], {};
      pools := new Pools();
    }

    /** A block of a frame that was sent can be used again. */
    ghost predicate HasBlock(control: bool)
      reads this, pools, pools.ctrl`lists, pools.data`lists
    {
      (if control then pools.ctrl else pools.data).lists.free != []
    }

    /** send_frame without the unpausing; false is CWSE_OUT_OF_MEMORY. */
    method SendFrame(f: Frame, malloc: bool) returns (ok: bool)
      requires Valid() && |f.payload| == f.payloadLen
      modifies this, Repr, pools.Repr
      ensures Valid() && fresh(Repr - old(Repr)) && fresh(pools.Repr - old(pools.Repr))
      ensures ok <==> malloc || old(HasBlock(f.isControl))
      ensures queue == if ok then Enqueued(old(queue), NodeFor(f, maxPayload), f.isUrgent) else old(queue)
    {
      hide Enqueued, ListOk, Elements, WireLength, WireBytes;
      var block := pools.Take(f.isControl, malloc);
      if block == null {
        return false;
      }
      Enqueue(f, block);
      return true;
    }

    /** send_frame once it has memory. */
    method Enqueue(f: Frame, block: Block)
      requires ListOk() && |f.payload| == f.payloadLen && block !in BlocksOf(nodes)
      modifies this, Repr
      ensures ListOk() && fresh(Repr - old(Repr))
      ensures queue == Enqueued(old(queue), NodeFor(f, maxPayload), f.isUrgent)
      ensures BlocksOf(nodes) == old(BlocksOf(nodes)) + {block}
    {
      hide NodeFor, Enqueued, QueueOk;
      BlockIsNew(nodes, block);
      var buf := Encode(f, block);
      Attach(buf, f.isUrgent, NodeFor(f, maxPayload));
    }

    /** The part of send_frame that fills the node. */
    method Encode(f: Frame, block: Block) returns (buf: BufQueue)
      requires |f.payload| == f.payloadLen
      ensures fresh(buf) && fresh(buf.buffer) && buf.block == block && buf.next == null
      ensures ShowsNode(buf, NodeFor(f, maxPayload))
      ensures NodeOk(NodeFor(f, maxPayload)) && NodeFor(f, maxPayload).sent == 0
    {
      hide WireBytes;
      var size := if f.isControl then CTL_FRAME_MAX else maxPayload + HEADER_MAX;
      buf := new BufQueue(block, size);
      var written := FrameEncode(f, buf.buffer);
      buf.written := written;
      if f.opcode == CLOSE {
        buf.isCloseFrame := true;
      }
    }

    /** Puts a filled node on the queue. */
    method Attach(buf: BufQueue, urgent: bool, ghost n: Node)
      requires ListOk() && ShowsNode(buf, n) && buf.next == null && NodeOk(n) && n.sent == 0
      requires buf !in Repr && buf.buffer !in Repr
      requires forall i :: 0 <= i < |nodes| ==> nodes[i].block != buf.block
      modifies this, Repr, buf
      ensures ListOk() && queue == Enqueued(old(queue), n, urgent)
      ensures Repr == old(Repr) + {buf, buf.buffer}
      ensures BlocksOf(nodes) == old(BlocksOf(nodes)) + {buf.block}
    {
      hide QueueOk, NodeOk, Enqueued, BlocksOf;
      ghost var s := nodes;
      ghost var started := s != [] && 0 < s[0].sent;
      ghost var t, q := Inserted(s, buf, urgent, started), Enqueued(queue, n, urgent);
      EnqueuedOk(queue, n, urgent);
      InsertedBlocks(s, buf, urgent, started);
      InsertedWithin(s, buf, urgent, started, Repr);
      NotWithin(s, buf, Repr);
      hide Inserted, Within, Apart, NodesOk;
      var head := LinkNode(buf, send, urgent, s, queue, n);
      SetList(head, t, q, Repr + {buf, buf.buffer});
    }

    method SetList(head: BufQueue?, ghost t: seq<BufQueue>, ghost q: Queue, ghost r: set<object>)
      requires Within(t, r) && this !in r && Chain(t, head) && Apart(t) && Shows(t, q) && QueueOk(q)
      modifies this
      ensures ListOk() && send == head && nodes == t && queue == q && Repr == r
    {
      hide Within, Apart, QueueOk;
      send, nodes, queue, Repr := head, t, q, r;
    }

    /** Recycles the head of the queue: the node is unlinked and its block returned. */
    method DropHead()
      requires Within(nodes, Repr) && this !in Repr && Chain(nodes, send) && Apart(nodes) && Shows(nodes, queue)
      requires Backed() && nodes != [] && QueueOk(queue[1..])
      modifies this, pools.Repr
      ensures ListOk() && Backed() && Repr == old(Repr) && fresh(pools.Repr - old(pools.Repr))
      ensures queue == old(queue)[1..] && nodes == old(nodes)[1..]
      ensures QueueOk(queue)
    {
      ghost var s := nodes;
      TailBlocks(s);
      TailWithin(s, Repr);
      var tmp := send;
      Unhook();
      pools.Give(tmp.block);
    }

    method Unhook()
      requires Within(nodes, Repr) && this !in Repr && Chain(nodes, send) && Apart(nodes) && Shows(nodes, queue)
      requires nodes != [] && QueueOk(queue[1..])
      modifies this
      ensures ListOk() && Repr == old(Repr)
      ensures queue == old(queue)[1..] && nodes == old(nodes)[1..]
    {
      hide QueueOk;
      TailWithin(nodes, Repr);
      send := send.next;
      nodes := nodes[1..];
      queue := queue[1..];
    }

    /** send_destroy */
    method Destroy()
      requires ListOk() && Backed()
      modifies this, pools.Repr
      ensures ListOk() && Backed() && queue == [] && Repr == old(Repr) && fresh(pools.Repr - old(pools.Repr))
    {
      while send != null
        invariant Valid() && Repr == old(Repr) && fresh(pools.Repr - old(pools.Repr))
        decreases |nodes|
      {
        DropHead();
      }
    }

    /** Reads the next octets of the head. */
    method HeadOctets(lesser: nat) returns (octets: seq<byte>)
      requires ListOk() && send != null && lesser <= |queue[0].bytes| - queue[0].sent
      ensures octets == queue[0].bytes[queue[0].sent..queue[0].sent + lesser]
    {
      assert ShowsNode(nodes[0], queue[0]);
      hide QueueOk;
      octets := send.buffer[send.sent..send.sent + lesser];
      assert octets == send.buffer[..send.written][send.sent..send.sent + lesser];
    }

    method BumpHead(lesser: nat) returns (done: bool, isClose: bool)
      requires ListOk() && Backed() && send != null && 0 < lesser <= |queue[0].bytes| - queue[0].sent
      modifies this, Repr
      ensures Within(nodes, Repr) && this !in Repr && Chain(nodes, send) && Apart(nodes) && Shows(nodes, queue)
      ensures nodes == old(nodes) && nodes != [] && Repr == old(Repr)
      ensures Backed() && pools.Repr == old(pools.Repr)
      ensures !done ==> ListOk()
      ensures var n := old(queue)[0]; 
              && queue == old(queue)[0 := n.(sent := n.sent + lesser)]
              && isClose == n.isClose && done == (n.sent + lesser == |n.bytes|)
      ensures QueueOk(queue[1..]) && (!done ==> QueueOk(queue))
    {
      send.sent := send.sent + lesser;
      queue := queue[0 := queue[0].(sent := send.sent)];
      isClose := send.isCloseFrame;
      done := send.sent == send.written;
    }

    /** Counts octets of the head as sent; a finished head is recycled, and after a close frame
        everything else is discarded. */
    method Advance(lesser: nat) returns (closeSent: bool)
      requires ListOk() && Backed() && send != null && 0 < lesser <= |queue[0].bytes| - queue[0].sent
      modifies this, Repr, pools.Repr
      ensures ListOk() && Backed() && Repr == old(Repr) && fresh(pools.Repr - old(pools.Repr))
      ensures queue == AfterSending(old(queue), lesser).0 && closeSent == AfterSending(old(queue), lesser).1
    {
      assert queue != [];
      hide *;
      ghost var q := queue;
      var done, isClose := BumpHead(lesser);
      AfterSendingIs(q, lesser, queue, done, isClose);
      closeSent := isClose && done;
      if done {
        Retire(isClose);
      }
    }

    /** Recycles the finished head; after a close frame everything else goes too. */
    method Retire(isClose: bool)
      requires Within(nodes, Repr) && this !in Repr && Chain(nodes, send) && Apart(nodes) && Shows(nodes, queue)
      requires Backed() && nodes != [] && queue != [] && QueueOk(queue[1..])
      modifies this, pools.Repr
      ensures ListOk() && Backed() && Repr == old(Repr) && fresh(pools.Repr - old(pools.Repr))
      ensures queue == if isClose then [] else old(queue)[1..]
    {
      hide *;
      DropHead();
      if isClose {
        Destroy();
      }
    }

    /** _fill_outgoing_buffer */
    method FillOutgoingBuffer(buffer: array<byte>, size: nat) returns (sent: nat, closeSent: bool)
      requires Valid() && send != null && buffer !in Repr && buffer !in pools.Repr && size <= buffer.Length
      modifies this, Repr, pools.Repr, buffer
      ensures Valid() && Repr == old(Repr) && fresh(pools.Repr - old(pools.Repr))
      ensures sent <= size
      ensures var r := Fill(old(queue), size);
              buffer[..sent] == r.out && queue == r.queue && closeSent == r.closeSent
    {
      hide *;
      var len := size;
      sent, closeSent := 0, false;
      ghost var out := [];
      var dataToSend: nat := HeadLeft();
      ghost var all := Fill(queue, size);
      ProgressStart(queue, size);
      while 0 < len && 0 < dataToSend
        invariant Valid() && Repr == old(Repr) && fresh(pools.Repr - old(pools.Repr))
        invariant 0 <= len && sent + len == size && buffer[..sent] == out
        invariant dataToSend == if queue == [] then 0 else |queue[0].bytes| - queue[0].sent
        invariant 0 < dataToSend ==> send != null
        invariant Progress(all, out, queue, len, closeSent)
        decreases len
      {
        var lesser: nat := if dataToSend < len then dataToSend else len;
        ghost var q := queue;
        ProgressTurn(all, out, q, len, lesser, closeSent);
        out := out + q[0].bytes[q[0].sent..q[0].sent + lesser];
        assert Progress(all, out, AfterSending(q, lesser).0, len - lesser, AfterSending(q, lesser).1);
        dataToSend, closeSent := SendSome(buffer, sent, lesser);
        sent := sent + lesser;
        len := len - lesser;
      }
      ProgressEnd(all, out, queue, len, closeSent, dataToSend);
    }

    /** One turn of the loop of _fill_outgoing_buffer. */
    method SendSome(buffer: array<byte>, at: nat, lesser: nat) returns (dataToSend: nat, closeSent: bool)
      requires Valid() && send != null && buffer !in Repr && buffer !in pools.Repr
      requires 0 < lesser <= |queue[0].bytes| - queue[0].sent && at + lesser <= buffer.Length
      modifies this, Repr, pools.Repr, buffer
      ensures Valid() && Repr == old(Repr) && fresh(pools.Repr - old(pools.Repr))
      ensures var n := old(queue)[0];
              buffer[..at + lesser] == old(buffer[..at]) + n.bytes[n.sent..n.sent + lesser]
      ensures queue == AfterSending(old(queue), lesser).0 && closeSent == AfterSending(old(queue), lesser).1
      ensures dataToSend == if queue == [] then 0 else |queue[0].bytes| - queue[0].sent
      ensures 0 < dataToSend ==> send != null
    {
      hide QueueOk, Apart, Within, BlocksOf, AfterSending;
      var octets := HeadOctets(lesser);
      CopyTo(buffer, at, octets);
      ghost var out := buffer[..at + lesser];
      assert out == buffer[..at] + buffer[at..at + lesser];
      closeSent := Advance(lesser);
      assert buffer[..at + lesser] == out;
      dataToSend := HeadLeft();
    }

    /** What is left to send of the head, if there is one. */
    method HeadLeft() returns (left: nat)
      requires Valid()
      ensures left == if queue == [] then 0 else |queue[0].bytes| - queue[0].sent
      ensures 0 < left ==> send != null
      ensures QueueOk(queue)
    {
      if send == null {
        return 0;
      }
      assert ShowsNode(nodes[0], queue[0]);
      return send.written - send.sent;
    }
  }

  /** The queue after `lesser` octets of its head, and whether a close frame is complete. */
  function AfterSending(q: Queue, lesser: nat): (Queue, bool)
    requires q != []
  {
    var n := q[0];
    if n.sent + lesser != |n.bytes| then (q[0 := n.(sent := n.sent + lesser)], false)
    else if n.isClose then ([], true)
    else (q[1..], false)
  }

  lemma AfterSendingIs(q: Queue, lesser: nat, now: Queue, done: bool, isClose: bool)
    requires q != [] && now == q[0 := q[0].(sent := q[0].sent + lesser)]
    requires isClose == q[0].isClose && done == (q[0].sent + lesser == |q[0].bytes|)
    ensures AfterSending(q, lesser) == if !done then (now, false) else if isClose then ([], true) else (now[1..], false)
  {
    assert now[1..] == q[1..];
  }

  /** How far the loop has come: what is out, and what remains, make up the whole. */
  predicate Progress(all: Filled, out: seq<byte>, q: Queue, len: nat, closeSent: bool) {
    && QueueOk(q)
    && if closeSent then q == [] && all == Filled(out, [], true)
       else var r := Fill(q, len); all == Filled(out + r.out, r.queue, r.closeSent)
  }

  lemma ProgressStart(q: Queue, size: nat)
    requires QueueOk(q)
    ensures Progress(Fill(q, size), [], q, size, false)
  {
    hide Fill;
    assert [] + Fill(q, size).out == Fill(q, size).out;
  }

  lemma ProgressTurn(all: Filled, out: seq<byte>, q: Queue, len: nat, lesser: nat, closeSent: bool)
    requires Progress(all, out, q, len, closeSent) && q != [] && 0 < len && 0 < |q[0].bytes| - q[0].sent
    requires lesser == if |q[0].bytes| - q[0].sent < len then |q[0].bytes| - q[0].sent else len
    ensures var n := q[0];
            Progress(all, out + n.bytes[n.sent..n.sent + lesser], AfterSending(q, lesser).0, len - lesser,
                     AfterSending(q, lesser).1)
  {
    FillUnfold(q, len);
    var n := q[0];
    var now := n.bytes[n.sent..n.sent + lesser];
    if n.sent + lesser < |n.bytes| {
      var q' := q[0 := n.(sent := n.sent + lesser)];
      ProgressStart(q', 0);
      hide Fill;
      assert out + now + [] == out + now;
    } else if !n.isClose {
      hide Fill;
      var rest := Fill(q[1..], len - lesser).out;
      assert out + (now + rest) == out + now + rest;
    }
  }

  lemma ProgressEnd(all: Filled, out: seq<byte>, q: Queue, len: nat, closeSent: bool, dataToSend: nat)
    requires Progress(all, out, q, len, closeSent) && (len == 0 || dataToSend == 0)
    requires dataToSend == if q == [] then 0 else |q[0].bytes| - q[0].sent
    ensures all == Filled(out, q, closeSent)
  {
    assert out + [] == out;
  }

  /** Link, with what the queue then holds. */
  method LinkNode(buf: BufQueue, head: BufQueue?, urgent: bool, ghost s: seq<BufQueue>, ghost q: Queue, ghost n: Node)
    returns (newHead: BufQueue)
    requires Chain(s, head) && Apart(s) && Shows(s, q) && ShowsNode(buf, n) && buf.next == null
    requires forall i :: 0 <= i < |s| ==> s[i] != buf && s[i].buffer != buf.buffer && s[i].block != buf.block
    modifies s`next, buf`next
    ensures var t := Inserted(s, buf, urgent, s != [] && 0 < s[0].sent);
            Chain(t, newHead) && Apart(t) && Shows(t, Enqueued(q, n, urgent))
  {
    hide Enqueued;
    ghost var t := Inserted(s, buf, urgent, s != [] && 0 < s[0].sent);
    InsertedShows(s, q, buf, n, urgent);
    newHead := Link(buf, head, urgent, s);
    hide Inserted;
    assert Shows(t, Enqueued(q, n, urgent));
  }

  lemma TailBlocks(s: seq<BufQueue>)
    requires Apart(s) && s != []
    ensures s[0].block in BlocksOf(s) && BlocksOf(s[1..]) == BlocksOf(s) - {s[0].block}
  {
    assert s == [s[0]] + s[1..];
    forall n | n in s[1..] ensures n.block != s[0].block {
      var i :| 1 <= i < |s| && s[i] == n;
    }
    assert forall n :: n in s <==> n == s[0] || n in s[1..];
  }

  lemma TailWithin(s: seq<BufQueue>, r: set<object>)
    requires Within(s, r) && Apart(s) && s != []
    ensures Within(s[1..], r) && Apart(s[1..])
  {}

  lemma FillUnfold(q: Queue, len: nat)
    requires QueueOk(q) && q != [] && 0 < len && q[0].bytes != []
    ensures var n := q[0];
            var lesser := Min(len, |n.bytes| - n.sent);
            var now := n.bytes[n.sent..n.sent + lesser];
            && (n.sent + lesser < |n.bytes| ==>
                 Fill(q, len) == Filled(now, q[0 := n.(sent := n.sent + lesser)], false) && lesser == len)
            && (n.sent + lesser == |n.bytes| && n.isClose ==> Fill(q, len) == Filled(now, [], true))
            && (n.sent + lesser == |n.bytes| && !n.isClose ==>
                 QueueOk(q[1..]) &&
                 var rest := Fill(q[1..], len - lesser);
                 Fill(q, len) == Filled(now + rest.out, rest.queue, rest.closeSent))
  {}

  lemma NotWithin(s: seq<BufQueue>, buf: BufQueue, r: set<object>)
    requires Within(s, r) && buf !in r && buf.buffer !in r
    ensures forall i :: 0 <= i < |s| ==> s[i] in r && s[i] != buf && s[i].buffer != buf.buffer
  {}

  ghost predicate Within(s: seq<BufQueue>, r: set<object>) {
    forall i {:trigger s[i]} :: 0 <= i < |s| ==> s[i] in r && s[i].buffer in r
  }

  lemma BlockIsNew(s: seq<BufQueue>, b: Block)
    requires b !in BlocksOf(s)
    ensures forall i {:trigger s[i]} :: 0 <= i < |s| ==> s[i].block != b
  {
    forall i | 0 <= i < |s| ensures s[i].block != b {
      assert s[i].block in BlocksOf(s);
    }
  }

  lemma InsertedWithin(s: seq<BufQueue>, buf: BufQueue, urgent: bool, started: bool, r: set<object>)
    requires Within(s, r)
    ensures Within(Inserted(s, buf, urgent, started), r + {buf, buf.buffer})
  {}

  lemma InsertedBlocks(s: seq<BufQueue>, buf: BufQueue, urgent: bool, started: bool)
    ensures BlocksOf(Inserted(s, buf, urgent, started)) == BlocksOf(s) + {buf.block}
  {
    var t := Inserted(s, buf, urgent, started);
    if s != [] { assert s == [s[0]] + s[1..]; }
    assert forall n :: n in t <==> n in s || n == buf;
  }
}
