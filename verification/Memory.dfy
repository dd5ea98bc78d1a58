/**
 * src/memory.c: a pool of blocks kept on two doubly linked lists, `active` and `free`.
 */
module Memory {

  // ----- The pool as two sequences -----

  datatype Lists<!T(==)> = Lists(free: seq<T>, active: seq<T>) {
    predicate WellFormed() {
      Distinct(free) && Distinct(active) && forall b :: b in free ==> b !in active
    }
  }

  predicate Distinct<T(==)>(s: seq<T>) {
    forall i, j :: 0 <= i < j < |s| ==> s[i] != s[j]
  }

  function Without<T(==)>(s: seq<T>, p: T): seq<T> {
    if s == [] then [] else if s[0] == p then Without(s[1..], p) else [s[0]] + Without(s[1..], p)
  }

  /** _mem_alloc: the first free block if there is one, otherwise the new block. */
  function Allocated<T(==)>(l: Lists<T>, made: T): Lists<T> {
    if l.free != [] then Lists(l.free[1..], [l.free[0]] + l.active) else Lists([], [made] + l.active)
  }

  /** mem_free: nothing happens to the head of the free list; any other block, free ones
      included, becomes the head of the free list. */
  function Freed<T(==)>(l: Lists<T>, p: T): Lists<T> {
    if l.free != [] && l.free[0] == p then l
    else Lists([p] + Without(l.free, p), Without(l.active, p))
  }

  lemma DistinctCons<T>(p: T, s: seq<T>)
    requires Distinct(s) && p !in s
    ensures Distinct([p] + s)
  {
    forall i, j | 0 <= i < j < |[p] + s| ensures ([p] + s)[i] != ([p] + s)[j] {
      assert ([p] + s)[j] == s[j - 1];
      if i > 0 { assert ([p] + s)[i] == s[i - 1]; }
    }
  }

  lemma {:induction false} WithoutIs<T>(s: seq<T>, p: T)
    requires Distinct(s)
    ensures Distinct(Without(s, p))
    ensures forall q :: q in Without(s, p) <==> q in s && q != p
    ensures |Without(s, p)| == |s| - if p in s then 1 else 0
  {
    if s != [] {
      WithoutIs(s[1..], p);
      assert s == [s[0]] + s[1..];
      assert forall q :: q in s <==> q == s[0] || q in s[1..];
      if s[0] != p { DistinctCons(s[0], Without(s[1..], p)); }
    }
  }

  lemma WithoutMember<T>(s: seq<T>, p: T, q: T)
    requires Distinct(s)
    ensures q in Without(s, p) <==> q in s && q != p
  {
    WithoutIs(s, p);
  }

  function Elements<T(==)>(s: seq<T>): set<T> {
    set x | x in s
  }

  lemma WithoutElements<T>(s: seq<T>, p: T)
    requires Distinct(s)
    ensures Elements(Without(s, p)) == Elements(s) - {p}
  {
    var w := Without(s, p);
    forall x | x in Elements(w) ensures x in Elements(s) - {p} { WithoutMember(s, p, x); }
    forall x | x in Elements(s) - {p} ensures x in Elements(w) { WithoutMember(s, p, x); }
  }

  lemma {:induction false} WithoutAt<T>(s: seq<T>, k: nat)
    requires k < |s| && Distinct(s)
    ensures Without(s, s[k]) == s[..k] + s[k + 1..]
  {
    if k == 0 {
      WithoutAbsent(s[1..], s[0]);
    } else {
      WithoutAt(s[1..], k - 1);
      assert s[1..][..k - 1] == s[1..k] && s[1..][k..] == s[k + 1..];
    }
  }

  lemma {:induction false} WithoutAbsent<T>(s: seq<T>, p: T)
    requires p !in s
    ensures Without(s, p) == s
  {
    if s != [] { WithoutAbsent(s[1..], p); }
  }

  /** An allocation or the return of a block the pool has made. */
  datatype Op<T> = Alloc(made: T) | Free(block: T)

  /** The lists, and the largest number of blocks that were in use at once. */
  datatype History<!T(==)> = History(lists: Lists<T>, peak: nat)

  function Apply<T(==)>(h: History<T>, op: Op<T>): History<T> {
    match op
    case Alloc(made) =>
      var l := Allocated(h.lists, made);
      History(l, if h.peak < |l.active| then |l.active| else h.peak)
    case Free(p) => History(Freed(h.lists, p), h.peak)
  }

  /** Blocks obtained from malloc are new, blocks returned came from this pool. */
  predicate Sensible<T(==)>(h: History<T>, op: Op<T>) {
    match op
    case Alloc(made) => h.lists.free == [] ==> made !in h.lists.active
    case Free(p) => p in h.lists.free + h.lists.active
  }

  predicate AllSensible<T(==)>(h: History<T>, ops: seq<Op<T>>)
    decreases |ops|
  {
    ops == [] || (Sensible(h, ops[0]) && AllSensible(Apply(h, ops[0]), ops[1..]))
  }

  function Run<T(==)>(h: History<T>, ops: seq<Op<T>>): History<T>
    decreases |ops|
  {
    if ops == [] then h else Run(Apply(h, ops[0]), ops[1..])
  }

  predicate PoolOk<T(==)>(h: History<T>) {
    h.lists.WellFormed() && |h.lists.free| + |h.lists.active| == h.peak
  }

  lemma ApplyKeepsPool<T>(h: History<T>, op: Op<T>)
    requires PoolOk(h) && Sensible(h, op)
    ensures PoolOk(Apply(h, op))
  {
    var l := h.lists;
    if op.Free? {
      WithoutIs(l.free, op.block);
      WithoutIs(l.active, op.block);
      DistinctCons(op.block, Without(l.free, op.block));
      var free, active := Without(l.free, op.block), Without(l.active, op.block);
      forall b | b in [op.block] + free ensures b !in active {
        WithoutMember(l.free, op.block, b);
        WithoutMember(l.active, op.block, b);
        assert b == op.block || b in free;
      }
    } else if l.free != [] {
      assert l.free == [l.free[0]] + l.free[1..];
      assert forall q :: q in l.free <==> q == l.free[0] || q in l.free[1..];
      DistinctCons(l.free[0], l.active);
    } else {
      DistinctCons(op.made, l.active);
    }
  }

  /** All blocks of the pool. */
  function Blocks<T(==)>(l: Lists<T>): set<T> {
    Elements(l.free) + Elements(l.active)
  }

  /** The blocks that had to be obtained from malloc. */
  function Made<T(==)>(h: History<T>, ops: seq<Op<T>>): set<T>
    decreases |ops|
  {
    if ops == [] then {}
    else (if ops[0].Alloc? && h.lists.free == [] then {ops[0].made} else {}) + Made(Apply(h, ops[0]), ops[1..])
  }

  lemma ApplyKeepsBlocks<T>(h: History<T>, op: Op<T>)
    requires PoolOk(h) && Sensible(h, op)
    ensures Blocks(Apply(h, op).lists) ==
            Blocks(h.lists) + if op.Alloc? && h.lists.free == [] then {op.made} else {}
  {
    var l := h.lists;
    if op.Free? {
      WithoutElements(l.free, op.block);
      WithoutElements(l.active, op.block);
      ElementsCons(op.block, Without(l.free, op.block));
      assert op.block in Blocks(l);
    } else if l.free != [] {
      assert l.free == [l.free[0]] + l.free[1..];
      ElementsCons(l.free[0], l.free[1..]);
      ElementsCons(l.free[0], l.active);
    } else {
      ElementsCons(op.made, l.active);
    }
  }

  lemma ElementsCons<T>(x: T, s: seq<T>)
    ensures Elements([x] + s) == {x} + Elements(s)
  {}

  /** Whatever is allocated and returned, twice or out of order included, no block is on both
      lists or twice on one, the blocks are exactly those there were and those obtained from
      malloc, and there are no more of them than were ever in use at once. */
  lemma {:induction false} PoolNeverLeaks<T>(ops: seq<Op<T>>, h: History<T>)
    requires PoolOk(h) && AllSensible(h, ops)
    ensures PoolOk(Run(h, ops)) && Blocks(Run(h, ops).lists) == Blocks(h.lists) + Made(h, ops)
    decreases |ops|
  {
    if ops != [] {
      ApplyKeepsPool(h, ops[0]);
      ApplyKeepsBlocks(h, ops[0]);
      hide PoolOk, Sensible, Apply, Blocks;
      PoolNeverLeaks(ops[1..], Apply(h, ops[0]));
    }
  }

  /** Returning a block twice in a row is the same as returning it once. */
  lemma DoubleFree<T>(l: Lists<T>, p: T)
    ensures Freed(Freed(l, p), p) == Freed(l, p)
  {}

  // ----- The linked lists -----

  class Block {
    const parent: BlockPool
    var prev: Block?
    var next: Block?

    constructor (parent: BlockPool)
      ensures this.parent == parent && next == null
    {
      this.parent := parent;
      next := null;
    }
  }

  /** The blocks of s, in order, form a doubly linked list starting at head. */
  ghost predicate Linked(s: seq<Block>, head: Block?)
    reads s
  {
    && head == (if s == [] then null else s[0])
    && (forall i {:trigger s[i].prev} :: 0 <= i < |s| ==> s[i].prev == if i == 0 then null else s[i - 1])
    && (forall i {:trigger s[i].next} :: 0 <= i < |s| ==> s[i].next == if i + 1 == |s| then null else s[i + 1])
  }

  /** Puts p in front of the list s. */
  method PushFront(p: Block, head: Block?, ghost s: seq<Block>)
    requires Linked(s, head) && p !in s && Distinct(s)
    modifies p, s
    ensures Linked([p] + s, p)
  {
    p.prev := null;
    p.next := head;
    if p.next != null {
      p.next.prev := p;
    }
  }

  /** Takes the first block off the list s. */
  method PopFront(p: Block, ghost s: seq<Block>) returns (head: Block?)
    requires s != [] && p == s[0] && Linked(s, p) && Distinct(s)
    modifies s
    ensures Linked(s[1..], head)
  {
    head := p.next;
    if head != null {
      head.prev := null;
    }
  }

  /** Takes the block at place k out of the list s. */
  method Unlink(p: Block, ghost s: seq<Block>, ghost k: nat)
    requires k < |s| && p == s[k] && Linked(s, s[0]) && Distinct(s)
    modifies s
    ensures var t := s[..k] + s[k + 1..]; Linked(t, if t == [] then null else t[0])
    ensures p.next == (if k + 1 == |s| then null else s[k + 1])
  {
    if p.prev != null {
      p.prev.next := p.next;
    }
    if p.next != null {
      p.next.prev := p.prev;
    }
  }

  class BlockPool {
    var free: Block?
    var active: Block?
    ghost var lists: Lists<Block>
    ghost var peak: nat

    ghost predicate Valid()
      reads this, lists.free, lists.active
    {
      && lists.WellFormed()
      && Linked(lists.free, free) && Linked(lists.active, active)
      && Owns(lists.free) && Owns(lists.active)
      && PoolOk(History(lists, peak))
    }

    /** Block.parent is set once. */
    ghost predicate Owns(s: seq<Block>) {
      forall i :: 0 <= i < |s| ==> s[i].parent == this
    }

    constructor ()
      ensures Valid() && lists == Lists([], []) && peak == 0
    {
      free, active := null, null;
      lists, peak := Lists([], []), 0;
    }

    /** _mem_alloc; `malloc` tells whether the system has memory left. */
    method Alloc(malloc: bool) returns (b: Block?)
      requires Valid()
      modifies this, lists.free, lists.active
      ensures Valid()
      ensures b == null <==> old(lists.free) == [] && !malloc
      ensures b == null ==> lists == old(lists) && peak == old(peak)
      ensures b != null ==>
                && b.parent == this && (old(lists.free) == [] ==> fresh(b)) && b !in old(lists.active)
                && (old(lists.free) != [] ==> b == old(lists.free)[0])
                && History(lists, peak) == Apply(History(old(lists), old(peak)), Op.Alloc(b))
    {
      hide Freed, Distinct;
      ghost var l := lists;
      DisjointLists(l);
      var p: Block?;
      p := free;
      if p != null {
        free := PopFront(p, l.free);
      } else {
        if !malloc {
          return null;
        }
        p := new Block(this);
      }
      Activate(p, l);
      return p;
    }

    /** The last part of _mem_alloc: the block p, off the free list, becomes the head of the active
        list. */
    method Activate(p: Block, ghost l: Lists<Block>)
      requires PoolOk(History(l, peak)) && Sensible(History(l, peak), Op.Alloc(p))
      requires l.free != [] ==> p == l.free[0]
      requires Linked(Allocated(l, p).free, free) && Linked(l.active, active) && p !in l.active
      requires Owns(l.free) && Owns(l.active) && p.parent == this
      modifies this, p, l.active
      ensures Valid() && History(lists, peak) == Apply(History(l, old(peak)), Op.Alloc(p))
    {
      hide Distinct, Freed;
      ghost var h := History(l, peak);
      ApplyKeepsPool(h, Op.Alloc(p));
      AllocatedApart(l, p);
      hide PoolOk, Sensible;
      PushFront(p, active, l.active);
      active := p;
      lists := Allocated(l, p);
      peak := Apply(h, Op.Alloc(p)).peak;
    }

    /** mem_cleanup_pool: every block ever made is given back to the system once. */
    method Cleanup() returns (ghost released: seq<Block>)
      requires Valid()
      modifies this
      ensures released == old(lists.active) + old(lists.free)
      ensures active == null && free == null
    {
      released := [];
      ghost var l := lists;
      ghost var i := 0;
      var p := active;
      while p != null
        invariant 0 <= i <= |l.active| && released == l.active[..i]
        invariant p == active == if i == |l.active| then null else l.active[i]
        invariant free == old(free) && lists == l
        decreases |l.active| - i
      {
        released := released + [p];
        active := p.next;
        p := active;
        i := i + 1;
      }
      i := 0;
      p := free;
      while p != null
        invariant 0 <= i <= |l.free| && released == l.active + l.free[..i] && active == null
        invariant p == free == if i == |l.free| then null else l.free[i]
        decreases |l.free| - i
      {
        released := released + [p];
        free := p.next;
        p := free;
        i := i + 1;
      }
    }
  }

  /** The middle of mem_free: takes p off whichever list it is on. */
  method Detach(p: Block)
    requires p.parent.Valid() && p in p.parent.lists.free + p.parent.lists.active && p != p.parent.free
    modifies p.parent`active, p.parent.lists.free, p.parent.lists.active
    ensures Linked(Without(p.parent.lists.free, p), p.parent.free)
    ensures Linked(Without(p.parent.lists.active, p), p.parent.active)
  {
    var pool := p.parent;
    ghost var l := pool.lists;
    ghost var s, other, k := Locate(l, p);
    hide Without, Distinct;
    if p == pool.active {
      pool.active := p.next;
    }
    Unlink(p, s, k);
  }

  /** The list p is on, the other one, and p's place. */
  lemma Locate(l: Lists<Block>, p: Block) returns (s: seq<Block>, other: seq<Block>, k: nat)
    requires l.WellFormed() && p in l.free + l.active
    ensures if p in l.active then s == l.active && other == l.free else s == l.free && other == l.active
    ensures k < |s| && s[k] == p && Distinct(s) && (k == 0 <==> p == s[0])
    ensures Without(s, p) == s[..k] + s[k + 1..] && Without(other, p) == other
    ensures forall i :: 0 <= i < |other| ==> other[i] !in s && other[i] != p
  {
    s, other := if p in l.active then l.active else l.free, if p in l.active then l.free else l.active;
    k :| 0 <= k < |s| && s[k] == p;
    WithoutAt(s, k);
    WithoutAbsent(other, p);
  }

  /** mem_free: the block knows its pool. */
  method MemFree(p: Block)
    requires p.parent.Valid() && p in p.parent.lists.free + p.parent.lists.active
    modifies p.parent, p.parent.lists.free, p.parent.lists.active
    ensures p.parent.Valid()
    ensures History(p.parent.lists, p.parent.peak)
         == Apply(History(old(p.parent.lists), old(p.parent.peak)), Op.Free(p))
  {
    var pool := p.parent;
    ghost var l := pool.lists;
    if p == pool.free {
      return;
    }
    ApplyKeepsPool(History(l, pool.peak), Op.Free(p));
    hide Without, Distinct, PoolOk;
    Requeue(p);
  }

  /** The end of mem_free, for any block but the head of the free list. */
  method Requeue(p: Block)
    requires p.parent.Valid() && p in p.parent.lists.free + p.parent.lists.active && p != p.parent.free
    modifies p.parent, p.parent.lists.free, p.parent.lists.active
    ensures var pool, l := p.parent, old(p.parent.lists);
            && pool.lists == Lists([p] + Without(l.free, p), Without(l.active, p)) && pool.peak == old(pool.peak)
            && Linked(pool.lists.free, pool.free) && Linked(pool.lists.active, pool.active)
            && pool.Owns(pool.lists.free) && pool.Owns(pool.lists.active)
  {
    var pool := p.parent;
    ghost var l := pool.lists;
    ghost var free, active := Without(l.free, p), Without(l.active, p);
    WithoutFacts(l, p, free, active);
    hide Without, Distinct, PoolOk;
    Detach(p);
    PushFront(p, pool.free, free);
    pool.free := p;
    pool.lists := Lists([p] + free, active);
  }

  /** The blocks that stay free are not touched. */
  lemma AllocatedApart(l: Lists<Block>, p: Block)
    requires l.WellFormed() && (l.free == [] ==> p !in l.active) && (l.free != [] ==> p == l.free[0])
    ensures var m := Allocated(l, p);
            && m.active == [p] + l.active && Distinct(l.active)
            && (forall i :: 0 <= i < |m.free| ==> m.free[i] != p && m.free[i] !in l.active && m.free[i] in l.free)
            && (m.WellFormed() ==> Distinct(m.free) && Distinct(m.active))
  {}

  lemma DisjointLists(l: Lists<Block>)
    requires l.WellFormed()
    ensures Distinct(l.free) && Distinct(l.active)
    ensures forall i :: 0 <= i < |l.active| ==> l.active[i] !in l.free
    ensures l.free != [] ==> l.free[0] !in l.active
  {}

  lemma WithoutFacts(l: Lists<Block>, p: Block, free: seq<Block>, active: seq<Block>)
    requires l.WellFormed() && p in l.free + l.active
    requires free == Without(l.free, p) && active == Without(l.active, p)
    ensures && Distinct(free) && p !in free && (p in l.free || p in l.active)
            && (forall i :: 0 <= i < |free| ==> free[i] in l.free)
            && (forall i :: 0 <= i < |active| ==> active[i] in l.active && active[i] !in free && active[i] != p)
  {
    WithoutIs(l.free, p);
    WithoutIs(l.active, p);
    forall i | 0 <= i < |free| ensures free[i] in l.free { WithoutMember(l.free, p, free[i]); }
    forall i | 0 <= i < |active| ensures active[i] in l.active && active[i] !in free && active[i] != p {
      WithoutMember(l.free, p, active[i]);
      WithoutMember(l.active, p, active[i]);
    }
  }
}
