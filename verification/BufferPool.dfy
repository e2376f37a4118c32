/**
 The buffer pool over the intrusive lists: free buffers in a ring, first in first out.
 Each operation is one region under the mutex of its list.
 */
module BufferPool {
  import opened Common
  import opened List

  // ----- The pool as a queue of free buffers -----

  datatype Op = Alloc | Free(buf: nat)

  /** Free buffers oldest first, and everything handed out or given back so far. */
  datatype Pool = Pool(free: seq<nat>, handedOut: seq<nat>, givenBack: seq<nat>)

  function Start(num: nat): Pool {
    Pool(seq(num, (i: nat) => i), [], [])
  }

  /** A caller gives back only what it holds. */
  predicate Legal(num: nat, p: Pool, op: Op) {
    op.Alloc? || (op.buf < num && op.buf !in p.free)
  }

  function Apply(p: Pool, op: Op): Pool {
    match op
    case Alloc => if p.free == [] then p else Pool(p.free[1..], p.handedOut + [p.free[0]], p.givenBack)
    case Free(b) => Pool(p.free + [b], p.handedOut, p.givenBack + [b])
  }

  function RunOps(p: Pool, ops: seq<Op>): Pool {
    if ops == [] then p else Apply(RunOps(p, ops[..|ops| - 1]), ops[|ops| - 1])
  }

  predicate AllLegal(num: nat, p: Pool, ops: seq<Op>) {
    ops == [] || (AllLegal(num, p, ops[..|ops| - 1]) && Legal(num, RunOps(p, ops[..|ops| - 1]), ops[|ops| - 1]))
  }

  function Times(l: seq<nat>, b: nat): nat {
    multiset(l)[b]
  }

  /** Buffers are handed out exactly in the order in which they were put into the pool. */
  lemma {:induction false} FirstInFirstOut(num: nat, ops: seq<Op>)
    ensures var p := RunOps(Start(num), ops);
      p.handedOut + p.free == Start(num).free + p.givenBack
  {
    var start := Start(num);
    if ops == [] {
      assert [] + start.free == start.free + [];
    } else {
      FirstInFirstOut(num, ops[..|ops| - 1]);
      var p, op := RunOps(start, ops[..|ops| - 1]), ops[|ops| - 1];
      if op.Free? {
        assert p.handedOut + (p.free + [op.buf]) == (start.free + p.givenBack) + [op.buf];
      } else if p.free != [] {
        assert (p.handedOut + [p.free[0]]) + p.free[1..] == p.handedOut + p.free;
      }
    }
  }

  // ----- What the calls alone say -----

  /** The buffers given back, in order. */
  function Returned(ops: seq<Op>): seq<nat> {
    if ops == [] then []
    else
      var before, op := Returned(ops[..|ops| - 1]), ops[|ops| - 1];
      if op.Free? then before + [op.buf] else before
  }

  /** How many of the requests find a buffer: those before which fewer have done so than there have been buffers. */
  function Served(num: nat, ops: seq<Op>): (n: nat)
    ensures n <= num + |Returned(ops)|
  {
    if ops == [] then 0
    else
      var before := ops[..|ops| - 1];
      var n := Served(num, before);
      if ops[|ops| - 1].Alloc? && n < num + |Returned(before)| then n + 1 else n
  }

  /**
   The buffers go round in one queue of those of the start, by address, and those given back: handed
   out are as many from its front as have been asked for in time, and the others are free.
   */
  lemma {:induction false} OneQueue(num: nat, ops: seq<Op>)
    ensures |Start(num).free| == num && forall i | 0 <= i < num :: Start(num).free[i] == i
    ensures var (p, queue, n) := (RunOps(Start(num), ops), Start(num).free + Returned(ops), Served(num, ops));
      p.handedOut == queue[..n] && p.free == queue[n..] && p.givenBack == Returned(ops)
  {
    var start := Start(num).free;
    if ops == [] {
      assert start + [] == start;
    } else {
      var before, op := ops[..|ops| - 1], ops[|ops| - 1];
      OneQueue(num, before);
      var queue, n := start + Returned(before), Served(num, before);
      if op.Free? {
        assert start + (Returned(before) + [op.buf]) == queue + [op.buf];
        assert (queue + [op.buf])[..n] == queue[..n] && (queue + [op.buf])[n..] == queue[n..] + [op.buf];
      } else if n < |queue| {
        assert queue[..n] + [queue[n..][0]] == queue[..n + 1] && queue[n..][1..] == queue[n + 1..];
      }
    }
  }

  /** No number twice, and none outside the arena. */
  ghost predicate FreeOk(num: nat, free: seq<nat>) {
    NoDup(free) && forall b | b in free :: b < num
  }

  lemma {:induction false} FreeStaysOk(num: nat, ops: seq<Op>)
    requires AllLegal(num, Start(num), ops)
    ensures FreeOk(num, RunOps(Start(num), ops).free)
  {
    if ops == [] {
    } else {
      FreeStaysOk(num, ops[..|ops| - 1]);
      StepStaysOk(num, RunOps(Start(num), ops[..|ops| - 1]), ops[|ops| - 1]);
    }
  }

  lemma StepStaysOk(num: nat, p: Pool, op: Op)
    requires FreeOk(num, p.free) && Legal(num, p, op)
    ensures FreeOk(num, Apply(p, op).free)
  {
    var free := Apply(p, op).free;
    if op.Free? {
      assert forall i | 0 <= i < |p.free| :: p.free[i] in p.free;
      assert forall b | b in free :: b in p.free || b == op.buf;
    } else if p.free != [] {
      assert forall b | b in free :: b in p.free;
    }
  }

  /**
   After any legal run a buffer has been handed out once more than given back if it is in use, and
   as often if it is free: none is ever handed out twice without being given back in between.
   */
  lemma HandedOutOnce(num: nat, ops: seq<Op>, b: nat)
    requires AllLegal(num, Start(num), ops) && b < num
    ensures var p := RunOps(Start(num), ops);
      Times(p.handedOut, b) == Times(p.givenBack, b) + if b in p.free then 0 else 1
  {
    var p, start := RunOps(Start(num), ops), Start(num);
    FirstInFirstOut(num, ops);
    FreeStaysOk(num, ops);
    TimesInSum(p.handedOut, p.free, b);
    TimesInSum(start.free, p.givenBack, b);
    TimesInDistinct(p.free, b);
    assert start.free[b] == b;
    TimesInDistinct(start.free, b);
  }

  lemma TimesInSum(l: seq<nat>, m: seq<nat>, b: nat)
    ensures Times(l + m, b) == Times(l, b) + Times(m, b)
  {
  }

  lemma {:induction false} TimesInDistinct(l: seq<nat>, b: nat)
    requires NoDup(l)
    ensures Times(l, b) == if b in l then 1 else 0
  {
    if l == [] {
    } else {
      var rest, last := l[..|l| - 1], l[|l| - 1];
      TimesInDistinct(rest, b);
      assert l == rest + [last];
      assert forall i | 0 <= i < |rest| :: rest[i] == l[i] && rest[i] != last;
      assert b in l <==> b in rest || b == last;
    }
  }

  /** The free buffers and those in use make up the arena. */
  function InUse(num: nat, free: seq<nat>): set<nat> {
    set b: nat | b < num && b !in free
  }

  lemma {:induction false} ArenaIsPartitioned(num: nat, free: seq<nat>)
    requires FreeOk(num, free)
    ensures |InUse(num, free)| + |free| == num
    decreases num, |free|
  {
    if free != [] {
      var rest, last := free[..|free| - 1], free[|free| - 1];
      assert free == rest + [last];
      assert last in free && forall i | 0 <= i < |rest| :: rest[i] == free[i] && rest[i] in free;
      ArenaIsPartitioned(num, rest);
      assert InUse(num, rest) == InUse(num, free) + {last};
    } else if num > 0 {
      ArenaIsPartitioned(num - 1, []);
      var n: nat := num - 1;
      assert InUse(num, []) == InUse(num - 1, []) + {n};
    }
  }

  // ----- The manager -----

  /** The buffers whose links are behind the head of a ring. */
  ghost function BufsOf(ring: seq<Node>): (l: seq<nat>)
    requires |ring| > 0
    ensures |l| == |ring| - 1 && forall i | 0 <= i < |l| :: l[i] == ring[i + 1].buf
  {
    seq<nat>(|ring| - 1, i requires 0 <= i < |ring| - 1 => ring[i + 1].buf)
  }

  lemma BufsCut(ring: seq<Node>, k: nat)
    requires k + 1 < |ring|
    ensures BufsOf(Cut(ring, k + 1)) == BufsOf(ring)[..k] + BufsOf(ring)[k + 1..]
  {
  }

  /** A node of a ring is linked to nodes of the ring. */
  lemma Neighbours(ring: seq<Node>, k: nat)
    requires Ring(ring) && k + 1 < |ring|
    ensures ring[k + 1].prev in ring && ring[k + 1].next in ring
  {
    assert ring[Succ(k, |ring|)].prev == ring[k] && ring[k + 1].next == ring[Succ(k + 1, |ring|)];
  }

  /** Links of distinct buffers tell the buffers apart. */
  lemma LinkIsIn(ring: seq<Node>, links: seq<Node>, b: nat)
    requires |ring| > 0 && ring[0] !in links && b < |links| && links[b].buf == b
    requires forall i | 1 <= i < |ring| :: ring[i].buf < |links| && links[ring[i].buf] == ring[i]
    ensures links[b] in ring <==> b in BufsOf(ring)
  {
    var l := BufsOf(ring);
    assert links[b] in links;
    if links[b] in ring {
      var i: nat :| i < |ring| && ring[i] == links[b];
      assert i > 0 && l[i - 1] == b;
    }
    if b in l {
      var i: nat :| i < |l| && l[i] == b;
      assert ring[i + 1] == links[b] && ring[i + 1] in ring;
    }
  }

  /** The links of `num` buffers, each linked to itself. */
  method MakeNodes(num: nat) returns (nodes: seq<Node>)
    ensures |nodes| == num && NoDup(nodes) && forall i | 0 <= i < num :: nodes[i].buf == i && fresh(nodes[i])
  {
    nodes := [];
    for i := 0 to num
      invariant |nodes| == i && NoDup(nodes) && forall j | 0 <= j < i :: nodes[j].buf == j && fresh(nodes[j])
    {
      var node := new Node(i);
      nodes := nodes + [node];
    }
  }

  class Manager {
    const num: nat
    const freePool: Node
    const all: Node
    const freeLinks: seq<Node>
    const allLinks: seq<Node>
    var bufferNumFree: nat
    ghost var freeRing: seq<Node>
    ghost var allRing: seq<Node>
    ghost var handedOut: seq<nat>
    ghost var givenBack: seq<nat>

    ghost predicate Valid()
      reads this, freeRing, allRing
    {
      && |freeLinks| == |allLinks| == num
      && (forall b | 0 <= b < num :: freeLinks[b].buf == b && allLinks[b].buf == b)
      && Ring(freeRing) && freeRing[0] == freePool
      && (forall i | 1 <= i < |freeRing| :: freeRing[i].buf < num && freeLinks[freeRing[i].buf] == freeRing[i])
      && Ring(allRing) && allRing[0] == all
      && (forall i | 1 <= i < |allRing| :: allRing[i].buf < num && allLinks[allRing[i].buf] == allRing[i])
      && freePool !in freeLinks && freePool !in allLinks && all !in freeLinks && all !in allLinks && all != freePool
      && (forall b, c | 0 <= b < num && 0 <= c < num :: freeLinks[b] != allLinks[c])
      && bufferNumFree == |freeRing| - 1
    }

    /** Both lists are still empty, and the count starts at zero. */
    constructor (num: nat)
      ensures Valid() && this.num == num && View() == Pool([], [], []) && AllList() == []
      ensures fresh(freePool) && fresh(all) && freeRing == [freePool] && allRing == [all]
      ensures forall b | 0 <= b < num :: fresh(freeLinks[b]) && fresh(allLinks[b])
    {
      var frees := MakeNodes(num);
      var alls := MakeNodes(num);
      var freeHead := new Node(0);
      var allHead := new Node(0);
      this.num := num;
      freePool, all, freeLinks, allLinks := freeHead, allHead, frees, alls;
      bufferNumFree, freeRing, allRing, handedOut, givenBack := 0, [freeHead], [allHead], [], [];
    }

    /** The free buffers, oldest first. */
    ghost function FreeList(): (l: seq<nat>)
      requires |freeRing| > 0
      reads this
    {
      BufsOf(freeRing)
    }

    /** The free list and what callers have taken and given back, as a state of the queue. */
    ghost function View(): Pool
      requires |freeRing| > 0
      reads this
    {
      Pool(FreeList(), handedOut, givenBack)
    }

    ghost function AllList(): (l: seq<nat>)
      requires |allRing| > 0
      reads this
    {
      BufsOf(allRing)
    }

    lemma RingsApart()
      requires Valid()
      ensures forall x | x in freeRing :: x !in allRing
    {
      forall i, j | 0 <= i < |freeRing| && 0 <= j < |allRing|
        ensures freeRing[i] != allRing[j]
      {
        if i > 0 {
          assert freeLinks[freeRing[i].buf] == freeRing[i] && freeRing[i] in freeLinks;
        }
        if j > 0 {
          assert allLinks[allRing[j].buf] == allRing[j] && allRing[j] in allLinks;
        }
      }
    }

    /** What the list shows is what the specification of the pool asks for. */
    lemma FreeListOk()
      requires Valid()
      ensures FreeOk(num, FreeList()) && bufferNumFree == |FreeList()|
    {
      var l := FreeList();
      forall i, j | 0 <= i < j < |l|
        ensures l[i] != l[j]
      {
        assert freeRing[i + 1] != freeRing[j + 1];
      }
    }

    /** `free_buffer` */
    method FreeBuffer(b: nat)
      requires Valid() && b < num && b !in FreeList()
      modifies this`bufferNumFree, this`freeRing, this`givenBack, freeRing, freeLinks[b]
      ensures Valid() && View() == Apply(old(View()), Free(b)) && allRing == old(allRing)
    {
      LinkIsIn(freeRing, freeLinks, b);
      RingsApart();
      assert freeLinks[b] in freeLinks && allRing[0] == all;
      assert freeRing[Succ(|freeRing| - 1, |freeRing|)] == freePool;
      assert freeLinks[b] !in allRing by {
        assert forall j | 1 <= j < |allRing| :: allLinks[allRing[j].buf] == allRing[j];
      }
      AddTail(freeLinks[b], freePool, freeRing);
      RingStays(allRing);
      freeRing := freeRing + [freeLinks[b]];
      givenBack := givenBack + [b];
      bufferNumFree := bufferNumFree + 1;
    }

    /** `alloc_buffer`, with the first free buffer read under the lock. */
    method AllocBuffer() returns (r: Option<nat>)
      requires Valid()
      modifies this`bufferNumFree, this`freeRing, this`handedOut, freeRing
      ensures Valid() && View() == Apply(old(View()), Alloc) && allRing == old(allRing)
      ensures r == if old(FreeList()) == [] then None else Some(old(FreeList())[0])
    {
      if bufferNumFree == 0 {
        return None;
      }
      RingsApart();
      var first := freePool.next;
      assert first == freeRing[1];
      Neighbours(freeRing, 0);
      BufsCut(freeRing, 0);
      Del(first, freeRing, 1);
      RingStays(allRing);
      freeRing := Cut(freeRing, 1);
      handedOut := handedOut + [first.buf];
      bufferNumFree := bufferNumFree - 1;
      return Some(first.buf);
    }

    /** `add_to_all_link` */
    method AddToAllLink(b: nat)
      requires Valid() && b < num && b !in AllList()
      modifies this`allRing, allRing, allLinks[b]
      ensures Valid() && AllList() == old(AllList()) + [b] && freeRing == old(freeRing)
    {
      RingsApart();
      assert allLinks[b] in allLinks;
      LinkIsIn(allRing, allLinks, b);
      assert allLinks[b] !in freeRing by {
        assert forall j | 1 <= j < |freeRing| :: freeLinks[freeRing[j].buf] == freeRing[j];
      }
      assert allRing[Succ(|allRing| - 1, |allRing|)] == all;
      AddTail(allLinks[b], all, allRing);
      RingStays(freeRing);
      allRing := allRing + [allLinks[b]];
    }

    /** `delete_from_all_link` */
    method DeleteFromAllLink(b: nat, ghost k: nat)
      requires Valid() && k < |AllList()| && AllList()[k] == b
      modifies this`allRing, allRing
      ensures Valid() && AllList() == old(AllList())[..k] + old(AllList())[k + 1..] && freeRing == old(freeRing)
    {
      RingsApart();
      assert allRing[k + 1] == allLinks[b];
      Neighbours(allRing, k);
      BufsCut(allRing, k);
      Del(allLinks[b], allRing, k + 1);
      RingStays(freeRing);
      allRing := Cut(allRing, k + 1);
    }
  }

  /** `create_buffer_manager`: all buffers are free, in the order of their addresses. */
  method CreateBufferManager(num: nat) returns (m: Manager)
    ensures m.Valid() && m.num == num && fresh(m) && fresh(m.freePool)
    ensures forall b | 0 <= b < num :: fresh(m.freeLinks[b])
    ensures m.View() == Start(num) && m.AllList() == []
  {
    m := new Manager(num);
    for i := 0 to num
      invariant m.Valid() && m.num == num && fresh(m) && fresh(m.freeRing) && m.allRing == [m.all]
      invariant forall b | 0 <= b < num :: fresh(m.freeLinks[b])
      invariant m.FreeList() == seq<nat>(i, (j: nat) => j)
    {
      m.FreeBuffer(i);
    }
    m.handedOut, m.givenBack := [], [];
  }

  /** A manager from its creation on, under any sequence of calls; `got` is what the calls returned. */
  method RunManager(num: nat, ops: seq<Op>) returns (m: Manager, got: seq<nat>)
    requires AllLegal(num, Start(num), ops)
    ensures m.Valid() && m.num == num && m.View() == RunOps(Start(num), ops) && got == m.handedOut
  {
    m := CreateBufferManager(num);
    got := [];
    for i := 0 to |ops|
      invariant m.Valid() && m.num == num && fresh(m) && fresh(m.freePool)
      invariant forall b | 0 <= b < num :: fresh(m.freeLinks[b])
      invariant AllLegal(num, Start(num), ops[..i]) && m.View() == RunOps(Start(num), ops[..i]) && got == m.handedOut
    {
      assert ops[..i + 1][..i] == ops[..i];
      LegalUpTo(num, ops, i + 1);
      FreshRing(m);
      match ops[i] {
        case Alloc =>
          var r := m.AllocBuffer();
          if r.Some? {
            got := got + [r.value];
          }
        case Free(b) => m.FreeBuffer(b);
      }
    }
    assert ops[..|ops|] == ops;
  }

  lemma {:induction false} LegalUpTo(num: nat, ops: seq<Op>, n: nat)
    requires AllLegal(num, Start(num), ops) && n <= |ops|
    ensures AllLegal(num, Start(num), ops[..n])
    decreases |ops|
  {
    if n == |ops| {
      assert ops[..n] == ops;
    } else {
      assert ops[..|ops| - 1][..n] == ops[..n];
      LegalUpTo(num, ops[..|ops| - 1], n);
    }
  }

  /** Every node of the free ring is the pool's head or a buffer's link. */
  lemma FreshRing(m: Manager)
    requires m.Valid()
    ensures forall x | x in m.freeRing :: x == m.freePool || exists b :: 0 <= b < m.num && m.freeLinks[b] == x
  {
    forall x | x in m.freeRing
      ensures x == m.freePool || exists b :: 0 <= b < m.num && m.freeLinks[b] == x
    {
      var i: nat :| i < |m.freeRing| && m.freeRing[i] == x;
      assert i > 0 ==> m.freeLinks[m.freeRing[i].buf] == x;
    }
  }

  /**
   The buffers that the calls of a manager returned: each is either out exactly once more often than
   it was given back, or free.
   */
  method BuffersTakenOnce(num: nat, ops: seq<Op>) returns (got: seq<nat>)
    requires AllLegal(num, Start(num), ops)
    ensures got == RunOps(Start(num), ops).handedOut
    ensures forall b | 0 <= b < num ::
      Times(got, b) == Times(RunOps(Start(num), ops).givenBack, b) + if b in RunOps(Start(num), ops).free then 0 else 1
  {
    var m;
    m, got := RunManager(num, ops);
    forall b | 0 <= b < num
      ensures Times(got, b) ==
        Times(RunOps(Start(num), ops).givenBack, b) + if b in RunOps(Start(num), ops).free then 0 else 1
    {
      HandedOutOnce(num, ops, b);
    }
  }
}
