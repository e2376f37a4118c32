/**
 Intrusive circular doubly linked lists, at the level of their pointers.  A list is a ring of
 nodes that starts with its head; the operations act on the ring as edits of a sequence.
 */
module List {
  import opened Common

  class Node {
    const buf: nat  // the buffer that contains the node, for list_entry
    var next: Node
    var prev: Node

    /** `INIT_LIST_HEAD` */
    constructor (buf: nat)
      ensures this.buf == buf && next == this && prev == this
    {
      this.buf := buf;
      next := this;
      prev := this;
    }
  }

  function Succ(i: nat, n: nat): (r: nat)
    requires i < n
    ensures r < n
  {
    if i + 1 == n then 0 else i + 1
  }

  /** The nodes of `ring`, each once, linked round in both directions. */
  ghost predicate Ring(ring: seq<Node>)
    reads ring
  {
    && |ring| > 0 && NoDup(ring)
    && forall i | 0 <= i < |ring| ::
         ring[i].next == ring[Succ(i, |ring|)] && ring[Succ(i, |ring|)].prev == ring[i]
  }

  /** `ring` with a node put behind position `k`. */
  function Inserted(ring: seq<Node>, k: nat, node: Node): (r: seq<Node>)
    requires k < |ring|
    ensures |r| == |ring| + 1 && r[k + 1] == node
    ensures forall i | 0 <= i <= k :: r[i] == ring[i]
    ensures forall i | k + 1 < i < |r| :: r[i] == ring[i - 1]
  {
    ring[..k + 1] + [node] + ring[k + 1..]
  }

  /** Writing to no node of a ring leaves it a ring. */
  twostate lemma RingStays(ring: seq<Node>)
    requires old(Ring(ring)) && unchanged(set x | x in ring)
    ensures Ring(ring)
  {
  }

  /** `__list_add`, between the neighbours at `k` and behind it. */
  method AddBetween(node: Node, prev: Node, next: Node, ghost ring: seq<Node>, ghost k: nat)
    requires Ring(ring) && node !in ring && k < |ring|
    requires prev == ring[k] && next == ring[Succ(k, |ring|)]
    modifies node`next, node`prev, prev`next, next`prev
    ensures Ring(Inserted(ring, k, node))
  {
    next.prev := node;
    node.next := next;
    node.prev := prev;
    prev.next := node;
    ghost var r := Inserted(ring, k, node);
    forall i | 0 <= i < |r|
      ensures r[i].next == r[Succ(i, |r|)] && r[Succ(i, |r|)].prev == r[i]
    {
      if i != k && i != k + 1 {
        ghost var j := if i < k then i else i - 1;
        assert r[i] == ring[j] && ring[j] != ring[k];
        assert r[Succ(i, |r|)] == ring[Succ(j, |ring|)];
        assert ring[Succ(j, |ring|)] != ring[Succ(k, |ring|)];
      }
    }
  }

  /** `list_add`: at the front. */
  method Add(node: Node, head: Node, ghost ring: seq<Node>)
    requires Ring(ring) && ring[0] == head && node !in ring
    modifies node`next, node`prev, head`next, head.next`prev
    ensures Ring([head, node] + ring[1..])
  {
    AddBetween(node, head, head.next, ring, 0);
    assert Inserted(ring, 0, node) == [head, node] + ring[1..];
  }

  /** `list_add_tail`: at the end. */
  method AddTail(node: Node, head: Node, ghost ring: seq<Node>)
    requires Ring(ring) && ring[0] == head && node !in ring
    modifies node`next, node`prev, head`prev, head.prev`next
    ensures Ring(ring + [node])
  {
    assert ring[Succ(|ring| - 1, |ring|)] == head;
    AddBetween(node, head.prev, head, ring, |ring| - 1);
    assert Inserted(ring, |ring| - 1, node) == ring + [node];
  }

  /** `list_del`: the node's own links stay as they were. */
  method Del(entry: Node, ghost ring: seq<Node>, ghost k: nat)
    requires Ring(ring) && 0 < k < |ring| && ring[k] == entry
    modifies entry.prev`next, entry.next`prev
    ensures Ring(Cut(ring, k))
  {
    CutNoDup(ring, k);
    assert ring[Succ(k - 1, |ring|)] == entry;
    var prev, next := entry.prev, entry.next;
    next.prev := prev;
    prev.next := next;
    ghost var r := Cut(ring, k);
    forall i | 0 <= i < |r|
      ensures r[i].next == r[Succ(i, |r|)] && r[Succ(i, |r|)].prev == r[i]
    {
      ghost var j := if i < k then i else i + 1;
      assert r[i] == ring[j];
      if i == k - 1 {
        assert r[Succ(i, |r|)] == ring[Succ(k, |ring|)];
      } else {
        assert r[Succ(i, |r|)] == ring[Succ(j, |ring|)];
        assert ring[j] != ring[k - 1] && ring[Succ(j, |ring|)] != ring[Succ(k, |ring|)];
      }
    }
  }

  /** `list_move_tail` within a list: the node goes to the end. */
  method MoveTail(entry: Node, head: Node, ghost ring: seq<Node>, ghost k: nat)
    requires Ring(ring) && 0 < k < |ring| && ring[k] == entry && ring[0] == head
    modifies ring
    ensures Ring(Cut(ring, k) + [entry])
  {
    CutNoDup(ring, k);
    assert ring[Succ(k - 1, |ring|)] == entry;
    Del(entry, ring, k);
    ghost var r := Cut(ring, k);
    assert r[0] == head && r[Succ(|r| - 1, |r|)] == head;
    AddTail(entry, head, r);
  }

  /** `list_move_tail` from one list to the end of another. */
  method MoveTailTo(entry: Node, head: Node, ghost ring: seq<Node>, ghost k: nat, ghost other: seq<Node>)
    requires Ring(ring) && 0 < k < |ring| && ring[k] == entry
    requires Ring(other) && other[0] == head && forall x | x in ring :: x !in other
    modifies ring, other
    ensures Ring(Cut(ring, k)) && Ring(other + [entry])
  {
    CutNoDup(ring, k);
    assert ring[Succ(k - 1, |ring|)] == entry && other[Succ(|other| - 1, |other|)] == head;
    label before:
    Del(entry, ring, k);
    RingStays@before(other);
    label moved:
    AddTail(entry, head, other);
    RingStays@moved(Cut(ring, k));
  }

  /** `list_empty` */
  method IsEmpty(head: Node, ghost ring: seq<Node>) returns (empty: bool)
    requires Ring(ring) && ring[0] == head
    ensures empty <==> ring == [head]
  {
    empty := head.next == head;
    if |ring| > 1 {
      assert ring[1] != ring[0];
    }
  }
}
