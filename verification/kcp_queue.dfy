/** The circular doubly linked queues of ikcp.h on the heap: what each link-rewriting macro
    does to the sequence of nodes that follows the queue's head. */
module KcpQueue {
  class Link {
    var next: Link?
    var prev: Link?

    /** IQUEUE_INIT: a head alone in its ring. */
    constructor ()
      ensures next == this && prev == this
    {
      next, prev := this, this;
    }
  }

  /** The head and the nodes behind it. */
  type Nodes = seq<Link>

  function After(r: Nodes, i: nat): Link
    requires i < |r|
  {
    if i + 1 < |r| then r[i + 1] else r[0]
  }

  function Before(r: Nodes, i: nat): Link
    requires i < |r|
  {
    if i > 0 then r[i - 1] else r[|r| - 1]
  }

  ghost predicate NoDuplicates(r: Nodes) {
    forall i, j :: 0 <= i < j < |r| ==> r[i] != r[j]
  }

  /** The nodes form a ring in this order, the head first. */
  ghost predicate Ring(r: Nodes)
    reads r`next, r`prev
  {
    && r != [] && NoDuplicates(r)
    && forall i :: 0 <= i < |r| ==> r[i].next == After(r, i) && r[i].prev == Before(r, i)
  }

  lemma OnlyAt(r: Nodes, k: nat)
    requires NoDuplicates(r) && k < |r|
    ensures forall i :: 0 <= i < |r| && i != k ==> r[i] != r[k]
  {
  }

  function Inserted(r: Nodes, k: nat, node: Link): Nodes
    requires k < |r|
  {
    r[..k + 1] + [node] + r[k + 1..]
  }

  function Removed(r: Nodes, k: nat): Nodes
    requires k < |r|
  {
    r[..k] + r[k + 1..]
  }

  lemma InsertedApart(r: Nodes, k: nat, node: Link)
    requires NoDuplicates(r) && k < |r| && node !in r
    ensures NoDuplicates(Inserted(r, k, node))
  {
    var q := Inserted(r, k, node);
    assert forall i :: 0 <= i < |q| && i != k + 1 ==> q[i] == r[if i <= k then i else i - 1];
  }

  lemma RemovedApart(r: Nodes, k: nat)
    requires NoDuplicates(r) && k < |r|
    ensures NoDuplicates(Removed(r, k)) && r[k] !in Removed(r, k)
  {
    var q := Removed(r, k);
    assert forall i :: 0 <= i < |q| ==> q[i] == r[if i < k then i else i + 1];
  }

  /** The position that follows k around the ring. */
  function Succ(r: Nodes, k: nat): nat
    requires k < |r|
  {
    if k + 1 < |r| then k + 1 else 0
  }

  lemma InsertedLinks(r: Nodes, k: nat, node: Link, i: nat)
    requires k < |r| && i <= |r|
    ensures var q, j := Inserted(r, k, node), if i <= k then i else i - 1;
            if i == k + 1 then q[i] == node && After(q, i) == After(r, k) && Before(q, i) == r[k]
            else
              && q[i] == r[j]
              && After(q, i) == (if j == k then node else After(r, j))
              && Before(q, i) == (if j == Succ(r, k) then node else Before(r, j))
  {
  }

  lemma RemovedLinks(r: Nodes, k: nat, i: nat)
    requires 0 < k < |r| && i < |r| - 1
    ensures var q, j := Removed(r, k), if i < k then i else i + 1;
            && q[i] == r[j]
            && After(q, i) == (if j == k - 1 then After(r, k) else After(r, j))
            && Before(q, i) == (if j == Succ(r, k) then r[k - 1] else Before(r, j))
  {
  }

  /** The links of node i. */
  lemma LinksAt(r: Nodes, i: nat)
    requires Ring(r) && i < |r|
    ensures r[i].next == After(r, i) == r[Succ(r, i)] && r[i].prev == Before(r, i)
    ensures forall j :: 0 <= j < |r| && j != i ==> r[j] != r[i]
  {
    OnlyAt(r, i);
  }

  /** IQUEUE_ADD: the node comes right after r[k]. */
  method Add(node: Link, at: Link, ghost r: Nodes, ghost k: nat)
    requires Ring(r) && k < |r| && r[k] == at && node !in r
    modifies node`next, node`prev, r`next, r`prev
    ensures Ring(Inserted(r, k, node))
  {
    InsertedApart(r, k, node);
    LinksAt(r, k);
    LinksAt(r, Succ(r, k));
    hide NoDuplicates, Inserted, After, Before;
    node.prev := at;
    node.next := at.next;
    at.next.prev := node;
    at.next := node;
    ghost var q := Inserted(r, k, node);
    assert |q| == |r| + 1 by {
      InsertedSize(r, k, node);
    }
    forall i | 0 <= i < |q| ensures q[i].next == After(q, i) && q[i].prev == Before(q, i) {
      InsertedLinks(r, k, node, i);
      ghost var j := if i <= k then i else i - 1;
      assert i != k + 1 ==> old(r[j].next) == After(r, j) && old(r[j].prev) == Before(r, j);
    }
  }

  lemma InsertedSize(r: Nodes, k: nat, node: Link)
    requires k < |r|
    ensures |Inserted(r, k, node)| == |r| + 1
  {
  }

  /** IQUEUE_ADD_TAIL: the node comes last. */
  method AddTail(node: Link, head: Link, ghost r: Nodes)
    requires Ring(r) && r[0] == head && node !in r
    modifies node`next, node`prev, r`next, r`prev
    ensures Ring(r + [node])
  {
    assert Inserted(r, |r| - 1, node) == r + [node];
    InsertedApart(r, |r| - 1, node);
    OnlyAt(r, 0);
    OnlyAt(r, |r| - 1);
    hide NoDuplicates;
    node.prev := head.prev;
    node.next := head;
    head.prev.next := node;
    head.prev := node;
    ghost var q := r + [node];
    forall i | 0 <= i < |q| ensures q[i].next == After(q, i) && q[i].prev == Before(q, i) {
      assert i < |r| ==> q[i] == r[i] && old(r[i].next) == After(r, i) && old(r[i].prev) == Before(r, i);
    }
  }

  /** IQUEUE_DEL: the entry leaves the ring, and its own links are cleared. */
  method Del(entry: Link, ghost r: Nodes, ghost k: nat)
    requires Ring(r) && 0 < k < |r| && r[k] == entry
    modifies r`next, r`prev
    ensures Ring(Removed(r, k)) && entry.next == null && entry.prev == null
  {
    RemovedApart(r, k);
    LinksAt(r, k);
    LinksAt(r, k - 1);
    LinksAt(r, Succ(r, k));
    assert Before(r, k) == r[k - 1];
    RemovedSize(r, k);
    hide NoDuplicates, Removed, After, Before;
    entry.next.prev := entry.prev;
    entry.prev.next := entry.next;
    entry.next := null;
    entry.prev := null;
    ghost var q := Removed(r, k);
    forall i | 0 <= i < |q| ensures q[i].next == After(q, i) && q[i].prev == Before(q, i) {
      RemovedLinks(r, k, i);
      ghost var j := if i < k then i else i + 1;
      assert old(r[j].next) == After(r, j) && old(r[j].prev) == Before(r, j);
    }
  }

  lemma RemovedSize(r: Nodes, k: nat)
    requires k < |r|
    ensures |Removed(r, k)| == |r| - 1
  {
  }

  /** IQUEUE_IS_EMPTY. */
  method IsEmpty(head: Link, ghost r: Nodes) returns (empty: bool)
    requires Ring(r) && r[0] == head
    ensures empty <==> r == [head]
  {
    assert |r| > 1 ==> r[0] != r[1];
    empty := head == head.next;
  }

  /** A walk from the head visits the nodes in order and stops at the head: node j of the
      ring after j steps. */
  method Walk(head: Link, steps: nat, ghost r: Nodes) returns (p: Link)
    requires Ring(r) && r[0] == head && steps < |r|
    ensures p == r[steps] && (p.next == head <==> steps == |r| - 1)
  {
    p := head;
    for j := 0 to steps
      invariant p == r[j]
    {
      assert r[j].next == After(r, j);
      p := p.next;
    }
    assert r[steps].next == After(r, steps);
    OnlyAt(r, 0);
  }

  /** Moving the first node of one queue to the tail of another, as flush does from snd_queue
      to snd_buf and a receive from rcv_buf to rcv_queue: no node is lost or shared. */
  method MoveFirst(from: Link, to: Link, ghost a: Nodes, ghost b: Nodes) returns (moved: bool)
    requires Ring(a) && Ring(b) && a[0] == from && b[0] == to && forall n :: n in a ==> n !in b
    modifies a`next, a`prev, b`next, b`prev
    ensures moved <==> |a| > 1
    ensures if moved then Ring(Removed(a, 1)) && Ring(b + [a[1]]) else Ring(a) && Ring(b)
  {
    hide Ring, NoDuplicates, Removed;
    var empty := IsEmpty(from, a);
    FirstOf(from, a);
    FirstOf(to, b);
    if empty {
      return false;
    }
    var node: Link := from.next;
    Del(node, a, 1);
    assert forall n :: n in b ==> n.next == old(n.next) && n.prev == old(n.prev);
    ghost var rest := Removed(a, 1);
    assert forall n :: n in rest ==> n !in b && n != node;
    label cut:
    AddTail(node, to, b);
    assert forall n :: n in rest ==> n.next == old@cut(n.next) && n.prev == old@cut(n.prev);
    moved := true;
  }

  /** The first node behind the head, and what is left without it. */
  lemma FirstOf(head: Link, r: Nodes)
    requires Ring(r) && r[0] == head
    ensures |r| <= 1 ==> r == [head]
    ensures |r| > 1 ==> head.next == r[1] && r[1] in r
    ensures |r| > 1 ==> forall n :: n in Removed(r, 1) ==> n in r && n != r[1]
  {
    assert r[0].next == After(r, 0);
    if |r| > 1 {
      RemovedApart(r, 1);
    }
  }
}
