/** The top-down splay tree of nty_tree.h on the heap: nodes with two child pointers, and a
    splay that takes the tree apart along the search and reassembles it. */
module NtySplay {
  class Node {
    const key: int
    var left: Node?
    var right: Node?

    constructor (key: int)
      ensures this.key == key && left == null && right == null
    {
      this.key := key;
      left, right := null, null;
    }
  }

  /** The macros' comparison of two elements. */
  function Cmp(a: int, b: int): int { if a < b then -1 else if a > b then 1 else 0 }

  datatype Tree = Leaf | Fork(l: Tree, p: Node, r: Tree)

  function InOrder(t: Tree): seq<Node> {
    if t.Leaf? then [] else InOrder(t.l) + [t.p] + InOrder(t.r)
  }

  ghost function Nodes(t: Tree): set<Node> {
    if t.Leaf? then {} else Nodes(t.l) + {t.p} + Nodes(t.r)
  }

  function Ptr(t: Tree): Node? { if t.Leaf? then null else t.p }

  /** The heap holds the tree. */
  ghost predicate Holds(t: Tree)
    reads Nodes(t)
  {
    t.Fork? ==>
      && t.p.left == Ptr(t.l) && t.p.right == Ptr(t.r)
      && t.p !in Nodes(t.l) && t.p !in Nodes(t.r) && Nodes(t.l) !! Nodes(t.r)
      && Holds(t.l) && Holds(t.r)
  }

  lemma ForkParts(t: Tree)
    requires Holds(t) && t.Fork?
    ensures Nodes(t) == Nodes(t.l) + {t.p} + Nodes(t.r) && Holds(t.l) && Holds(t.r)
    ensures t.p.left == Ptr(t.l) && t.p.right == Ptr(t.r)
    ensures t.p !in Nodes(t.l) && t.p !in Nodes(t.r) && Nodes(t.l) !! Nodes(t.r)
  {
  }

  lemma ForkHolds(a: Tree, p: Node, b: Tree)
    requires Holds(a) && Holds(b) && p.left == Ptr(a) && p.right == Ptr(b)
    requires p !in Nodes(a) && p !in Nodes(b) && Nodes(a) !! Nodes(b)
    ensures Holds(Fork(a, p, b)) && Nodes(Fork(a, p, b)) == Nodes(a) + {p} + Nodes(b)
  {
  }

  datatype Side = Left | Right

  ghost function Inner(n: Node, side: Side): Node?
    reads n
  {
    if side.Left? then n.right else n.left
  }

  ghost function Outer(n: Node, side: Side): Node?
    reads n
  {
    if side.Left? then n.left else n.right
  }

  /** The nodes already passed on one side, the last one first: each keeps its outer subtree,
      and its inner link leads to the next one. */
  datatype Spine = End | Link(p: Node, sub: Tree, up: Spine)

  ghost function SpineNodes(s: Spine): set<Node> {
    if s.End? then {} else {s.p} + Nodes(s.sub) + SpineNodes(s.up)
  }

  /** The in-order sequence of a side. */
  function SpineOrder(s: Spine, side: Side): seq<Node> {
    match s
    case End => []
    case Link(p, sub, up) =>
      if side.Left? then SpineOrder(up, side) + InOrder(sub) + [p]
      else [p] + InOrder(sub) + SpineOrder(up, side)
  }

  /** The links from `top` down to `child`. */
  ghost predicate HoldsSpine(s: Spine, side: Side, top: Node?, child: Node?)
    reads SpineNodes(s)
  {
    match s
    case End => top == child
    case Link(p, sub, up) =>
      && Outer(p, side) == Ptr(sub) && Inner(p, side) == child
      && p !in Nodes(sub) && p !in SpineNodes(up) && Nodes(sub) !! SpineNodes(up)
      && Holds(sub) && HoldsSpine(up, side, top, p)
  }

  /** The same with the last inner link left open. */
  ghost predicate HoldsOpen(s: Spine, side: Side, top: Node?)
    reads SpineNodes(s)
  {
    match s
    case End => true
    case Link(p, sub, up) =>
      && Outer(p, side) == Ptr(sub)
      && p !in Nodes(sub) && p !in SpineNodes(up) && Nodes(sub) !! SpineNodes(up)
      && Holds(sub) && HoldsSpine(up, side, top, p)
  }

  /** The node that holds the open link. */
  function Tip(s: Spine, dummy: Node): Node { if s.End? then dummy else s.p }

  function Close(s: Spine, side: Side, t: Tree): Tree
    decreases s
  {
    match s
    case End => t
    case Link(p, sub, up) =>
      Close(up, side, if side.Left? then Fork(sub, p, t) else Fork(t, p, sub))
  }

  lemma {:induction false} CloseOrder(s: Spine, side: Side, t: Tree)
    ensures InOrder(Close(s, side, t)) ==
            if side.Left? then SpineOrder(s, side) + InOrder(t) else InOrder(t) + SpineOrder(s, side)
    decreases s
  {
    if s.Link? {
      CloseOrder(s.up, side, if side.Left? then Fork(s.sub, s.p, t) else Fork(t, s.p, s.sub));
    }
  }

  lemma {:induction false} CloseNodes(s: Spine, side: Side, t: Tree)
    ensures Nodes(Close(s, side, t)) == SpineNodes(s) + Nodes(t)
    decreases s
  {
    if s.Link? {
      CloseNodes(s.up, side, if side.Left? then Fork(s.sub, s.p, t) else Fork(t, s.p, s.sub));
    }
  }

  lemma {:induction false} CloseHolds(s: Spine, side: Side, top: Node?, t: Tree)
    requires HoldsSpine(s, side, top, Ptr(t)) && Holds(t) && Nodes(t) !! SpineNodes(s)
    ensures Holds(Close(s, side, t)) && top == Ptr(Close(s, side, t))
    decreases s
  {
    if s.Link? {
      CloseHolds(s.up, side, top, if side.Left? then Fork(s.sub, s.p, t) else Fork(t, s.p, s.sub));
    }
  }

  // ---- order ----

  predicate Sorted(ns: seq<Node>) {
    forall i, j :: 0 <= i < j < |ns| ==> ns[i].key < ns[j].key
  }

  predicate AllBelow(ns: seq<Node>, key: int) {
    forall n :: n in ns ==> n.key < key
  }

  predicate AllAbove(key: int, ns: seq<Node>) {
    forall n :: n in ns ==> key < n.key
  }

  /** The root carries the key, or is one of the two neighbours of its place. */
  predicate Near(t: Tree, key: int) {
    && t.Fork?
    && (|| t.p.key == key
        || (key < t.p.key && AllBelow(InOrder(t.l), key))
        || (t.p.key < key && AllAbove(key, InOrder(t.r))))
  }

  lemma SortedParts(a: seq<Node>, n: Node, b: seq<Node>)
    requires Sorted(a + [n] + b)
    ensures Sorted(a) && Sorted(b) && AllBelow(a, n.key) && AllAbove(n.key, b)
  {
    var ns := a + [n] + b;
    assert forall i :: 0 <= i < |a| ==> ns[i] == a[i];
    assert ns[|a|] == n;
    assert forall i :: 0 <= i < |b| ==> ns[|a| + 1 + i] == b[i];
  }

  /** The in-order sequence of all three parts. */
  function Order(l: Spine, t: Tree, r: Spine): seq<Node> {
    SpineOrder(l, Left) + InOrder(t) + SpineOrder(r, Right)
  }

  lemma AssembledOrder(l: Spine, t: Tree, r: Spine)
    requires t.Fork?
    ensures InOrder(Assembled(l, t, r)) == Order(l, t, r)
  {
    CloseOrder(l, Left, t.l);
    CloseOrder(r, Right, t.r);
    Regroup(SpineOrder(l, Left), InOrder(t.l), t.p, InOrder(t.r), SpineOrder(r, Right));
  }

  /** The whole tree once both sides are closed around the root. */
  function Assembled(l: Spine, t: Tree, r: Spine): Tree
    requires t.Fork?
  {
    Fork(Close(l, Left, t.l), t.p, Close(r, Right, t.r))
  }

  function RotR(t: Tree): Tree
    requires t.Fork? && t.l.Fork?
  {
    Fork(t.l.l, t.l.p, Fork(t.l.r, t.p, t.r))
  }

  function RotL(t: Tree): Tree
    requires t.Fork? && t.r.Fork?
  {
    Fork(Fork(t.l, t.p, t.r.l), t.r.p, t.r.r)
  }

  lemma RotROrder(t: Tree)
    requires t.Fork? && t.l.Fork?
    ensures InOrder(RotR(t)) == InOrder(t)
  {
    var a, b, c := InOrder(t.l.l), InOrder(t.l.r), InOrder(t.r);
    assert (a + [t.l.p] + b) + [t.p] + c == a + [t.l.p] + (b + [t.p] + c);
  }

  lemma RotLOrder(t: Tree)
    requires t.Fork? && t.r.Fork?
    ensures InOrder(RotL(t)) == InOrder(t)
  {
    var a, b, c := InOrder(t.l), InOrder(t.r.l), InOrder(t.r.r);
    assert (a + [t.p] + b) + [t.r.p] + c == a + [t.p] + (b + [t.r.p] + c);
  }

  /** The three parts when the search for the key stops. At a turn to the same side twice the
      focus is rotated before its root joins the other side. */
  function Descend(l: Spine, t: Tree, r: Spine, key: int): (parts: (Spine, Tree, Spine))
    requires t.Fork?
    ensures parts.1.Fork?
    decreases t
  {
    if key < t.p.key then
      if t.l.Leaf? then (l, t, r)
      else if key < t.l.p.key then
        if t.l.l.Leaf? then (l, RotR(t), r) else Descend(l, t.l.l, Link(t.l.p, Fork(t.l.r, t.p, t.r), r), key)
      else Descend(l, t.l, Link(t.p, t.r, r), key)
    else if t.p.key < key then
      if t.r.Leaf? then (l, t, r)
      else if t.r.p.key < key then
        if t.r.r.Leaf? then (l, RotL(t), r) else Descend(Link(t.r.p, Fork(t.l, t.p, t.r.l), l), t.r.r, r, key)
      else Descend(Link(t.p, t.l, l), t.r, r, key)
    else (l, t, r)
  }

  lemma NoSplay(t: Tree, key: int)
    requires t.Leaf?
    ensures Splayed(t, key) == t
  {
  }

  /** One round of the search to the left. */
  lemma DescendLeft(l: Spine, t: Tree, r: Spine, key: int)
    requires t.Fork? && key < t.p.key
    ensures t.l.Leaf? ==> Descend(l, t, r, key) == (l, t, r)
    ensures t.l.Fork? ==>
              if key < t.l.p.key then
                if t.l.l.Leaf? then Descend(l, t, r, key) == Descend(l, RotR(t), r, key)
                else Descend(l, t, r, key) == Descend(l, t.l.l, Link(t.l.p, Fork(t.l.r, t.p, t.r), r), key)
              else Descend(l, t, r, key) == Descend(l, t.l, Link(t.p, t.r, r), key)
  {
  }

  lemma DescendRight(l: Spine, t: Tree, r: Spine, key: int)
    requires t.Fork? && t.p.key < key
    ensures t.r.Leaf? ==> Descend(l, t, r, key) == (l, t, r)
    ensures t.r.Fork? ==>
              if t.r.p.key < key then
                if t.r.r.Leaf? then Descend(l, t, r, key) == Descend(l, RotL(t), r, key)
                else Descend(l, t, r, key) == Descend(Link(t.r.p, Fork(t.l, t.p, t.r.l), l), t.r.r, r, key)
              else Descend(l, t, r, key) == Descend(Link(t.p, t.l, l), t.r, r, key)
  {
  }

  /** A search that is over stays there. */
  lemma DescendStops(l: Spine, t: Tree, r: Spine, key: int)
    requires t.Fork?
    requires t.p.key == key || (key < t.p.key && t.l.Leaf?) || (t.p.key < key && t.r.Leaf?)
    ensures Descend(l, t, r, key) == (l, t, r)
  {
  }

  /** The tree after a splay. */
  function Splayed(t: Tree, key: int): (u: Tree)
    ensures t.Fork? ==> u.Fork?
  {
    if t.Leaf? then t
    else
      var parts := Descend(End, t, End, key);
      Assembled(parts.0, parts.1, parts.2)
  }

  /** The tree without its root: the left subtree is splayed at the key of the root, and the right
      one hangs under its greatest node. */
  function Unrooted(t: Tree, key: int): Tree
    requires t.Fork?
  {
    if t.l.Leaf? then t.r
    else
      var s := Splayed(t.l, key);
      Fork(s.l, s.p, t.r)
  }

  /** What the search has settled: the left side is below the key, the right side above. */
  predicate Split(l: Spine, t: Tree, r: Spine, key: int) {
    Sorted(Order(l, t, r)) && AllBelow(SpineOrder(l, Left), key) && AllAbove(key, SpineOrder(r, Right))
  }

  lemma FocusSorted(l: Spine, t: Tree, r: Spine)
    requires Sorted(Order(l, t, r)) && t.Fork?
    ensures Sorted(InOrder(t.l)) && AllBelow(InOrder(t.l), t.p.key) && AllAbove(t.p.key, InOrder(t.r))
  {
    hide Sorted, AllBelow, AllAbove;
    var a, b := SpineOrder(l, Left) + InOrder(t.l), InOrder(t.r) + SpineOrder(r, Right);
    assert Order(l, t, r) == a + [t.p] + b;
    SortedParts(a, t.p, b);
    Pieces(SpineOrder(l, Left), InOrder(t.l), InOrder(t.r), SpineOrder(r, Right), t.p.key);
  }

  lemma Pieces(a: seq<Node>, b: seq<Node>, c: seq<Node>, d: seq<Node>, key: int)
    requires Sorted(a + b) && AllBelow(a + b, key) && AllAbove(key, c + d)
    ensures Sorted(b) && AllBelow(b, key) && AllAbove(key, c)
  {
    assert forall i :: 0 <= i < |b| ==> (a + b)[|a| + i] == b[i];
    assert forall n :: n in b ==> n in a + b;
    assert forall n :: n in c ==> n in c + d;
  }

  lemma JoinAbove(key: int, n: Node, c: seq<Node>, d: seq<Node>)
    requires key < n.key && AllAbove(n.key, c) && AllAbove(key, d)
    ensures AllAbove(key, [n] + c + d)
  {
  }

  lemma JoinBelow(key: int, a: seq<Node>, b: seq<Node>, n: Node)
    requires n.key < key && AllBelow(a, key) && AllBelow(b, n.key)
    ensures AllBelow(a + b + [n], key)
  {
  }

  lemma Regroup(a: seq<Node>, b: seq<Node>, n: Node, c: seq<Node>, d: seq<Node>)
    ensures a + (b + [n] + c) + d == a + b + ([n] + c + d)
    ensures a + (b + [n] + c) + d == (a + b + [n]) + c + d
    ensures a + (b + [n] + c) + d == (a + b) + [n] + (c + d)
  {
  }

  lemma LinkedLeft(l: Spine, t: Tree, r: Spine, key: int)
    requires Split(l, t, r, key) && t.Fork? && key < t.p.key
    ensures Split(l, t.l, Link(t.p, t.r, r), key)
    ensures Order(l, t.l, Link(t.p, t.r, r)) == Order(l, t, r)
  {
    hide Sorted, AllBelow, AllAbove;
    FocusSorted(l, t, r);
    var a, b, c, d := SpineOrder(l, Left), InOrder(t.l), InOrder(t.r), SpineOrder(r, Right);
    Regroup(a, b, t.p, c, d);
    JoinAbove(key, t.p, c, d);
  }

  lemma LinkedRight(l: Spine, t: Tree, r: Spine, key: int)
    requires Split(l, t, r, key) && t.Fork? && t.p.key < key
    ensures Split(Link(t.p, t.l, l), t.r, r, key)
    ensures Order(Link(t.p, t.l, l), t.r, r) == Order(l, t, r)
  {
    hide Sorted, AllBelow, AllAbove;
    FocusSorted(l, t, r);
    var a, b, c, d := SpineOrder(l, Left), InOrder(t.l), InOrder(t.r), SpineOrder(r, Right);
    Regroup(a, b, t.p, c, d);
    JoinBelow(key, a, b, t.p);
  }

  /** The search stops at the key or next to its place. */
  lemma StopsNear(l: Spine, t: Tree, r: Spine, key: int)
    requires Split(l, t, r, key) && t.Fork?
    requires t.p.key == key || (key < t.p.key && t.l.Leaf?) || (t.p.key < key && t.r.Leaf?)
    ensures Near(Assembled(l, t, r), key)
  {
    CloseOrder(l, Left, t.l);
    CloseOrder(r, Right, t.r);
  }

  function KeysOf(ns: seq<Node>): set<int> { set n | n in ns :: n.key }

  /** With the search over, the root answers whether the key is there. */
  lemma NearFinds(t: Tree, key: int)
    requires Near(t, key) && Sorted(InOrder(t))
    ensures key in KeysOf(InOrder(t)) <==> t.p.key == key
    ensures key < t.p.key ==> Sorted(InOrder(t.l)) && AllBelow(InOrder(t.l), key)
    ensures t.p.key < key ==> Sorted(InOrder(t.r)) && AllAbove(key, InOrder(t.r))
  {
    hide Sorted;
    SortedParts(InOrder(t.l), t.p, InOrder(t.r));
    assert t.p in InOrder(t);
  }

  lemma KeysMore(was: seq<Node>, n: Node, now: seq<Node>)
    requires forall m :: m in now <==> m == n || m in was
    ensures KeysOf(now) == KeysOf(was) + {n.key}
  {
  }

  /** A new element between the left side and the root. */
  lemma SortedBefore(a: seq<Node>, n: Node, p: Node, b: seq<Node>)
    requires Sorted(a + [p] + b) && AllBelow(a, n.key) && n.key < p.key
    ensures Sorted(a + [n] + ([] + [p] + b))
    ensures KeysOf(a + [n] + ([] + [p] + b)) == KeysOf(a + [p] + b) + {n.key}
  {
    SortedParts(a, p, b);
    KeysMore(a + [p] + b, n, a + [n] + ([] + [p] + b));
    hide KeysOf;
    SortedJoin([], p, b);
    AboveJoin(n.key, p, b);
    SortedJoin(a, n, [] + [p] + b);
  }

  lemma SortedAfter(a: seq<Node>, p: Node, n: Node, b: seq<Node>)
    requires Sorted(a + [p] + b) && AllAbove(n.key, b) && p.key < n.key
    ensures Sorted((a + [p] + []) + [n] + b)
    ensures KeysOf((a + [p] + []) + [n] + b) == KeysOf(a + [p] + b) + {n.key}
  {
    SortedParts(a, p, b);
    KeysMore(a + [p] + b, n, (a + [p] + []) + [n] + b);
    hide KeysOf;
    SortedJoin(a, p, []);
    BelowJoin(n.key, a, p);
    SortedJoin(a + [p] + [], n, b);
  }

  lemma AboveJoin(key: int, p: Node, b: seq<Node>)
    requires key < p.key && AllAbove(p.key, b)
    ensures AllAbove(key, [] + [p] + b)
  {
  }

  lemma BelowJoin(key: int, a: seq<Node>, p: Node)
    requires p.key < key && AllBelow(a, p.key)
    ensures AllBelow(a + [p] + [], key)
  {
  }

  lemma SortedJoin(a: seq<Node>, n: Node, b: seq<Node>)
    requires Sorted(a) && Sorted(b) && AllBelow(a, n.key) && AllAbove(n.key, b)
    ensures Sorted(a + [n] + b)
  {
    var ns := a + [n] + b;
    forall i, j | 0 <= i < j < |ns| ensures ns[i].key < ns[j].key {
      assert i < |a| ==> ns[i] in a;
      assert j > |a| ==> ns[j] in b;
    }
  }

  lemma SortedWithout(a: seq<Node>, p: Node, b: seq<Node>)
    requires Sorted(a + [p] + b)
    ensures Sorted(a + b) && KeysOf(a + b) == KeysOf(a + [p] + b) - {p.key}
  {
    var was, now := a + [p] + b, a + b;
    SortedParts(a, p, b);
    forall i, j | 0 <= i < j < |now| ensures now[i].key < now[j].key {
      assert now[i] == was[if i < |a| then i else i + 1] && now[j] == was[if j < |a| then j else j + 1];
    }
    forall m | m in was ensures m == p || m in now {
    }
    forall m | m in now ensures m in was && m.key != p.key {
    }
  }

  /** Everything is below the key: splaying leaves no right child. */
  lemma NoRight(t: Tree, key: int)
    requires Near(t, key) && Sorted(InOrder(t)) && AllBelow(InOrder(t), key)
    ensures t.r.Leaf?
  {
    assert t.p in InOrder(t);
    assert forall n :: n in InOrder(t.r) ==> n in InOrder(t);
    assert t.r.Fork? ==> t.r.p in InOrder(t.r);
  }

  class SplayTree {
    var root: Node?
    ghost var repr: set<Node>
    ghost var tree: Tree

    ghost predicate Valid()
      reads this, repr
    {
      Nodes(tree) == repr && root == Ptr(tree) && Holds(tree) && Sorted(InOrder(tree))
    }

    /** The three parts during a splay. */
    ghost predicate Parts(l: Spine, t: Tree, r: Spine, dummy: Node)
      reads this, repr, dummy
    {
      && SpineNodes(l) + Nodes(t) + SpineNodes(r) == repr && dummy !in repr
      && SpineNodes(l) !! Nodes(t) && SpineNodes(l) !! SpineNodes(r) && Nodes(t) !! SpineNodes(r)
      && root == Ptr(t) && Holds(t) && HoldsOpen(l, Left, dummy.right) && HoldsOpen(r, Right, dummy.left)
    }

    /** Rotating the root, in terms of its three subtrees alone. */
    method RotateRight(tmp: Node, ghost t: Tree)
      requires root == Ptr(t) && Holds(t) && t.Fork? && t.l.Fork? && tmp == t.l.p
      modifies `root, t.p`left, t.l.p`right
      ensures Holds(RotR(t)) && root == tmp
      ensures Nodes(RotR(t)) == Nodes(t)
    {
      ghost var a, b, c := t.l.l, t.l.r, t.r;
      assert Holds(t.l) && Holds(a) && Holds(b) && Holds(c);
      assert Nodes(t.l) == Nodes(a) + {tmp} + Nodes(b);
      root.left := tmp.right;
      tmp.right := root;
      root := tmp;
      assert Holds(a) && Holds(b) && Holds(c);
      assert Holds(Fork(b, t.p, c));
    }

    method RotateLeft(tmp: Node, ghost t: Tree)
      requires root == Ptr(t) && Holds(t) && t.Fork? && t.r.Fork? && tmp == t.r.p
      modifies `root, t.p`right, t.r.p`left
      ensures Holds(RotL(t)) && root == tmp
      ensures Nodes(RotL(t)) == Nodes(t)
    {
      ghost var a, b, c := t.l, t.r.l, t.r.r;
      assert Holds(t.r) && Holds(a) && Holds(b) && Holds(c);
      assert Nodes(t.r) == Nodes(b) + {tmp} + Nodes(c);
      root.right := tmp.left;
      tmp.left := root;
      root := tmp;
      assert Holds(a) && Holds(b) && Holds(c);
      assert Holds(Fork(a, t.p, b));
    }

    /** `SPLAY_LINKLEFT`: the root and its right subtree join the right side. */
    method LinkLeft(right: Node, ghost l: Spine, ghost t: Tree, ghost r: Spine, ghost dummy: Node)
      returns (right': Node)
      requires Parts(l, t, r, dummy) && t.Fork? && right == Tip(r, dummy)
      modifies `root, right`left
      ensures Parts(l, t.l, Link(t.p, t.r, r), dummy) && right' == t.p
    {
      hide Holds, HoldsSpine, Nodes;
      ForkParts(t);
      FillRight(right, root, l, t, r, dummy);
      right' := root;
      root := root.left;
    }

    method LinkRight(left: Node, ghost l: Spine, ghost t: Tree, ghost r: Spine, ghost dummy: Node)
      returns (left': Node)
      requires Parts(l, t, r, dummy) && t.Fork? && left == Tip(l, dummy)
      modifies `root, left`right
      ensures Parts(Link(t.p, t.l, l), t.r, r, dummy) && left' == t.p
    {
      hide Holds, HoldsSpine, Nodes;
      ForkParts(t);
      FillLeft(left, root, l, t, r, dummy);
      left' := root;
      root := root.right;
    }

    /** The open link of the left side leads to n. */
    method FillLeft(left: Node, n: Node?, ghost l: Spine, ghost t: Tree, ghost r: Spine, ghost dummy: Node)
      requires Parts(l, t, r, dummy) && left == Tip(l, dummy)
      modifies left`right
      ensures Parts(l, t, r, dummy) && HoldsSpine(l, Left, dummy.right, n)
    {
      hide Holds;
      left.right := n;
      assert HoldsSpine(l, Left, dummy.right, n);
    }

    method FillRight(right: Node, n: Node?, ghost l: Spine, ghost t: Tree, ghost r: Spine, ghost dummy: Node)
      requires Parts(l, t, r, dummy) && right == Tip(r, dummy)
      modifies right`left
      ensures Parts(l, t, r, dummy) && HoldsSpine(r, Right, dummy.left, n)
    {
      hide Holds;
      right.left := n;
      assert HoldsSpine(r, Right, dummy.left, n);
    }

    lemma Separate(l: Spine, t: Tree, r: Spine, dummy: Node)
      requires Parts(l, t, r, dummy) && t.Fork?
      ensures Tip(r, dummy) !in SpineNodes(l) && Tip(l, dummy) !in SpineNodes(r)
      ensures Tip(r, dummy) !in Nodes(t) && Tip(l, dummy) !in Nodes(t)
      ensures t.p != dummy && Nodes(t) == Nodes(t.l) + {t.p} + Nodes(t.r)
      ensures SpineNodes(l) !! Nodes(t.l) && SpineNodes(r) !! Nodes(t.r) && Holds(t.l) && Holds(t.r)
      ensures t.p.left == Ptr(t.l) && t.p.right == Ptr(t.r) && root == t.p
      ensures SpineNodes(l) + Nodes(t.l) <= repr && Nodes(t.r) + SpineNodes(r) <= repr
      ensures t.p !in SpineNodes(l) + Nodes(t.l) && t.p !in Nodes(t.r) + SpineNodes(r)
      ensures SpineNodes(l) + Nodes(t.l) !! Nodes(t.r) + SpineNodes(r)
      ensures SpineNodes(l) + Nodes(t.l) + {t.p} + (Nodes(t.r) + SpineNodes(r)) == repr
    {
    }

    /** Both sides, closed around the root's subtrees, hang off the dummy node. */
    method CloseSides(node: Node, left: Node, right: Node, ghost l: Spine, ghost t: Tree, ghost r: Spine)
      requires Parts(l, t, r, node) && t.Fork? && left == Tip(l, node) && right == Tip(r, node)
      modifies left`right, right`left
      ensures Holds(Close(l, Left, t.l)) && node.right == Ptr(Close(l, Left, t.l))
      ensures Holds(Close(r, Right, t.r)) && node.left == Ptr(Close(r, Right, t.r))
    {
      hide Holds, Close, SpineNodes, Nodes, HoldsSpine, HoldsOpen;
      Separate(l, t, r, node);
      FillLeft(left, root.left, l, t, r, node);
      Separate(l, t, r, node);
      FillRight(right, root.right, l, t, r, node);
      Separate(l, t, r, node);
      CloseHolds(l, Left, node.right, t.l);
      CloseHolds(r, Right, node.left, t.r);
    }

    /** `SPLAY_ASSEMBLE`. */
    method Assemble(node: Node, left: Node, right: Node, ghost l: Spine, ghost t: Tree, ghost r: Spine)
      requires Parts(l, t, r, node) && t.Fork? && left == Tip(l, node) && right == Tip(r, node)
      modifies left`right, right`left, t.p`left, t.p`right
      ensures root == t.p && Holds(Assembled(l, t, r)) && Nodes(Assembled(l, t, r)) == repr
    {
      hide Close, SpineNodes, Nodes, HoldsSpine, HoldsOpen, Parts;
      Separate(l, t, r, node);
      CloseSides(node, left, right, l, t, r);
      CloseNodes(l, Left, t.l);
      CloseNodes(r, Right, t.r);
      ghost var a, b := Close(l, Left, t.l), Close(r, Right, t.r);
      root.left := node.right;
      root.right := node.left;
      ForkHolds(a, t.p, b);
    }

    // ---- splaying ----

    lemma Members(t: Tree)
      requires t.Fork?
      ensures t.p in Nodes(t) && (t.l.Fork? ==> t.l.p in Nodes(t)) && (t.r.Fork? ==> t.r.p in Nodes(t))
    {
    }

    method SpinRight(tmp: Node, ghost l: Spine, ghost t: Tree, ghost r: Spine, ghost dummy: Node)
      requires Parts(l, t, r, dummy) && t.Fork? && t.l.Fork? && tmp == t.l.p
      modifies `root, t.p`left, t.l.p`right
      ensures Parts(l, RotR(t), r, dummy)
    {
      hide Holds, Nodes, HoldsOpen;
      Members(t);
      RotateRight(tmp, t);
    }

    method SpinLeft(tmp: Node, ghost l: Spine, ghost t: Tree, ghost r: Spine, ghost dummy: Node)
      requires Parts(l, t, r, dummy) && t.Fork? && t.r.Fork? && tmp == t.r.p
      modifies `root, t.p`right, t.r.p`left
      ensures Parts(l, RotL(t), r, dummy)
    {
      hide Holds, Nodes, HoldsOpen;
      Members(t);
      RotateLeft(tmp, t);
    }

    /** One round to the left: stops, or moves the root to the right side. */
    method StepLeft(key: int, right: Node, ghost l: Spine, ghost t: Tree, ghost r: Spine, ghost dummy: Node)
      returns (done: bool, right': Node, ghost t': Tree, ghost r': Spine)
      requires Parts(l, t, r, dummy) && Split(l, t, r, key) && t.Fork? && key < t.p.key && right == Tip(r, dummy)
      modifies `root, repr, dummy`left
      ensures Parts(l, t', r', dummy) && Split(l, t', r', key) && t'.Fork? && right' == Tip(r', dummy)
      ensures Order(l, t', r') == Order(l, t, r) && Descend(l, t', r', key) == Descend(l, t, r, key)
      ensures if done then key < t'.p.key && t'.l.Leaf? else |InOrder(t')| < |InOrder(t)|
    {
      hide Split, Order, Holds, HoldsOpen, HoldsSpine, Nodes, SpineNodes, Parts, Descend;
      DescendLeft(l, t, r, key);
      t', r', right' := t, r, right;
      FocusHeld(l, t, r, dummy);
      var tmp := root.left;
      if tmp == null {
        return true, right', t', r';
      }
      if Cmp(key, tmp.key) < 0 {
        RotROrder(t);
        SameOrder(l, t, RotR(t), r, key);
        SpinRight(tmp, l, t, r, dummy);
        t' := RotR(t);
        FocusHeld(l, t', r, dummy);
        if root.left == null {
          return true, right', t', r';
        }
      }
      LinkedLeft(l, t', r, key);
      right' := LinkLeft(right, l, t', r, dummy);
      t', r' := t'.l, Link(t'.p, t'.r, r);
      done := false;
    }

    method StepRight(key: int, left: Node, ghost l: Spine, ghost t: Tree, ghost r: Spine, ghost dummy: Node)
      returns (done: bool, left': Node, ghost t': Tree, ghost l': Spine)
      requires Parts(l, t, r, dummy) && Split(l, t, r, key) && t.Fork? && t.p.key < key && left == Tip(l, dummy)
      modifies `root, repr, dummy`right
      ensures Parts(l', t', r, dummy) && Split(l', t', r, key) && t'.Fork? && left' == Tip(l', dummy)
      ensures Order(l', t', r) == Order(l, t, r) && Descend(l', t', r, key) == Descend(l, t, r, key)
      ensures if done then t'.p.key < key && t'.r.Leaf? else |InOrder(t')| < |InOrder(t)|
    {
      hide Split, Order, Holds, HoldsOpen, HoldsSpine, Nodes, SpineNodes, Parts, Descend;
      DescendRight(l, t, r, key);
      t', l', left' := t, l, left;
      FocusHeld(l, t, r, dummy);
      var tmp := root.right;
      if tmp == null {
        return true, left', t', l';
      }
      if Cmp(key, tmp.key) > 0 {
        RotLOrder(t);
        SameOrder(l, t, RotL(t), r, key);
        SpinLeft(tmp, l, t, r, dummy);
        t' := RotL(t);
        FocusHeld(l, t', r, dummy);
        if root.right == null {
          return true, left', t', l';
        }
      }
      LinkedRight(l, t', r, key);
      left' := LinkRight(left, l, t', r, dummy);
      t', l' := t'.r, Link(t'.p, t'.l, l);
      done := false;
    }

    lemma FocusHeld(l: Spine, t: Tree, r: Spine, dummy: Node)
      requires Parts(l, t, r, dummy) && t.Fork?
      ensures root == t.p && t.p.left == Ptr(t.l) && t.p.right == Ptr(t.r)
      ensures t.p in repr && (t.l.Fork? ==> t.l.p in repr) && (t.r.Fork? ==> t.r.p in repr)
      ensures (r.Link? ==> r.p in repr) && (l.Link? ==> l.p in repr) && dummy !in repr
    {
    }

    lemma SameOrder(l: Spine, t: Tree, t': Tree, r: Spine, key: int)
      requires InOrder(t) == InOrder(t')
      ensures Order(l, t, r) == Order(l, t', r) && Split(l, t, r, key) == Split(l, t', r, key)
    {
    }

    /** `SPLAY`: the same nodes in the same order, with the key or a neighbour of its place
        at the root. */
    method Splay(key: int)
      requires Valid() && root != null
      modifies `root, `tree, repr
      ensures Valid() && repr == old(repr) && InOrder(tree) == old(InOrder(tree)) && Near(tree, key)
      ensures root != null && tree.Fork? && root == tree.p && root in repr
      ensures tree == Splayed(old(tree), key)
    {
      hide Split, Order, Holds, Nodes, InOrder, Sorted, SpineNodes, Near, Descend;
      var node := new Node(0);
      var left, right := node, node;
      ghost var l, t, r := End, tree, End;
      Start(node, key);
      FocusHeld(l, t, r, node);
      var done := false;
      while !done && Cmp(key, (root as Node).key) != 0
        invariant Parts(l, t, r, node) && Split(l, t, r, key) && t.Fork? && root == t.p
        invariant left == Tip(l, node) && right == Tip(r, node)
        invariant Order(l, t, r) == old(InOrder(tree)) && Descend(l, t, r, key) == Descend(End, old(tree), End, key)
        invariant done ==> (key < t.p.key && t.l.Leaf?) || (t.p.key < key && t.r.Leaf?)
        modifies `root, repr, node
        decreases !done, |InOrder(t)|
      {
        if Cmp(key, (root as Node).key) < 0 {
          done, right, t, r := StepLeft(key, right, l, t, r, node);
        } else {
          done, left, t, l := StepRight(key, left, l, t, r, node);
        }
        FocusHeld(l, t, r, node);
      }
      FocusHeld(l, t, r, node);
      DescendStops(l, t, r, key);
      StopsNear(l, t, r, key);
      AssembledOrder(l, t, r);
      Assemble(node, left, right, l, t, r);
      Becomes(Assembled(l, t, r));
    }

    lemma Start(node: Node, key: int)
      requires Valid() && root != null && node !in repr
      ensures tree.Fork? && Parts(End, tree, End, node) && Split(End, tree, End, key)
      ensures Order(End, tree, End) == InOrder(tree)
    {
      assert [] + InOrder(tree) + [] == InOrder(tree);
    }

    ghost method Becomes(t: Tree)
      requires root == Ptr(t) && Holds(t) && Nodes(t) == repr && Sorted(InOrder(t))
      modifies `tree
      ensures Valid() && tree == t
    {
      tree := t;
    }

    // ---- set operations ----

    /** Keys as a set. */
    ghost function Keys(): set<int>
      reads this`tree
    {
      KeysOf(InOrder(tree))
    }

    constructor ()
      ensures Valid() && Keys() == {} && repr == {}
    {
      root, tree, repr := null, Leaf, {};
    }

    /** `SPLAY_FIND`. */
    method Find(key: int) returns (r: Node?)
      requires Valid()
      modifies `root, `tree, repr
      ensures Valid() && repr == old(repr) && InOrder(tree) == old(InOrder(tree))
      ensures r != null <==> key in old(Keys())
      ensures r != null ==> r in repr && r.key == key && root == r
      ensures tree == Splayed(old(tree), key)
    {
      hide Holds;
      if root == null {
        return null;
      }
      Splay(key);
      NearFinds(tree, key);
      r := if Cmp(key, root.key) == 0 then root else null;
    }

    /** `SPLAY_INSERT`: null when the element was linked, else the element in its way. */
    method Insert(elm: Node) returns (r: Node?)
      requires Valid() && elm !in repr
      modifies `root, `tree, `repr, repr, elm
      ensures Valid() && Keys() == old(Keys()) + {elm.key}
      ensures r == null <==> elm.key !in old(Keys())
      ensures r == null ==> repr == old(repr) + {elm} && elm in InOrder(tree)
      ensures r != null ==> repr == old(repr) && InOrder(tree) == old(InOrder(tree)) && r in repr && r.key == elm.key
      ensures root == (if r == null then elm else r)
    {
      hide Holds, Sorted, Near, Nodes;
      if root == null {
        PutAlone(elm);
      } else {
        Splay(elm.key);
        NearFinds(tree, elm.key);
        var comp := Cmp(elm.key, root.key);
        if comp == 0 {
          return root;
        }
        if comp < 0 {
          PutBefore(elm);
        } else {
          PutAfter(elm);
        }
      }
      return null;
    }

    lemma ValidParts()
      requires Valid() && root != null
      ensures tree.Fork? && root == tree.p && root in repr
      ensures InOrder(tree) == InOrder(tree.l) + [tree.p] + InOrder(tree.r)
      ensures root.left == Ptr(tree.l) && root.right == Ptr(tree.r) && Holds(tree.l) && Holds(tree.r)
      ensures repr == Nodes(tree.l) + {root} + Nodes(tree.r) && root !in Nodes(tree.l) && root !in Nodes(tree.r)
      ensures Nodes(tree.l) !! Nodes(tree.r)
      ensures tree.l.Fork? ==> tree.l.p in Nodes(tree.l)
    {
    }

    /** The element takes the root's left subtree and the root becomes its right child. */
    method PutBefore(elm: Node)
      requires Valid() && root != null && elm !in repr && elm.key < root.key
      requires AllBelow(InOrder(tree.l), elm.key)
      modifies `root, `tree, `repr, root, elm
      ensures Valid() && repr == old(repr) + {elm} && elm in InOrder(tree) && Keys() == old(Keys()) + {elm.key}
      ensures root == elm
    {
      hide Holds, Sorted, Nodes, InOrder;
      ValidParts();
      ghost var t := tree;
      SortedBefore(InOrder(t.l), elm, t.p, InOrder(t.r));
      elm.left := root.left;
      elm.right := root;
      root.left := null;
      root := elm;
      repr := repr + {elm};
      LeafHolds();
      ForkHolds(Leaf, t.p, t.r);
      ForkHolds(t.l, elm, Fork(Leaf, t.p, t.r));
      Becomes(Fork(t.l, elm, Fork(Leaf, t.p, t.r)));
    }

    method PutAfter(elm: Node)
      requires Valid() && root != null && elm !in repr && root.key < elm.key
      requires AllAbove(elm.key, InOrder(tree.r))
      modifies `root, `tree, `repr, root, elm
      ensures Valid() && repr == old(repr) + {elm} && elm in InOrder(tree) && Keys() == old(Keys()) + {elm.key}
      ensures root == elm
    {
      hide Holds, Sorted, Nodes, InOrder;
      ValidParts();
      ghost var t := tree;
      SortedAfter(InOrder(t.l), t.p, elm, InOrder(t.r));
      elm.right := root.right;
      elm.left := root;
      root.right := null;
      root := elm;
      repr := repr + {elm};
      LeafHolds();
      ForkHolds(t.l, t.p, Leaf);
      ForkHolds(Fork(t.l, t.p, Leaf), elm, t.r);
      Becomes(Fork(Fork(t.l, t.p, Leaf), elm, t.r));
    }

    lemma LeafHolds()
      ensures Holds(Leaf) && Nodes(Leaf) == {} && InOrder(Leaf) == []
      ensures forall a, p, b :: InOrder(Fork(a, p, b)) == InOrder(a) + [p] + InOrder(b)
    {
    }

    method PutAlone(elm: Node)
      requires Valid() && root == null
      modifies `root, `tree, `repr, elm
      ensures Valid() && repr == old(repr) + {elm} && elm in InOrder(tree) && Keys() == old(Keys()) + {elm.key}
      ensures root == elm
    {
      elm.left, elm.right := null, null;
      root := elm;
      repr := {elm};
      ForkHolds(Leaf, elm, Leaf);
      Becomes(Fork(Leaf, elm, Leaf));
      assert InOrder(tree) == [elm];
    }

    /** `SPLAY_REMOVE`: the element asked for if its key was there, else null. */
    method Remove(elm: Node) returns (r: Node?)
      requires Valid()
      modifies `root, `tree, `repr, repr
      ensures Valid() && Keys() == old(Keys()) - {elm.key}
      ensures r == (if elm.key in old(Keys()) then elm else null)
      ensures r == null ==> repr == old(repr) && InOrder(tree) == old(InOrder(tree))
      ensures r != null ==> exists n :: n in old(repr) && n.key == elm.key && repr == old(repr) - {n}
      ensures tree == var t := Splayed(old(tree), elm.key); if r == null || t.Leaf? then t else Unrooted(t, elm.key)
    {
      hide Holds, Sorted, Nodes, InOrder, Near, Splayed;
      if root == null {
        LeafHolds();
        assert Splayed(tree, elm.key) == tree by { NoSplay(tree, elm.key); }
        return null;
      }
      Splay(elm.key);
      NearFinds(tree, elm.key);
      ValidParts();
      if Cmp(elm.key, root.key) != 0 {
        return null;
      }
      SortedWithout(InOrder(tree.l), tree.p, InOrder(tree.r));
      if root.left == null {
        DropRoot();
      } else {
        JoinChildren(elm.key);
      }
      return elm;
    }

    method DropRoot()
      requires Valid() && root != null && tree.l.Leaf?
      modifies `root, `tree, `repr
      ensures Valid() && repr == old(repr) - {old(root)} && Keys() == old(Keys()) - {old(root.key)}
      ensures old(tree).Fork? && tree == old(tree).r
    {
      hide Holds, Sorted, Nodes, InOrder;
      ValidParts();
      LeafHolds();
      SortedWithout(InOrder(tree.l), tree.p, InOrder(tree.r));
      assert [] + InOrder(tree.r) == InOrder(tree.r);
      root := root.right;
      repr := repr - {tree.p};
      Becomes(tree.r);
    }

    /** The left subtree is splayed again; its new root has no right child, so the right
        subtree can hang there. */
    method JoinChildren(key: int)
      requires Valid() && root != null && tree.l.Fork? && root.key == key
      modifies `root, `tree, `repr, repr
      ensures Valid() && repr == old(repr) - {old(root)} && Keys() == old(Keys()) - {key}
      ensures old(tree).Fork? && tree == Unrooted(old(tree), key)
    {
      hide Holds, Sorted, Nodes, InOrder, Near;
      ValidParts();
      ghost var t, was := tree, repr;
      SortedWithout(InOrder(t.l), t.p, InOrder(t.r));
      SortedParts(InOrder(t.l), t.p, InOrder(t.r));
      var tmp := root.right;
      root := root.left;
      repr := Nodes(t.l);
      Becomes(t.l);
      Splay(key);
      ValidParts();
      NoRight(tree, key);
      LeafHolds();
      OrderOfRoot(tree, t.r);
      root.right := tmp;
      repr := was - {t.p};
      ForkHolds(tree.l, tree.p, t.r);
      Becomes(Fork(tree.l, tree.p, t.r));
    }

    /** The order once the right subtree hangs under the root. */
    static lemma OrderOfRoot(t: Tree, r: Tree)
      requires t.Fork? && t.r.Leaf?
      ensures InOrder(Fork(t.l, t.p, r)) == InOrder(t) + InOrder(r)
    {
    }
  }
}
