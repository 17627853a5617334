/** The skip list of kvs_skiptable.c on the heap: every node has an array of forward pointers,
    one per level it takes part in. */
module KvsSkipList {
  const MAX_LEVEL := 6

  class Node {
    const key: int
    const value: int
    const forward: array<Node?>

    /** `createNode`. */
    constructor (level: nat, key: int, value: int)
      ensures this.key == key && this.value == value && forward.Length == level + 1 && fresh(forward)
    {
      this.key, this.value := key, value;
      forward := new Node?[level + 1](_ => null);
    }
  }

  /** The nodes of a list that take part in level i. */
  function Level(ns: seq<Node>, i: nat): seq<Node> {
    if ns == [] then [] else
      Level(ns[..|ns| - 1], i) + (if i < ns[|ns| - 1].forward.Length then [ns[|ns| - 1]] else [])
  }

  predicate Sorted(ns: seq<Node>) {
    forall i, j :: 0 <= i < j < |ns| ==> ns[i].key < ns[j].key
  }

  /** a is obtained from b by leaving out elements. */
  predicate Sublist(a: seq<Node>, b: seq<Node>)
    decreases |b|
  {
    if a == [] then true
    else b != [] && (if a[|a| - 1] == b[|b| - 1] then Sublist(a[..|a| - 1], b[..|b| - 1])
                     else Sublist(a, b[..|b| - 1]))
  }

  /** How many nodes at the front have smaller keys. */
  function Below(c: seq<Node>, key: int): (n: nat)
    ensures n <= |c|
    decreases |c|
  {
    if c == [] || c[0].key >= key then 0 else 1 + Below(c[1..], key)
  }

  /** Level i holds exactly the nodes with a pointer at level i. */
  lemma {:induction false} LevelHas(ns: seq<Node>, i: nat, n: Node)
    ensures n in Level(ns, i) <==> n in ns && i < n.forward.Length
    decreases |ns|
  {
    if ns != [] {
      var front, last := ns[..|ns| - 1], ns[|ns| - 1];
      LevelHas(front, i, n);
      assert ns == front + [last];
      assert n in ns <==> n in front || n == last;
    }
  }

  /** Every level is ascending, if the bottom one is. */
  lemma {:induction false} LevelSorted(ns: seq<Node>, i: nat)
    requires Sorted(ns)
    ensures Sorted(Level(ns, i))
    decreases |ns|
  {
    if ns != [] {
      var front, last := ns[..|ns| - 1], ns[|ns| - 1];
      LevelSorted(front, i);
      var c := Level(front, i);
      forall j | 0 <= j < |c| ensures c[j].key < last.key {
        LevelHas(front, i, c[j]);
      }
    }
  }

  /** Every level is a sublist of the one below. */
  lemma {:induction false} LevelSublist(ns: seq<Node>, i: nat)
    ensures Sublist(Level(ns, i + 1), Level(ns, i))
    decreases |ns|
  {
    if ns != [] {
      var front, last := ns[..|ns| - 1], ns[|ns| - 1];
      LevelSublist(front, i);
      var a, b := Level(front, i + 1), Level(front, i);
      assert a + [] == a && b + [] == b;
      SublistGrows(a, b, last);
      LevelHas(front, i + 1, if a != [] then a[|a| - 1] else last);
    }
  }

  lemma SublistGrows(a: seq<Node>, b: seq<Node>, n: Node)
    requires Sublist(a, b)
    ensures Sublist(a + [n], b + [n])
    ensures a == [] || a[|a| - 1] != n ==> Sublist(a, b + [n])
  {
    assert (a + [n])[..|a|] == a && (b + [n])[..|b|] == b;
  }

  lemma {:induction false} LevelConcat(a: seq<Node>, b: seq<Node>, i: nat)
    ensures Level(a + b, i) == Level(a, i) + Level(b, i)
    decreases |b|
  {
    if b == [] {
      assert a + b == a;
    } else {
      assert (a + b)[..|a + b| - 1] == a + b[..|b| - 1];
      LevelConcat(a, b[..|b| - 1], i);
    }
  }

  /** The first n nodes have smaller keys. */
  predicate AllLess(c: seq<Node>, n: nat, key: int)
    requires n <= |c|
  {
    forall x :: 0 <= x < n ==> c[x].key < key
  }

  lemma {:induction false} BelowIs(c: seq<Node>, n: nat, key: int)
    requires n <= |c| && (forall i :: 0 <= i < n ==> c[i].key < key) && (n < |c| ==> c[n].key >= key)
    ensures Below(c, key) == n
    decreases |c|
  {
    if n > 0 {
      BelowIs(c[1..], n - 1, key);
    }
  }

  lemma {:induction false} BelowSplits(c: seq<Node>, key: int)
    requires Sorted(c)
    ensures forall i :: 0 <= i < Below(c, key) ==> c[i].key < key
    ensures forall i :: Below(c, key) <= i < |c| ==> c[i].key >= key
    decreases |c|
  {
    if c != [] && c[0].key < key {
      BelowSplits(c[1..], key);
      assert forall i :: 0 < i < |c| ==> c[i] == c[1..][i - 1];
    }
  }

  /** The list with a node in its place. */
  function Put(c: seq<Node>, node: Node): seq<Node> {
    var b := Below(c, node.key);
    c[..b] + [node] + c[b..]
  }

  lemma LevelSplit(ns: seq<Node>, b: nat, i: nat)
    requires b <= |ns|
    ensures Level(ns, i) == Level(ns[..b], i) + Level(ns[b..], i)
  {
    assert ns == ns[..b] + ns[b..];
    LevelConcat(ns[..b], ns[b..], i);
  }

  /** Putting a node into the list puts it into exactly its levels. */
  lemma LevelPut(ns: seq<Node>, node: Node, i: nat)
    requires Sorted(ns)
    ensures Level(Put(ns, node), i) == if i < node.forward.Length then Put(Level(ns, i), node) else Level(ns, i)
  {
    var b := Below(ns, node.key);
    var front: seq<Node>, back: seq<Node> := Level(ns[..b], i), Level(ns[b..], i);
    LevelSplit(ns, b, i);
    LevelBelow(ns, node.key, i);
    LevelConcat(ns[..b] + [node], ns[b..], i);
    LevelConcat(ns[..b], [node], i);
    assert Level([node], i) == if i < node.forward.Length then [node] else [] by {
      assert [node][..0] == [];
    }
    assert (front + back)[..|front|] == front && (front + back)[|front|..] == back;
  }

  lemma LevelBelow(ns: seq<Node>, key: int, i: nat)
    requires Sorted(ns)
    ensures Below(Level(ns, i), key) == |Level(ns[..Below(ns, key)], i)|
  {
    var b := Below(ns, key);
    var front: seq<Node>, back: seq<Node> := Level(ns[..b], i), Level(ns[b..], i);
    BelowSplits(ns, key);
    LevelSplit(ns, b, i);
    forall j | 0 <= j < |front| ensures front[j].key < key {
      LevelHas(ns[..b], i, front[j]);
    }
    if back != [] {
      LevelHas(ns[b..], i, back[0]);
    }
    BelowIs(front + back, |front|, key);
  }

  lemma PutSorted(ns: seq<Node>, node: Node)
    requires Sorted(ns) && forall n :: n in ns ==> n.key != node.key
    ensures Sorted(Put(ns, node))
  {
    BelowSplits(ns, node.key);
  }

  // ---- the heap ----

  class SkipList {
    var level: nat
    const header: Node
    /** The bottom list. */
    ghost var nodes: seq<Node>
    /** The arrays of the header and the nodes. */
    ghost var arrays: set<array<Node?>>

    /** The j-th node of a level, counting the header as node 0. */
    function At(c: seq<Node>, j: nat): Node
      requires j <= |c|
    {
      if j == 0 then header else c[j - 1]
    }

    function Next(c: seq<Node>, j: nat): Node?
      requires j <= |c|
    {
      if j < |c| then c[j] else null
    }

    ghost function Arrays(): set<array<Node?>>
      reads this
    {
      {header.forward} + set n | n in nodes :: n.forward
    }

    /** The pointers of one level, kept in some of these arrays. */
    ghost predicate Linked(c: seq<Node>, i: nat, arrs: set<array<Node?>>)
      reads arrs
    {
      forall j :: 0 <= j <= |c| ==>
        && At(c, j).forward in arrs && i < At(c, j).forward.Length
        && At(c, j).forward[i] == Next(c, j)
    }

    /** No two nodes share an array. */
    ghost predicate Apart(ns: seq<Node>) {
      && (forall n :: n in ns ==> n.forward != header.forward && 1 <= n.forward.Length <= MAX_LEVEL + 1)
      && (forall n, m :: n in ns && m in ns && n != m ==> n.forward != m.forward)
    }

    ghost predicate Valid()
      reads this, arrays
    {
      && Arrays() == arrays && level <= MAX_LEVEL && header.forward.Length == MAX_LEVEL + 1 && header !in nodes
      && Sorted(nodes) && Apart(nodes)
      && (forall n :: n in nodes ==> n.forward.Length <= level + 1)
      && (forall i :: 0 <= i <= MAX_LEVEL ==> Linked(Level(nodes, i), i, arrays))
    }

    ghost function Keys(): set<int>
      reads this
    {
      set n | n in nodes :: n.key
    }

    /** `createSkipList`. */
    constructor ()
      ensures Valid() && nodes == []
    {
      level := 0;
      var h := new Node(MAX_LEVEL, -1, -1);
      header := h;
      nodes := [];
      arrays := {h.forward};
      new;
      for i := 0 to MAX_LEVEL + 1
        invariant forall j :: 0 <= j < i ==> header.forward[j] == null
        invariant header.forward.Length == MAX_LEVEL + 1 && level == 0 && nodes == [] && arrays == {header.forward}
        modifies header.forward
      {
        header.forward[i] := null;
      }
    }

    /** One level of the search: as far right as smaller keys go. */
    method Walk(current0: Node, key: int, i: nat, ghost j0: nat) returns (current: Node)
      requires Valid() && i <= MAX_LEVEL && Reached(current0, i, key, j0)
      ensures Passed(current, i, key)
    {
      ghost var c := Level(nodes, i);
      ghost var j := j0;
      assert Linked(Level(nodes, i), i, arrays);
      current := current0;
      while current.forward[i] != null && (current.forward[i] as Node).key < key
        invariant 0 <= j <= |c| && current == At(c, j) && i < current.forward.Length
        invariant AllLess(c, j, key)
        decreases |c| - j
      {
        assert At(c, j).forward[i] == Next(c, j);
        current := current.forward[i];
        j := j + 1;
        assert i < At(c, j).forward.Length;
      }
      assert At(c, j).forward[i] == Next(c, j);
      BelowIs(c, j, key);
    }

    /** The level below the last one walked, or the top level. */
    ghost predicate Reached(current: Node, i: nat, key: int, j: nat)
      reads this
    {
      && j <= |Level(nodes, i)| && current == At(Level(nodes, i), j)
      && AllLess(Level(nodes, i), j, key)
    }

    /** The last node of level i with a smaller key. */
    ghost predicate Passed(current: Node, i: nat, key: int)
      reads this
    {
      current == At(Level(nodes, i), Below(Level(nodes, i), key))
    }

    /** The node passed on one level, found on the level below. */
    lemma Descend(current: Node, i: nat, key: int) returns (j: nat)
      requires Sorted(nodes) && Passed(current, i + 1, key)
      ensures Reached(current, i, key, j)
    {
      hide Linked, Level;
      j := 0;
      var above, c, b := Level(nodes, i + 1), Level(nodes, i), Below(Level(nodes, i + 1), key);
      LevelSorted(nodes, i + 1);
      LevelSorted(nodes, i);
      BelowSplits(above, key);
      if b > 0 {
        var n := above[b - 1];
        LevelHas(nodes, i + 1, n);
        LevelHas(nodes, i, n);
        var x :| 0 <= x < |c| && c[x] == n;
        j := x + 1;
      }
    }

    /** The node that the bottom walk stops in front of. */
    lemma Candidate(current: Node, key: int)
      requires Valid() && Passed(current, 0, key)
      ensures Level(nodes, 0) == nodes && current.forward.Length > 0
      ensures current.forward[0] == Next(nodes, Below(nodes, key))
      ensures key in Keys() <==> Below(nodes, key) < |nodes| && nodes[Below(nodes, key)].key == key
    {
      BottomIsAll(nodes);
      assert Linked(Level(nodes, 0), 0, arrays);
      assert At(nodes, Below(nodes, key)).forward[0] == Next(nodes, Below(nodes, key));
      hide Linked, Level, Below, Sorted;
      KeyAt(nodes, key);
    }

    /** `search`. */
    method Search(key: int) returns (found: bool)
      requires Valid()
      ensures found <==> key in Keys()
    {
      hide Linked, Sorted, Below, Level;
      var current := header;
      ghost var j := 0;
      var i := level + 1;
      while i > 0
        invariant 0 <= i <= level + 1
        invariant i > 0 ==> Reached(current, i - 1, key, j)
        invariant i == 0 ==> Passed(current, 0, key)
      {
        i := i - 1;
        current := Walk(current, key, i, j);
        if i > 0 {
          j := Descend(current, i - 1, key);
        }
      }
      Candidate(current, key);
      var next := current.forward[0];
      found := next != null && next.key == key;
    }

    /** Linking a node into one level after the b-th node. */
    method Splice(u: Node, node: Node, i: nat, ghost c: seq<Node>, ghost arrs: set<array<Node?>>)
      requires Linked(c, i, arrs) && node.forward in arrs && u == At(c, Below(c, node.key)) && i < node.forward.Length
      requires node !in c && node != header && node.forward != header.forward
      requires forall n :: n in c ==> n.forward != header.forward && n.forward != node.forward
      requires forall n, m :: n in c && m in c && n != m ==> n.forward != m.forward
      requires forall x, y :: 0 <= x < y < |c| ==> c[x] != c[y]
      requires header !in c
      modifies u.forward, node.forward
      ensures Linked(Put(c, node), i, arrs)
      ensures forall l :: 0 <= l < u.forward.Length && l != i ==> u.forward[l] == old(u.forward[l])
      ensures forall l :: 0 <= l < node.forward.Length && l != i ==> node.forward[l] == old(node.forward[l])
    {
      ghost var b := Below(c, node.key);
      ghost var c' := Put(c, node);
      assert At(c, b).forward[i] == Next(c, b);
      node.forward[i] := u.forward[i];
      u.forward[i] := node;
      forall j | 0 <= j <= |c'|
        ensures At(c', j).forward in arrs && i < At(c', j).forward.Length && At(c', j).forward[i] == Next(c', j) {
        assert old(At(c, if j <= b then j else j - 1).forward[i]) == Next(c, if j <= b then j else j - 1);
      }
    }

    /** The levels below i already contain the new node. */
    ghost function Weave(node: Node, i: nat, l: nat): seq<Node>
      reads this`nodes
    {
      if l < i && l < node.forward.Length then Put(Level(nodes, l), node) else Level(nodes, l)
    }

    ghost predicate Woven(node: Node, i: nat)
      reads this, arrays, node.forward
    {
      forall l :: 0 <= l <= MAX_LEVEL ==> Linked(Weave(node, i, l), l, arrays + {node.forward})
    }

    method SpliceLevel(u: Node, node: Node, i: nat)
      requires Apart(nodes) && Sorted(nodes) && header !in nodes && i <= MAX_LEVEL
      requires node !in nodes && node != header && node.forward != header.forward
      requires forall n :: n in nodes ==> n.forward != node.forward
      requires Woven(node, i) && Passed(u, i, node.key) && i < node.forward.Length
      modifies u.forward, node.forward
      ensures Woven(node, i + 1)
    {
      ghost var c := Level(nodes, i);
      LevelSorted(nodes, i);
      LevelMembers(nodes, i);
      assert Linked(Weave(node, i, i), i, arrays + {node.forward});
      assert u == header || u in nodes;
      ghost var arrs := arrays + {node.forward};
      Splice(u, node, i, c, arrs);
      ghost var next := i + 1;
      forall l | 0 <= l <= MAX_LEVEL ensures Linked(Weave(node, next, l), l, arrs) {
        assert old(Linked(Weave(node, i, l), l, arrs));
      }
    }

    /** Above the current level every walk ends at the header. */
    lemma Untouched(i: nat, key: int)
      requires Valid() && level < i <= MAX_LEVEL
      ensures Passed(header, i, key)
    {
      if Level(nodes, i) != [] {
        LevelHas(nodes, i, Level(nodes, i)[0]);
      }
    }

    method Raise(height: nat)
      requires Valid() && level <= height <= MAX_LEVEL
      modifies `level
      ensures Valid() && level == height
    {
      hide Linked, Level;
      level := height;
    }

    lemma Unwoven(node: Node, i: nat)
      requires Valid() && i == 0
      ensures Woven(node, i)
    {
      hide Level, Put, Sorted, Apart;
      forall l | 0 <= l <= MAX_LEVEL ensures Linked(Weave(node, i, l), l, arrays + {node.forward}) {
        assert Linked(Level(nodes, l), l, arrays);
      }
    }

    lemma Owns(u: Node, i: nat, key: int)
      requires Arrays() == arrays && Passed(u, i, key)
      ensures u.forward in arrays
    {
      LevelMembers(nodes, i);
    }

    /** The new node joins the list once it is linked into all its levels. */
    ghost method Adopt(node: Node)
      requires Arrays() == arrays && level <= MAX_LEVEL && header.forward.Length == MAX_LEVEL + 1 && header !in nodes
      requires Sorted(nodes) && Apart(nodes) && forall n :: n in nodes ==> n.forward.Length <= level + 1
      requires node !in nodes && node != header && node.forward != header.forward
      requires forall n :: n in nodes ==> n.forward != node.forward && n.key != node.key
      requires 1 <= node.forward.Length <= level + 1 && Woven(node, node.forward.Length)
      modifies `nodes, `arrays
      ensures Valid() && nodes == Put(old(nodes), node) && arrays == old(arrays) + {node.forward}
      ensures Keys() == old(Keys()) + {node.key}
    {
      hide Linked, Level, Below, Sorted;
      ghost var was := nodes;
      PutSorted(nodes, node);
      PutHas(nodes, node);
      assert forall l :: 0 <= l <= MAX_LEVEL ==>
          Linked(Weave(node, node.forward.Length, l), l, arrays + {node.forward});
      forall l | 0 <= l <= MAX_LEVEL ensures Level(Put(was, node), l) == Weave(node, node.forward.Length, l) {
        LevelPut(was, node, l);
      }
      hide Put, Weave;
      nodes := Put(nodes, node);
      arrays := arrays + {node.forward};
    }

    /** A new node is linked in behind the last smaller node of each of its levels. */
    method Link(key: int, value: int, height: nat, update: seq<Node>)
      requires Valid() && key !in Keys() && height <= level && |update| == MAX_LEVEL + 1
      requires forall l :: 0 <= l <= height ==> Passed(update[l], l, key)
      modifies `nodes, `arrays, arrays
      ensures Valid() && fresh(arrays - old(arrays)) && Keys() == old(Keys()) + {key}
      ensures exists n: Node :: fresh(n) && n.key == key && n.value == value && n.forward.Length == height + 1
                                && nodes == Put(old(nodes), n)
    {
      hide Linked, Level, Below, Sorted, Weave, Put;
      var newNode := new Node(height, key, value);
      var i := 0;
      Unwoven(newNode, i);
      while i <= height
        invariant 0 <= i <= height + 1 && Woven(newNode, i)
        modifies arrays, newNode.forward
      {
        Owns(update[i], i, key);
        SpliceLevel(update[i], newNode, i);
        i := i + 1;
      }
      Adopt(newNode);
    }

    /** `insert`, for the height that the coin flips gave. */
    method Insert(key: int, value: int, height: nat) returns (added: bool)
      requires Valid() && height <= MAX_LEVEL
      modifies this, arrays
      ensures Valid() && fresh(arrays - old(arrays))
      ensures added <==> key !in old(Keys())
      ensures !added ==> nodes == old(nodes) && level == old(level)
      ensures added ==> Keys() == old(Keys()) + {key} && level == (if height > old(level) then height else old(level))
      ensures added ==> exists n: Node :: fresh(n) && n.key == key && n.value == value && n.forward.Length == height + 1
                                    && nodes == Put(old(nodes), n)
    {
      hide Linked, Level, Below, Sorted, Weave, Put;
      var update: seq<Node> := seq(MAX_LEVEL + 1, _ => header);
      var current := header;
      ghost var j := 0;
      var i := level + 1;
      while i > 0
        invariant 0 <= i <= level + 1 && |update| == MAX_LEVEL + 1
        invariant i > 0 ==> Reached(current, i - 1, key, j)
        invariant i == 0 ==> Passed(current, 0, key)
        invariant forall l :: i <= l <= level ==> Passed(update[l], l, key)
        modifies {}
      {
        i := i - 1;
        current := Walk(current, key, i, j);
        update := update[i := current];
        if i > 0 {
          j := Descend(current, i - 1, key);
        }
      }
      Candidate(current, key);
      var next := current.forward[0];
      if next != null && next.key == key {
        return false;
      }
      if height > level {
        i := level + 1;
        while i <= height
          invariant level + 1 <= i <= height + 1 && |update| == MAX_LEVEL + 1
          invariant forall l :: 0 <= l < i ==> Passed(update[l], l, key)
          modifies {}
        {
          Untouched(i, key);
          update := update[i := header];
          i := i + 1;
        }
        Raise(height);
      }
      Link(key, value, height, update);
      return true;
    }
  }

  /** A key is in an ascending list exactly if it follows the smaller ones. */
  lemma KeyAt(ns: seq<Node>, key: int)
    requires Sorted(ns)
    ensures key in (set n | n in ns :: n.key) <==> Below(ns, key) < |ns| && ns[Below(ns, key)].key == key
  {
    BelowSplits(ns, key);
    if key in (set n | n in ns :: n.key) {
      var x :| 0 <= x < |ns| && ns[x].key == key;
    }
  }

  lemma PutHas(ns: seq<Node>, node: Node)
    ensures forall n :: n in Put(ns, node) <==> n in ns || n == node
  {
    var b := Below(ns, node.key);
    assert ns == ns[..b] + ns[b..];
  }

  lemma BottomIsAll(ns: seq<Node>)
    requires forall n :: n in ns ==> 1 <= n.forward.Length
    ensures Level(ns, 0) == ns
  {
    if ns != [] {
      BottomIsAll(ns[..|ns| - 1]);
    }
  }

  lemma LevelMembers(ns: seq<Node>, i: nat)
    ensures forall n :: n in Level(ns, i) ==> n in ns && i < n.forward.Length
  {
    forall n | n in Level(ns, i) ensures n in ns && i < n.forward.Length {
      LevelHas(ns, i, n);
    }
  }
}
