/** The chained hash table of kvs_hash.c on the heap: an array of singly linked chains and a
    count of the nodes in them. */
module KvsHash {
  import opened KvsString
  import opened KvsEngine

  class HashNode {
    const key: cstring
    var value: Value
    var next: HashNode?

    constructor (key: cstring, value: Value)
      ensures this.key == key && this.value == value && next == null
    {
      this.key, this.value, next := key, value, null;
    }
  }

  type Chain = seq<HashNode>

  /** The node of each live key. */
  type Live = map<cstring, HashNode>

  ghost predicate KeysApart(chain: Chain) {
    forall i, j :: 0 <= i < j < |chain| ==> chain[i].key != chain[j].key
  }

  /** A chain of live nodes whose keys have index i, each once. */
  ghost predicate Placed(live: Live, slots: int, i: int, chain: Chain)
    requires slots > 0
  {
    && (forall j :: 0 <= j < |chain| ==>
          chain[j].key in live && live[chain[j].key] == chain[j] && Index(chain[j].key, slots) == i)
    && KeysApart(chain)
  }

  /** Every live key names its node, which is in the chain of its index. */
  ghost predicate Reached(live: Live, slots: int, chains: seq<Chain>)
    requires slots > 0 && |chains| == slots
  {
    forall k :: k in live ==>
      live[k].key == k && 0 <= Index(k, slots) < slots && live[k] in chains[Index(k, slots)]
  }

  ghost predicate Shape(live: Live, slots: int, chains: seq<Chain>) {
    && slots > 0 && |chains| == slots && Reached(live, slots, chains)
    && (forall i :: 0 <= i < slots ==> Placed(live, slots, i, chains[i]))
  }

  lemma ShapeAdd(live: Live, slots: int, chains: seq<Chain>, node: HashNode)
    requires Shape(live, slots, chains) && node.key !in live && Index(node.key, slots) >= 0
    ensures Index(node.key, slots) < slots
    ensures var i := Index(node.key, slots);
            Shape(live[node.key := node], slots, chains[i := [node] + chains[i]])
  {
    var i := Index(node.key, slots);
    var live' := live[node.key := node];
    var chains' := chains[i := [node] + chains[i]];
    assert Placed(live, slots, i, chains[i]);
    forall j | 0 <= j < slots ensures Placed(live', slots, j, chains'[j]) {
      assert Placed(live, slots, j, chains[j]);
    }
    forall k | k in live'
      ensures live'[k].key == k && 0 <= Index(k, slots) < slots && live'[k] in chains'[Index(k, slots)]
    {
      if k == node.key {
        assert chains'[i][0] == node;
      } else if Index(k, slots) == i {
        assert live[k] in chains[i];
      }
    }
  }

  /** A chain without its node at position j. */
  function Without(chain: Chain, j: nat): Chain
    requires j < |chain|
  {
    chain[..j] + chain[j + 1..]
  }

  lemma ShapeRemove(live: Live, slots: int, chains: seq<Chain>, i: nat, j: nat)
    requires Shape(live, slots, chains) && i < slots && j < |chains[i]|
    ensures chains[i][j].key in live
    ensures Shape(live - {chains[i][j].key}, slots, chains[i := Without(chains[i], j)])
  {
    var node := chains[i][j];
    assert Placed(live, slots, i, chains[i]);
    var live' := live - {node.key};
    var chains' := chains[i := Without(chains[i], j)];
    forall l | 0 <= l < slots ensures Placed(live', slots, l, chains'[l]) {
      assert Placed(live, slots, l, chains[l]);
      WithoutIs(chains[i], j);
    }
    forall k | k in live'
      ensures live'[k].key == k && 0 <= Index(k, slots) < slots && live'[k] in chains'[Index(k, slots)]
    {
      if Index(k, slots) == i {
        WithoutHas(chains[i], j, live[k]);
      }
    }
  }

  lemma WithoutIs(chain: Chain, j: nat)
    requires j < |chain|
    ensures forall l :: 0 <= l < |chain| - 1 ==> Without(chain, j)[l] == chain[if l < j then l else l + 1]
  {
  }

  lemma WithoutHas(chain: Chain, j: nat, node: HashNode)
    requires j < |chain| && node in chain && node != chain[j]
    ensures node in Without(chain, j)
  {
    var l :| 0 <= l < |chain| && chain[l] == node;
    assert Without(chain, j)[if l < j then l else l - 1] == node;
  }

  // ---- links ----

  /** Following `next` from head visits the chain and arrives at tail. */
  ghost predicate Linked(head: HashNode?, chain: Chain, tail: HashNode?)
    reads chain`next
  {
    if chain == [] then head == tail
    else head == chain[0] && Linked(chain[0].next, chain[1..], tail)
  }

  lemma {:induction false} LinkedSplit(head: HashNode?, a: Chain, m: HashNode, b: Chain, tail: HashNode?)
    ensures Linked(head, a + [m] + b, tail) <==> Linked(head, a, m) && Linked(m.next, b, tail)
    decreases |a|
  {
    if a == [] {
      assert a + [m] + b == [m] + b;
      assert ([m] + b)[1..] == b;
    } else {
      assert (a + [m] + b)[1..] == a[1..] + [m] + b;
      LinkedSplit(a[0].next, a[1..], m, b, tail);
    }
  }

  lemma LinkedStep(node: HashNode, chain: Chain, j: nat)
    requires j <= |chain| && Linked(node, chain[j..], null)
    ensures j < |chain| && node == chain[j] && Linked(node.next, chain[j + 1..], null)
  {
    assert j < |chain| ==> chain[j..][1..] == chain[j + 1..];
  }

  lemma LinkedEnd(chain: Chain)
    requires Linked(null, chain, null)
    ensures chain == []
  {
  }

  lemma Longer(node: HashNode, chain: Chain)
    requires Linked(node.next, chain, null)
    ensures Linked(node, [node] + chain, null)
  {
    assert ([node] + chain)[1..] == chain;
  }

  ghost function Values(live: Live): Contents
    reads live.Values`value
  {
    map k | k in live :: live[k].value
  }

  lemma ValuesWithout(live: Live, key: cstring)
    ensures Values(live - {key}) == Values(live) - {key} && (live - {key}).Values <= live.Values
  {
  }

  class HashTable {
    const nodes: array<HashNode?>
    const maxSlots: int
    var count: int
    ghost var chains: seq<Chain>
    ghost var live: Live

    ghost predicate Valid()
      reads this, nodes, live.Values`next
    {
      && Shape(live, maxSlots, chains) && nodes.Length == maxSlots && count == |live|
      && (forall i :: 0 <= i < maxSlots ==> AllLive(chains[i]) && Linked(nodes[i], chains[i], null))
    }

    ghost predicate AllLive(chain: Chain)
      reads this`live
    {
      forall j :: 0 <= j < |chain| ==> chain[j] in live.Values
    }

    lemma HasSlots()
      requires Valid()
      ensures maxSlots > 0
    {
    }

    lemma PlacedLive(i: nat)
      requires Shape(live, maxSlots, chains) && i < maxSlots
      ensures AllLive(chains[i])
    {
      assert Placed(live, maxSlots, i, chains[i]);
    }

    ghost function Contents(): Contents
      reads this`live, live.Values`value
    {
      Values(live)
    }

    /** `kvs_hash_create`, with buckets that start empty. */
    constructor (slots: int)
      requires slots > 0
      ensures Valid() && live == map[] && Contents() == map[] && maxSlots == slots && fresh(nodes)
    {
      nodes := new HashNode?[slots](_ => null);
      maxSlots := slots;
      count := 0;
      chains := seq(slots, _ => []);
      live := map[];
    }

    lemma SameKeys()
      ensures Contents().Keys == live.Keys
    {
    }

    lemma CountIs()
      requires Valid()
      ensures count == |Contents()|
    {
      assert Contents().Keys == live.Keys;
      assert |Contents()| == |Contents().Keys| && |live| == |live.Keys|;
    }

    /** `_hash`. */
    method Hash(key: cstring) returns (index: int)
      requires maxSlots > 0
      ensures index == Index(key, maxSlots) && -maxSlots < index < maxSlots
    {
      var sum, i := 0, 0;
      while i < |key|
        invariant 0 <= i <= |key| && sum == Sum(key[..i])
      {
        assert key[..i + 1][..i] == key[..i];
        sum := sum + key[i];
        i := i + 1;
      }
      assert key[..i] == key;
      index := CRemainder(sum, maxSlots);
    }

    /** The walk along a bucket's chain. */
    method Find(key: cstring, index: nat) returns (node: HashNode?)
      requires Valid() && index == Index(key, maxSlots) && index < maxSlots
      ensures node != null <==> key in live
      ensures node != null ==> node == live[key]
    {
      hide Shape, AllLive, Linked, Placed, Index;
      Sizes();
      ghost var chain := chains[index];
      HolderOf(key, index);
      ghost var j := 0;
      node := nodes[index];
      assert chain[0..] == chain;
      while node != null
        invariant 0 <= j <= |chain| && Linked(node, chain[j..], null)
        invariant forall l :: 0 <= l < j ==> chain[l].key != key
        decreases |chain| - j
      {
        LinkedStep(node, chain, j);
        StrCmpZero(node.key, key);
        if StrCmp(node.key, key) == 0 {
          return;
        }
        node := node.next;
        j := j + 1;
      }
      LinkedEnd(chain[j..]);
    }

    /** Only the node of a key in its chain carries the key. */
    lemma HolderOf(key: cstring, index: nat)
      requires Shape(live, maxSlots, chains) && index == Index(key, maxSlots) && index < maxSlots
      ensures key in live ==> live[key] in chains[index] && live[key].key == key
      ensures forall l :: 0 <= l < |chains[index]| && chains[index][l].key == key
                ==> key in live && live[key] == chains[index][l]
    {
      assert Placed(live, maxSlots, index, chains[index]);
    }

    /** `kvs_hash_get`. */
    method Get(key: cstring) returns (r: Lookup)
      requires Valid()
      ensures r == Looked(Contents(), key)
    {
      var index := Hash(key);
      if index < 0 {
        return Null;
      }
      var node := Find(key, index);
      r := if node == null then Null else Text(node.value);
    }

    /** `kvs_hash_exist`. */
    method Exist(key: cstring) returns (ret: int)
      requires Valid()
      ensures ret == FoundCode(Contents(), key)
    {
      var value := Get(key);
      ret := if value.Null? then 1 else 0;
    }

    method Revalue(node: HashNode, value: Value)
      requires Valid() && node.key in live && node == live[node.key]
      modifies node`value
      ensures Valid() && Contents() == old(Contents())[node.key := value]
    {
      hide Shape, Linked, AllLive;
      OneEach(node);
      node.value := value;
    }

    lemma OneEach(node: HashNode)
      requires Shape(live, maxSlots, chains)
      ensures forall k :: k in live && k != node.key ==> live[k] != node
    {
    }

    // ---- one chain changes ----

    /** A new node becomes the head of its chain. */
    method Prepend(node: HashNode, index: nat)
      requires Valid() && index < maxSlots && index == Index(node.key, maxSlots) && node.key !in live
      modifies this`count, this`live, this`chains, nodes, node`next
      ensures Valid() && live == old(live)[node.key := node]
    {
      hide Shape, AllLive, Linked;
      Sizes();
      LinkBefore(node, index);
      ghost var chains' := chains[index := [node] + chains[index]];
      ShapeAdd(live, maxSlots, chains, node);
      nodes[index] := node;
      count := count + 1;
      assert forall i :: 0 <= i < maxSlots ==> Linked(nodes[i], chains'[i], null);
      Adopt(live[node.key := node], chains');
    }

    lemma Sizes()
      requires Shape(live, maxSlots, chains)
      ensures |chains| == maxSlots > 0
    {
    }

    method LinkBefore(node: HashNode, index: nat)
      requires Valid() && index < maxSlots && node.key !in live
      modifies node`next
      ensures Valid() && Linked(node, [node] + chains[index], null)
    {
      hide Shape, Linked;
      Sizes();
      forall i | 0 <= i < maxSlots ensures node !in chains[i] {
        NotIn(node, i);
      }
      node.next := nodes[index];
      Longer(node, chains[index]);
    }

    lemma NotIn(node: HashNode, i: nat)
      requires Shape(live, maxSlots, chains) && i < maxSlots && node.key !in live
      ensures node !in chains[i]
    {
      assert Placed(live, maxSlots, i, chains[i]);
    }

    ghost method Adopt(live': Live, chains': seq<Chain>)
      requires Shape(live', maxSlots, chains') && nodes.Length == maxSlots && count == |live'|
      requires forall i :: 0 <= i < maxSlots ==> Linked(nodes[i], chains'[i], null)
      modifies this`live, this`chains
      ensures Valid() && live == live' && chains == chains'
    {
      live, chains := live', chains';
      forall i | 0 <= i < maxSlots ensures AllLive(chains[i]) {
        PlacedLive(i);
      }
    }

    // ---- the remaining operations ----

    lemma AddedKey(was: Live, was': Contents, node: HashNode)
      requires live == was[node.key := node] && was'.Keys == was.Keys && node.key !in was
      requires forall k :: k in was ==> was'[k] == was[k].value
      ensures Contents() == was'[node.key := node.value]
    {
    }

    /** `kvs_hash_set`. */
    method Set(key: cstring, value: Value) returns (ret: int)
      requires Valid()
      modifies this`count, this`live, this`chains, nodes, live.Values
      ensures Valid() && fresh(live.Values - old(live.Values))
      ensures ret == HashSetCode(old(Contents()), maxSlots, key, value)
      ensures Contents() == if ret < 0 then old(Contents()) else old(Contents())[key := value]
    {
      hide Shape, Linked, AllLive, Values, Contents;
      CountIs();
      Sizes();
      SameKeys();
      if count >= maxSlots {
        return -2;
      }
      var index := Hash(key);
      if index < 0 {
        return -1;
      }
      var node := Find(key, index);
      if node != null {
        FoundNode(key);
        ret := SetFound(node, value);
      } else {
        Add(key, value, index);
        ret := 0;
      }
    }

    method SetFound(node: HashNode, value: Value) returns (ret: int)
      requires Valid() && node.key in live && node == live[node.key]
      modifies node`value
      ensures Valid() && ret == SetCode(old(Contents()), node.key, value)
      ensures Contents() == old(Contents())[node.key := value]
    {
      hide Shape, Linked;
      StrCmpZero(node.value, value);
      if StrCmp(node.value, value) == 0 {
        assert Contents() == Contents()[node.key := value];
        return 1;
      }
      Revalue(node, value);
      return 0;
    }

    method Add(key: cstring, value: Value, index: nat)
      requires Valid() && index < maxSlots && index == Index(key, maxSlots) && key !in live
      modifies this`count, this`live, this`chains, nodes
      ensures Valid() && fresh(live.Values - old(live.Values))
      ensures Contents() == old(Contents())[key := value]
    {
      hide Shape, Linked;
      ghost var was, was' := live, Contents();
      var newNode := new HashNode(key, value);
      Prepend(newNode, index);
      AddedKey(was, was', newNode);
    }

    lemma FoundNode(key: cstring)
      requires Shape(live, maxSlots, chains) && key in live
      ensures live[key].key == key
    {
    }

    /** `kvs_hash_mod`. */
    method Mod(key: cstring, value: Value) returns (ret: int)
      requires Valid()
      modifies live.Values
      ensures Valid() && live == old(live)
      ensures ret == HashModCode(old(Contents()), maxSlots, key)
      ensures Contents() == Modified(old(Contents()), key, value)
    {
      hide Shape, Linked;
      Sizes();
      var index := Hash(key);
      if index < 0 {
        NotHeld(key);
        return -1;
      }
      var node := Find(key, index);
      if node == null {
        return 1;
      }
      FoundNode(key);
      Revalue(node, value);
      return 0;
    }

    /** A key with a negative index is never stored. */
    lemma NotHeld(key: cstring)
      requires Shape(live, maxSlots, chains) && Index(key, maxSlots) < 0
      ensures key !in live
    {
    }

    /** Position j of chain i is no longer linked. */
    ghost method Drop(i: nat, j: nat)
      requires Shape(live, maxSlots, chains) && nodes.Length == maxSlots && i < maxSlots && j < |chains[i]|
      requires count == |live| - 1
      requires forall l :: 0 <= l < maxSlots && l != i ==> Linked(nodes[l], chains[l], null)
      requires Linked(nodes[i], Without(chains[i], j), null)
      modifies this`live, this`chains
      ensures Valid() && old(chains[i][j].key) in old(live)
      ensures live == old(live) - {old(chains[i][j].key)} && live.Values <= old(live.Values)
      ensures Contents() == old(Contents()) - {old(chains[i][j].key)}
    {
      hide Shape, Linked, AllLive, Values, Index, Without;
      Sizes();
      var key := chains[i][j].key;
      var live', chains' := live - {key}, chains[i := Without(chains[i], j)];
      ShapeRemove(live, maxSlots, chains, i, j);
      ValuesWithout(live, key);
      Fewer(live, key);
      Adopt(live', chains');
    }

    lemma Fewer(m: Live, key: cstring)
      requires key in m
      ensures |m - {key}| == |m| - 1
    {
      assert (m - {key}).Keys == m.Keys - {key};
      assert |m| == |m.Keys| && |m - {key}| == |(m - {key}).Keys|;
    }

    method UnlinkHead(index: nat)
      requires Valid() && index < maxSlots && |chains[index]| > 0
      modifies nodes, this`count, this`live, this`chains
      ensures Valid() && old(chains[index][0].key) in old(live)
      ensures live == old(live) - {old(chains[index][0].key)} && live.Values <= old(live.Values)
      ensures Contents() == old(Contents()) - {old(chains[index][0].key)}
    {
      hide Shape, AllLive;
      Sizes();
      var head: HashNode := nodes[index];
      nodes[index] := head.next;
      count := count - 1;
      assert Without(chains[index], 0) == chains[index][1..];
      Drop(index, 0);
    }

    method UnlinkAfter(cur: HashNode, index: nat, ghost j: nat)
      requires Valid() && index < maxSlots && 0 < j < |chains[index]| && cur == chains[index][j - 1]
      modifies cur`next, this`count, this`live, this`chains
      ensures Valid() && old(chains[index][j].key) in old(live)
      ensures live == old(live) - {old(chains[index][j].key)} && live.Values <= old(live.Values)
      ensures Contents() == old(Contents()) - {old(chains[index][j].key)}
    {
      hide Shape, AllLive, Linked;
      Sizes();
      ghost var chain := chains[index];
      ghost var a, b := chain[..j - 1], chain[j + 1..];
      NodeAt(index, j);
      Apart(index, j - 1);
      var tmp: HashNode := cur.next;
      cur.next := tmp.next;
      count := count - 1;
      LinkedSplit(nodes[index], a, cur, b, null);
      assert Without(chain, j) == a + [cur] + b;
      Drop(index, j);
    }

    /** The links around position j > 0. */
    lemma NodeAt(i: nat, j: nat)
      requires Valid() && i < maxSlots && 0 < j < |chains[i]|
      ensures var c := chains[i];
              && Linked(nodes[i], c[..j - 1], c[j - 1]) && c[j - 1].next == c[j]
              && Linked(c[j].next, c[j + 1..], null)
    {
      hide Shape, AllLive;
      Sizes();
      var c := chains[i];
      assert c == c[..j - 1] + [c[j - 1]] + c[j..];
      LinkedSplit(nodes[i], c[..j - 1], c[j - 1], c[j..], null);
      assert c[j..][1..] == c[j + 1..];
    }

    /** A node is in one place of one chain. */
    lemma Apart(i: nat, j: nat)
      requires Valid() && i < maxSlots && j < |chains[i]|
      ensures forall l :: 0 <= l < maxSlots && l != i ==> chains[i][j] !in chains[l]
      ensures chains[i][j] !in chains[i][..j] && chains[i][j] !in chains[i][j + 1..]
    {
      assert Placed(live, maxSlots, i, chains[i]);
      forall l | 0 <= l < maxSlots && l != i ensures chains[i][j] !in chains[l] {
        assert Placed(live, maxSlots, l, chains[l]);
      }
    }

    /** The node before the first one with this key, or the last node. */
    method FindBefore(head: HashNode, key: cstring, index: nat) returns (cur: HashNode, ghost j: nat)
      requires Valid() && index < maxSlots && |chains[index]| > 0 && head == chains[index][0] && head.key != key
      ensures 0 < j <= |chains[index]| && cur == chains[index][j - 1]
      ensures cur.next == null <==> j == |chains[index]|
      ensures j < |chains[index]| ==> chains[index][j].key == key
      ensures j == |chains[index]| ==> forall l :: 0 <= l < j ==> chains[index][l].key != key
    {
      hide Shape, AllLive;
      Sizes();
      ghost var chain := chains[index];
      cur := head;
      j := 1;
      while cur.next != null
        invariant 0 < j <= |chain| && cur == chain[j - 1] && Linked(cur.next, chain[j..], null)
        invariant forall l :: 0 <= l < j ==> chain[l].key != key
        decreases |chain| - j
      {
        StrCmpZero((cur.next as HashNode).key, key);
        if StrCmp((cur.next as HashNode).key, key) == 0 {
          break;
        }
        assert chain[j..][1..] == chain[j + 1..];
        cur := cur.next;
        j := j + 1;
      }
    }

    /** `kvs_hash_del`; a negative index would be outside the table. */
    method Del(key: cstring) returns (ret: int)
      requires Valid() && Index(key, maxSlots) >= 0
      modifies this`count, this`live, this`chains, nodes, live.Values
      ensures Valid() && live.Values <= old(live.Values)
      ensures ret == FoundCode(old(Contents()), key)
      ensures Contents() == old(Contents()) - {key}
    {
      hide Shape, AllLive;
      Sizes();
      var index := Hash(key);
      ghost var chain := chains[index];
      var head := nodes[index];
      InChain(key, index);
      assert Linked(head, chain, null);
      hide Linked, Values, Contents, Placed, Reached, FoundCode;
      if head == null {
        AbsentKey(key);
        return 1;
      }
      StrCmpZero(head.key, key);
      if StrCmp(head.key, key) == 0 {
        PresentKey(key);
        UnlinkHead(index);
        return 0;
      }
      ret := DelBehind(head, key, index);
    }

    /** Deletion when the first node of the chain has another key. */
    method DelBehind(head: HashNode, key: cstring, index: nat) returns (ret: int)
      requires Valid() && index == Index(key, maxSlots) && index < maxSlots
      requires |chains[index]| > 0 && head == chains[index][0] && head.key != key
      modifies this`count, this`live, this`chains, nodes, live.Values
      ensures Valid() && live.Values <= old(live.Values)
      ensures ret == FoundCode(old(Contents()), key)
      ensures Contents() == old(Contents()) - {key}
    {
      hide Shape, AllLive, Linked, Values, Contents, Placed, Reached, FoundCode;
      InChain(key, index);
      ghost var j: nat;
      var cur;
      cur, j := FindBefore(head, key, index);
      if cur.next == null {
        AbsentKey(key);
        return 1;
      }
      PresentKey(key);
      UnlinkAfter(cur, index, j);
      return 0;
    }

    lemma AbsentKey(key: cstring)
      requires key !in live
      ensures FoundCode(Contents(), key) == 1 && Contents() - {key} == Contents()
    {
    }

    lemma PresentKey(key: cstring)
      requires key in live
      ensures FoundCode(Contents(), key) == 0
    {
    }

    lemma InChain(key: cstring, index: nat)
      requires Shape(live, maxSlots, chains) && index == Index(key, maxSlots) && index < maxSlots
      ensures key in live <==> exists j :: 0 <= j < |chains[index]| && chains[index][j].key == key
      ensures forall j :: 0 <= j < |chains[index]| ==> chains[index][j].key in live && chains[index][j] in live.Values
    {
      assert Placed(live, maxSlots, index, chains[index]);
      if key in live {
        var j :| 0 <= j < |chains[index]| && chains[index][j] == live[key];
      }
    }
  }
}
