/** Order and contents of the red-black tree's entries: where a key belongs, what inserting,
    removing and updating one entry does to the map, and positions deep in a subtree. */
module KvsOrder {
  import opened KvsString
  import opened KvsTree

  function MapOf(es: seq<Entry>): Contents {
    if es == [] then map[] else MapOf(es[..|es| - 1])[es[|es| - 1].0 := es[|es| - 1].1]
  }

  lemma {:induction false} MapConcat(a: seq<Entry>, b: seq<Entry>)
    ensures MapOf(a + b) == MapOf(a) + MapOf(b)
    decreases |b|
  {
    if b == [] {
      assert a + b == a;
    } else {
      var n := |b| - 1;
      assert (a + b)[..|a + b| - 1] == a + b[..n];
      MapConcat(a, b[..n]);
    }
  }

  predicate HasKey(es: seq<Entry>, key: cstring) {
    exists i :: 0 <= i < |es| && es[i].0 == key
  }

  lemma {:induction false} MapKeys(es: seq<Entry>, key: cstring)
    ensures key in MapOf(es) <==> HasKey(es, key)
    decreases |es|
  {
    if es != [] {
      var n := |es| - 1;
      MapKeys(es[..n], key);
      if HasKey(es, key) {
        var i :| 0 <= i < |es| && es[i].0 == key;
        assert i < n ==> es[..n][i].0 == key;
      }
    }
  }

  // ---- where a key belongs ----

  predicate AllBelow(es: seq<Entry>, key: cstring) {
    forall i :: 0 <= i < |es| ==> Less(es[i].0, key)
  }

  predicate AllAbove(key: cstring, es: seq<Entry>) {
    forall i :: 0 <= i < |es| ==> Less(key, es[i].0)
  }

  /** The key belongs at this position. */
  predicate Between(path: Path, key: cstring) {
    AllBelow(Before(path), key) && AllAbove(key, After(path))
  }

  lemma SortedApart(a: seq<Entry>, e: Entry, b: seq<Entry>)
    requires Sorted(a + [e] + b)
    ensures Sorted(a + b) && AllBelow(a, e.0) && AllAbove(e.0, b)
  {
    hide Less;
    var es, fs := a + [e] + b, a + b;
    assert es[|a|] == e;
    assert AllBelow(a, e.0) by {
      forall i | 0 <= i < |a| ensures Less(a[i].0, e.0) {
        assert es[i] == a[i];
      }
    }
    assert AllAbove(e.0, b) by {
      forall i | 0 <= i < |b| ensures Less(e.0, b[i].0) {
        assert es[|a| + 1 + i] == b[i];
      }
    }
    forall i, j | 0 <= i < j < |fs| ensures Less(fs[i].0, fs[j].0) {
      assert fs[i] == es[if i < |a| then i else i + 1] && fs[j] == es[if j < |a| then j else j + 1];
    }
  }

  lemma SortedJoined(a: seq<Entry>, e: Entry, b: seq<Entry>)
    requires Sorted(a + b) && AllBelow(a, e.0) && AllAbove(e.0, b)
    ensures Sorted(a + [e] + b)
  {
    hide Less;
    var es, fs := a + [e] + b, a + b;
    forall i, j | 0 <= i < j < |es| ensures Less(es[i].0, es[j].0) {
      if j == |a| {
        assert es[i] == a[i];
      } else if i == |a| {
        assert es[j] == b[j - |a| - 1];
      } else {
        assert es[i] == fs[if i < |a| then i else i - 1] && es[j] == fs[if j < |a| then j else j - 1];
      }
    }
  }

  lemma AboveTransitive(key: cstring, e: Entry, es: seq<Entry>)
    requires Less(key, e.0) && AllAbove(e.0, es)
    ensures AllAbove(key, es)
  {
    forall i | 0 <= i < |es| ensures Less(key, es[i].0) {
      LessTransitive(key, e.0, es[i].0);
    }
  }

  lemma BelowTransitive(key: cstring, e: Entry, es: seq<Entry>)
    requires Less(e.0, key) && AllBelow(es, e.0)
    ensures AllBelow(es, key)
  {
    forall i | 0 <= i < |es| ensures Less(es[i].0, key) {
      LessTransitive(es[i].0, e.0, key);
    }
  }

  /** One comparison narrows the place of a key. */
  lemma BetweenDown<P>(path: Path<P>, t: Tree<P>, key: cstring)
    requires Sorted(All(path, t)) && Between(path, key) && t.Fork?
    ensures Less(key, t.k) ==> Between(LeftOf(t.color, t.p, t.k, t.v, t.r, path), key)
    ensures Less(t.k, key) ==> Between(RightOf(t.color, t.l, t.p, t.k, t.v, path), key)
  {
    hide Sorted, Less;
    var a, e, b := Before(path) + Entries(t.l), (t.k, t.v), Entries(t.r) + After(path);
    assert All(path, t) == a + [e] + b;
    SortedApart(a, e, b);
    if Less(key, t.k) {
      AboveTransitive(key, e, b);
      assert [e] + Entries(t.r) + After(path) == [e] + b;
    }
    if Less(t.k, key) {
      BelowTransitive(key, e, a);
    }
  }

  // ---- entries and the map ----

  lemma Absent(a: seq<Entry>, b: seq<Entry>, key: cstring)
    requires AllBelow(a, key) && AllAbove(key, b)
    ensures key !in MapOf(a) && key !in MapOf(b) && key !in MapOf(a + b)
  {
    Trichotomy(key, key);
    MapKeys(a, key);
    MapKeys(b, key);
    MapConcat(a, b);
  }

  lemma MapSingle(e: Entry)
    ensures MapOf([e]) == map[e.0 := e.1]
  {
    assert [e][..0] == [];
  }

  lemma MergeOne(m: Contents, k: cstring, v: Value, n: Contents)
    requires k !in m && k !in n
    ensures m + map[k := v] + n == (m + n)[k := v]
    ensures m + n == (m + map[k := v] + n) - {k}
  {
  }

  /** One more entry in its place is one more key in the map. */
  lemma OneMore(a: seq<Entry>, e: Entry, b: seq<Entry>)
    requires Sorted(a + [e] + b)
    ensures e.0 !in MapOf(a + b)
    ensures MapOf(a + [e] + b) == MapOf(a + b)[e.0 := e.1]
    ensures MapOf(a + b) == MapOf(a + [e] + b) - {e.0}
  {
    hide MapOf, Sorted, AllBelow, AllAbove;
    SortedApart(a, e, b);
    Absent(a, b, e.0);
    MapConcat(a, b);
    MapConcat(a + [e], b);
    MapConcat(a, [e]);
    MapSingle(e);
    MergeOne(MapOf(a), e.0, e.1, MapOf(b));
  }

  /** Around any position with a fork in focus. */
  function Lower<P>(path: Path<P>, t: Tree<P>): seq<Entry>
    requires t.Fork?
  {
    Before(path) + Entries(t.l)
  }

  function Upper<P>(path: Path<P>, t: Tree<P>): seq<Entry>
    requires t.Fork?
  {
    Entries(t.r) + After(path)
  }

  lemma AllAt<P>(path: Path<P>, t: Tree<P>)
    requires t.Fork?
    ensures All(path, t) == Lower(path, t) + [(t.k, t.v)] + Upper(path, t)
  {
  }

  lemma EntryAt<P>(path: Path<P>, t: Tree<P>, key: cstring)
    requires Sorted(All(path, t)) && (if t.Fork? then t.k == key else Between(path, key))
    ensures t.Fork? <==> key in MapOf(All(path, t))
    ensures t.Fork? ==> MapOf(All(path, t))[key] == t.v
  {
    hide MapOf, Sorted;
    if t.Fork? {
      AllAt(path, t);
      OneMore(Lower(path, t), (t.k, t.v), Upper(path, t));
    } else {
      Absent(Before(path), After(path), key);
      assert Before(path) + Entries(t) + After(path) == Before(path) + After(path);
    }
  }

  // ---- positions below a position ----

  function Extend<P>(down: Path<P>, base: Path<P>): Path<P> {
    match down
    case Top => base
    case LeftOf(c, p, k, v, r, up) => LeftOf(c, p, k, v, r, Extend(up, base))
    case RightOf(c, l, p, k, v, up) => RightOf(c, l, p, k, v, Extend(up, base))
  }

  lemma {:induction false} PlugExtend<P>(down: Path<P>, base: Path<P>, t: Tree<P>)
    ensures Plug(Extend(down, base), t) == Plug(base, Plug(down, t))
    decreases down
  {
    if !down.Top? {
      PlugExtend(down.up, base, Whole(down, t));
    }
  }

  lemma {:induction false} AroundExtend<P>(down: Path<P>, base: Path<P>)
    ensures Before(Extend(down, base)) == Before(base) + Before(down)
    ensures After(Extend(down, base)) == After(down) + After(base)
    decreases down
  {
    if !down.Top? {
      AroundExtend(down.up, base);
    }
  }

  /** The surroundings with another key and value at their first fork. */
  function Repaid<P>(base: Path<P>, k: cstring, v: Value): Path<P>
    requires base.RightOf?
  {
    RightOf(base.c, base.l, base.p, k, v, base.up)
  }

  /** The shape of the surroundings does not depend on keys and values. */
  lemma {:induction false} SameShape<P>(down: Path<P>, base: Path<P>, k: cstring, v: Value, h: nat)
    requires base.RightOf?
    ensures var a, b := Extend(down, base), Extend(down, Repaid(base, k, v));
            && NoRedRedAround(a) == NoRedRedAround(b) && BalancedAround(a, h) == BalancedAround(b, h)
            && ParentColor(a) == ParentColor(b) && a.Top? == b.Top?
    decreases down
  {
    if !down.Top? {
      SameShape(down.up, base, k, v, h + Weight(down.c));
    }
  }

  /** Every position in a red-black tree fits. */
  lemma {:induction false} FitsAnywhere<P>(path: Path<P>, t: Tree<P>)
    requires RedBlack(Plug(path, t))
    ensures Fits(path, t)
    decreases path
  {
    if !path.Top? {
      FitsAnywhere(path.up, Whole(path, t));
      FitsDown(path.up, Whole(path, t));
    }
  }

  // ---- adding a node at a leaf ----

  lemma TopAll<P>(t: Tree<P>)
    ensures All(Top, t) == Entries(t)
  {
  }

  /** Where a missing key belongs, a red node can go. */
  lemma InsertFits<P>(path: Path<P>, p: P, key: cstring, value: Value)
    requires RedBlack(Plug(path, Leaf)) && Sorted(All(path, Leaf)) && Between(path, key)
    ensures var t := Fork(Red, Leaf, p, key, value, Leaf);
            && InsertInv(path, t) && Sorted(All(path, t))
            && MapOf(All(path, t)) == MapOf(All(path, Leaf))[key := value]
  {
    FitsAnywhere(path, Leaf);
    hide MapOf, Sorted;
    var e, b, a := (key, value), Before(path), After(path);
    assert b + Entries<P>(Leaf) + a == b + a;
    SortedJoined(b, e, a);
    OneMore(b, e, a);
    assert Entries(Fork(Red, Leaf, p, key, value, Leaf)) == [e];
  }

  // ---- removing a node with at most one child ----

  predicate OneChild<P>(t: Tree<P>) { t.Fork? && (t.l.Leaf? || t.r.Leaf?) }

  function Child<P>(t: Tree<P>): Tree<P>
    requires OneChild(t)
  {
    if t.l.Fork? then t.l else t.r
  }

  lemma ChildEntries<P>(path: Path<P>, t: Tree<P>)
    requires OneChild(t)
    ensures All(path, Child(t)) == Lower(path, t) + Upper(path, t)
  {
  }

  lemma RemoveBlack<P>(path: Path<P>, t: Tree<P>)
    requires Fits(path, t) && OneChild(t) && t.color.Black?
    ensures DeleteInv(path, Child(t))
  {
    NoRedRedPaint(Child(t));
  }

  lemma RemoveRed<P>(path: Path<P>, t: Tree<P>)
    requires Fits(path, t) && OneChild(t) && t.color.Red?
    ensures Fits(path, Child(t))
  {
  }

  /** The way from a subtree to its first node. */
  predicate AllLeft<P>(down: Path<P>) {
    down.Top? || (down.LeftOf? && AllLeft(down.up))
  }

  lemma {:induction false} AllLeftBefore<P>(down: Path<P>)
    requires AllLeft(down)
    ensures Before(down) == []
    decreases down
  {
    if !down.Top? {
      AllLeftBefore(down.up);
    }
  }

  lemma FirstEntry<P>(down: Path<P>, s: Tree<P>)
    requires AllLeft(down) && s.Fork? && s.l.Leaf?
    ensures Entries(Plug(down, s)) != [] && Entries(Plug(down, s))[0] == (s.k, s.v)
  {
    AllLeftBefore(down);
    EntriesPlug(down, s);
    assert Entries(s)[0] == (s.k, s.v);
  }

  lemma Regroup(l: seq<Entry>, e: Entry, m: seq<Entry>, d: seq<Entry>, u: seq<Entry>)
    ensures (l + [e] + []) + m + (d + u) == l + ([e] + m + d + u)
  {
  }

  /** A fork whose successor's payload replaces its own and whose successor is unlinked. */
  lemma SuccessorEntries<P>(path: Path<P>, t: Tree<P>, down: Path<P>, s: Tree<P>)
    requires t.Fork? && AllLeft(down) && s.Fork? && s.l.Leaf? && Plug(down, s) == t.r
    ensures var base := RightOf(t.color, t.l, t.p, s.k, s.v, path);
            All(Extend(down, base), Child(s)) == Lower(path, t) + Upper(path, t)
  {
    var base := RightOf(t.color, t.l, t.p, s.k, s.v, path);
    var e := (s.k, s.v);
    assert Before(base) == Lower(path, t) + [e] && After(base) == After(path);
    assert Entries(s) == [e] + Entries(s.r);
    assert Entries(Child(s)) == Entries(s.r);
    hide Before, After, Entries, Extend, Plug, AllLeft, Child;
    AllLeftBefore(down);
    AroundExtend(down, base);
    EntriesPlug(down, s);
    Regroup(Lower(path, t), e, Entries(s.r), After(down), After(path));
    assert Entries(t.r) == [e] + Entries(s.r) + After(down);
  }

  /** What deletion's fixup starts from, or the finished tree if a red node was unlinked. */
  predicate Ready<P>(path: Path<P>, t: Tree<P>, c: Color) {
    if c.Black? then DeleteInv(path, t) else RedBlack(Plug(path, t))
  }

  lemma Unlinked<P>(path: Path<P>, t: Tree<P>)
    requires Fits(path, t) && t.Fork?
    ensures OneChild(t) ==> Ready(path, Child(t), t.color) && All(path, Child(t)) == Lower(path, t) + Upper(path, t)
  {
    if OneChild(t) {
      ChildEntries(path, t);
      if t.color.Black? {
        RemoveBlack(path, t);
      } else {
        RemoveRed(path, t);
        PlugRedBlack(path, Child(t));
      }
    }
  }

  lemma UnlinkedBelow<P>(path: Path<P>, t: Tree<P>, down: Path<P>, s: Tree<P>)
    requires t.Fork? && AllLeft(down) && s.Fork? && s.l.Leaf? && Plug(down, s) == t.r
    requires RedBlack(Plug(path, t))
    ensures var below := Extend(down, Repaid(RightOf(t.color, t.l, t.p, t.k, t.v, path), s.k, s.v));
            Ready(below, Child(s), s.color) && All(below, Child(s)) == Lower(path, t) + Upper(path, t)
  {
    var base := RightOf(t.color, t.l, t.p, t.k, t.v, path);
    var c := Child(s);
    SuccessorEntries(path, t, down, s);
    PlugExtend(down, base, s);
    FitsAnywhere(Extend(down, base), s);
    SameShape(down, base, s.k, s.v, Height(c));
    SameShape(down, base, s.k, s.v, Height(c) + 1);
    if s.color.Black? {
      RemoveBlack(Extend(down, base), s);
    } else {
      RemoveRed(Extend(down, base), s);
      PlugRedBlack(Extend(down, Repaid(base, s.k, s.v)), c);
    }
  }

  /** Leaving one entry out of a sorted tree takes one key out of the map. */
  lemma Removed<P>(path: Path<P>, t: Tree<P>)
    requires t.Fork? && Sorted(Entries(Plug(path, t)))
    ensures Sorted(Lower(path, t) + Upper(path, t))
    ensures MapOf(Lower(path, t) + Upper(path, t)) == MapOf(Entries(Plug(path, t))) - {t.k}
  {
    hide MapOf, Sorted;
    EntriesPlug(path, t);
    AllAt(path, t);
    SortedApart(Lower(path, t), (t.k, t.v), Upper(path, t));
    OneMore(Lower(path, t), (t.k, t.v), Upper(path, t));
  }

  /** Changing the value of one entry updates its key. */
  lemma Updated<P>(path: Path<P>, t: Tree<P>, v: Value)
    requires t.Fork? && Sorted(Entries(Plug(path, t)))
    ensures Sorted(Entries(Plug(path, t.(v := v))))
    ensures MapOf(Entries(Plug(path, t.(v := v)))) == MapOf(Entries(Plug(path, t)))[t.k := v]
  {
    hide MapOf, Sorted;
    var l, u := Lower(path, t), Upper(path, t);
    EntriesPlug(path, t);
    AllAt(path, t);
    EntriesPlug(path, t.(v := v));
    AllAt(path, t.(v := v));
    SortedApart(l, (t.k, t.v), u);
    SortedJoined(l, (t.k, v), u);
    OneMore(l, (t.k, t.v), u);
    OneMore(l, (t.k, v), u);
  }

  /** Colours do not depend on values. */
  lemma RevaluedRedBlack<P>(path: Path<P>, t: Tree<P>, v: Value)
    requires t.Fork? && RedBlack(Plug(path, t))
    ensures RedBlack(Plug(path, t.(v := v)))
  {
    FitsAnywhere(path, t);
    PlugRedBlack(path, t.(v := v));
  }
}
