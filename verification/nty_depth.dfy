/** What splaying is for: a node on the search path comes up to half its depth and two at most,
    and no node goes down by more than two. */
module NtyDepth {
  import opened NtySplay

  /** The node n stands at depth d. */
  predicate At(t: Tree, n: Node, d: nat)
    decreases t
  {
    t.Fork? && if d == 0 then t.p == n else At(t.l, n, d - 1) || At(t.r, n, d - 1)
  }

  /** The search for the key passes the node n at depth d. */
  predicate Passes(t: Tree, key: int, n: Node, d: nat)
    decreases t
  {
    && t.Fork?
    && if d == 0 then t.p == n
       else (key < t.p.key && Passes(t.l, key, n, d - 1)) || (t.p.key < key && Passes(t.r, key, n, d - 1))
  }

  lemma {:induction false} PassesAt(t: Tree, key: int, n: Node, d: nat)
    requires Passes(t, key, n, d)
    ensures At(t, n, d)
    decreases t
  {
    if d > 0 {
      if key < t.p.key {
        PassesAt(t.l, key, n, d - 1);
      } else {
        PassesAt(t.r, key, n, d - 1);
      }
    }
  }

  // ---- the sides ----

  function Len(s: Spine): nat { if s.End? then 0 else 1 + Len(s.up) }

  /** The node n stands at depth d of a closed side, where the node passed first is on top. */
  predicate AtSide(s: Spine, n: Node, d: nat)
    decreases s
  {
    && s.Link?
    && (AtSide(s.up, n, d) || (Len(s.up) <= d && At(Fork(Leaf, s.p, s.sub), n, d - Len(s.up))))
  }

  /** Closing a side puts the focus below all of it. */
  lemma {:induction false} FocusBelow(s: Spine, side: Side, t: Tree, n: Node, d: nat)
    requires At(t, n, d)
    ensures At(Close(s, side, t), n, Len(s) + d)
    decreases s
  {
    if s.Link? {
      var f := if side.Left? then Fork(s.sub, s.p, t) else Fork(t, s.p, s.sub);
      assert At(f, n, d + 1);
      FocusBelow(s.up, side, f, n, d + 1);
    }
  }

  /** Its nodes keep their depth. */
  lemma {:induction false} SideKeeps(s: Spine, side: Side, t: Tree, n: Node, d: nat)
    requires AtSide(s, n, d)
    ensures At(Close(s, side, t), n, d)
    decreases s
  {
    hide At;
    var f := if side.Left? then Fork(s.sub, s.p, t) else Fork(t, s.p, s.sub);
    if AtSide(s.up, n, d) {
      SideKeeps(s.up, side, f, n, d);
    } else {
      OnTop(s.p, s.sub, f, n, d - Len(s.up));
      FocusBelow(s.up, side, f, n, d - Len(s.up));
    }
  }

  lemma CloseAt(s: Spine, side: Side, t: Tree, n: Node, d: nat)
    ensures At(t, n, d) ==> At(Close(s, side, t), n, Len(s) + d)
    ensures AtSide(s, n, d) ==> At(Close(s, side, t), n, d)
  {
    hide At, AtSide, Close;
    if At(t, n, d) {
      FocusBelow(s, side, t, n, d);
    }
    if AtSide(s, n, d) {
      SideKeeps(s, side, t, n, d);
    }
  }

  lemma OnTop(p: Node, sub: Tree, f: Tree, n: Node, d: nat)
    requires f.Fork? && f.p == p && (f.l == sub || f.r == sub)
    ensures At(Fork(Leaf, p, sub), n, d) ==> At(f, n, d)
  {
    if d > 0 {
      assert !At(Leaf, n, d - 1);
      assert At(f.l, n, d - 1) || At(f.r, n, d - 1) ==> At(f, n, d);
    }
  }

  /** What the sides hold stays where it is for the rest of the search. */
  lemma {:induction false} SidesStay(l: Spine, t: Tree, r: Spine, key: int, n: Node, d: nat)
    requires t.Fork?
    ensures var parts := Descend(l, t, r, key);
            (AtSide(l, n, d) ==> AtSide(parts.0, n, d)) && (AtSide(r, n, d) ==> AtSide(parts.2, n, d))
    decreases t
  {
    hide At;
    if key < t.p.key && t.l.Fork? {
      if key >= t.l.p.key {
        SidesStay(l, t.l, Link(t.p, t.r, r), key, n, d);
      } else if t.l.l.Fork? {
        SidesStay(l, t.l.l, Link(t.l.p, Fork(t.l.r, t.p, t.r), r), key, n, d);
      }
    } else if t.p.key < key && t.r.Fork? {
      if key <= t.r.p.key {
        SidesStay(Link(t.p, t.l, l), t.r, r, key, n, d);
      } else if t.r.r.Fork? {
        SidesStay(Link(t.r.p, Fork(t.l, t.p, t.r.l), l), t.r.r, r, key, n, d);
      }
    }
  }

  /** The tree that comes of these parts. */
  function Result(l: Spine, t: Tree, r: Spine, key: int): (u: Tree)
    requires t.Fork?
    ensures u.Fork?
  {
    var parts := Descend(l, t, r, key);
    Assembled(parts.0, parts.1, parts.2)
  }

  lemma SideInResult(l: Spine, t: Tree, r: Spine, key: int, n: Node, d: nat)
    requires t.Fork?
    ensures AtSide(l, n, d) || AtSide(r, n, d) ==> At(Result(l, t, r, key), n, d + 1)
  {
    hide AtSide, Descend;
    var parts := Descend(l, t, r, key);
    SidesStay(l, t, r, key, n, d);
    CloseAt(parts.0, Left, parts.1.l, n, d);
    CloseAt(parts.2, Right, parts.1.r, n, d);
  }

  lemma FocusInAssembled(l: Spine, t: Tree, r: Spine, n: Node, d: nat)
    requires t.Fork?
    ensures t.p == n ==> At(Assembled(l, t, r), n, 0)
    ensures At(t.l, n, d) ==> At(Assembled(l, t, r), n, Len(l) + d + 1)
    ensures At(t.r, n, d) ==> At(Assembled(l, t, r), n, Len(r) + d + 1)
  {
    CloseAt(l, Left, t.l, n, d);
    CloseAt(r, Right, t.r, n, d);
  }

  lemma LinkedAt(p: Node, sub: Tree, up: Spine, n: Node, d: nat)
    ensures AtSide(Link(p, sub, up), p, Len(up))
    ensures At(sub, n, d) ==> AtSide(Link(p, sub, up), n, Len(up) + d + 1)
  {
    assert At(Fork(Leaf, p, sub), p, 0);
    assert At(sub, n, d) ==> At(Fork(Leaf, p, sub), n, d + 1);
  }

  // ---- how far nodes come up ----

  /** After `count` nodes of the path were passed, the sides have at most half as many, and one
      more only where the search cannot turn next. */
  predicate Short(l: Spine, t: Tree, r: Spine, key: int, count: nat)
    requires t.Fork?
  {
    && 2 * Len(l) <= count + 1 && 2 * Len(r) <= count + 1
    && (t.p.key < key ==> 2 * Len(l) <= count)
    && (key < t.p.key ==> 2 * Len(r) <= count)
  }

  /** One round to the left. */
  lemma ResultLeft(l: Spine, t: Tree, r: Spine, key: int)
    requires t.Fork? && key < t.p.key
    ensures t.l.Leaf? ==> Result(l, t, r, key) == Assembled(l, t, r)
    ensures t.l.Fork? ==>
              if key < t.l.p.key then
                if t.l.l.Leaf? then Result(l, t, r, key) == Assembled(l, RotR(t), r)
                else Result(l, t, r, key) == Result(l, t.l.l, Link(t.l.p, Fork(t.l.r, t.p, t.r), r), key)
              else Result(l, t, r, key) == Result(l, t.l, Link(t.p, t.r, r), key)
  {
    hide Assembled;
  }

  lemma ResultRight(l: Spine, t: Tree, r: Spine, key: int)
    requires t.Fork? && t.p.key < key
    ensures t.r.Leaf? ==> Result(l, t, r, key) == Assembled(l, t, r)
    ensures t.r.Fork? ==>
              if t.r.p.key < key then
                if t.r.r.Leaf? then Result(l, t, r, key) == Assembled(l, RotL(t), r)
                else Result(l, t, r, key) == Result(Link(t.r.p, Fork(t.l, t.p, t.r.l), l), t.r.r, r, key)
              else Result(l, t, r, key) == Result(Link(t.p, t.l, l), t.r, r, key)
  {
    hide Assembled;
  }

  lemma ResultHere(l: Spine, t: Tree, r: Spine, key: int)
    requires t.Fork? && t.p.key == key
    ensures Result(l, t, r, key) == Assembled(l, t, r)
  {
  }

  /** Where the root goes, and what hangs on its other side, when the search turns left. */
  lemma RootLeft(l: Spine, t: Tree, r: Spine, key: int) returns (d: nat)
    requires t.Fork? && key < t.p.key
    ensures At(Result(l, t, r, key), t.p, d) && d <= Len(r) + 2
    ensures t.l.Leaf? || key >= t.l.p.key ==> d <= Len(r) + 1
    ensures t.l.Leaf? ==> d == 0
  {
    hide At, AtSide, Assembled, Result, Descend;
    ResultLeft(l, t, r, key);
    if t.l.Leaf? {
      FocusInAssembled(l, t, r, t.p, 0);
      d := 0;
    } else if key >= t.l.p.key {
      LinkedAt(t.p, t.r, r, t.p, 0);
      SideInResult(l, t.l, Link(t.p, t.r, r), key, t.p, Len(r));
      d := Len(r) + 1;
    } else {
      var low := Fork(t.l.r, t.p, t.r);
      AtTop(low);
      if t.l.l.Leaf? {
        FocusInAssembled(l, RotR(t), r, t.p, 0);
        d := Len(r) + 1;
      } else {
        LinkedAt(t.l.p, low, r, t.p, 0);
        SideInResult(l, t.l.l, Link(t.l.p, low, r), key, t.p, Len(r) + 1);
        d := Len(r) + 2;
      }
    }
  }

  lemma RootRight(l: Spine, t: Tree, r: Spine, key: int) returns (d: nat)
    requires t.Fork? && t.p.key < key
    ensures At(Result(l, t, r, key), t.p, d) && d <= Len(l) + 2
    ensures t.r.Leaf? || t.r.p.key >= key ==> d <= Len(l) + 1
    ensures t.r.Leaf? ==> d == 0
  {
    hide At, AtSide, Assembled, Result, Descend;
    ResultRight(l, t, r, key);
    if t.r.Leaf? {
      FocusInAssembled(l, t, r, t.p, 0);
      d := 0;
    } else if t.r.p.key >= key {
      LinkedAt(t.p, t.l, l, t.p, 0);
      SideInResult(Link(t.p, t.l, l), t.r, r, key, t.p, Len(l));
      d := Len(l) + 1;
    } else {
      var low := Fork(t.l, t.p, t.r.l);
      AtTop(low);
      if t.r.r.Leaf? {
        FocusInAssembled(l, RotL(t), r, t.p, 0);
        d := Len(l) + 1;
      } else {
        LinkedAt(t.r.p, low, l, t.p, 0);
        SideInResult(Link(t.r.p, low, l), t.r.r, r, key, t.p, Len(l) + 1);
        d := Len(l) + 2;
      }
    }
  }

  lemma AtTop(t: Tree)
    requires t.Fork?
    ensures At(t, t.p, 0)
  {
  }

  /** Where the next node goes when the search turns left twice. */
  lemma SecondLeft(l: Spine, t: Tree, r: Spine, key: int) returns (d: nat)
    requires t.Fork? && key < t.p.key && t.l.Fork? && key < t.l.p.key
    ensures At(Result(l, t, r, key), t.l.p, d) && d <= Len(r) + 1
  {
    hide At, AtSide, Assembled, Result, Descend;
    ResultLeft(l, t, r, key);
    if t.l.l.Leaf? {
      FocusInAssembled(l, RotR(t), r, t.l.p, 0);
      d := 0;
    } else {
      var low := Fork(t.l.r, t.p, t.r);
      LinkedAt(t.l.p, low, r, t.l.p, 0);
      SideInResult(l, t.l.l, Link(t.l.p, low, r), key, t.l.p, Len(r));
      d := Len(r) + 1;
    }
  }

  lemma SecondRight(l: Spine, t: Tree, r: Spine, key: int) returns (d: nat)
    requires t.Fork? && t.p.key < key && t.r.Fork? && t.r.p.key < key
    ensures At(Result(l, t, r, key), t.r.p, d) && d <= Len(l) + 1
  {
    hide At, AtSide, Assembled, Result, Descend;
    ResultRight(l, t, r, key);
    if t.r.r.Leaf? {
      FocusInAssembled(l, RotL(t), r, t.r.p, 0);
      d := 0;
    } else {
      var low := Fork(t.l, t.p, t.r.l);
      LinkedAt(t.r.p, low, l, t.r.p, 0);
      SideInResult(Link(t.r.p, low, l), t.r.r, r, key, t.r.p, Len(l));
      d := Len(l) + 1;
    }
  }

  lemma RootStays(l: Spine, t: Tree, r: Spine, key: int)
    requires t.Fork? && t.p.key == key
    ensures At(Result(l, t, r, key), t.p, 0)
  {
    ResultHere(l, t, r, key);
    FocusInAssembled(l, t, r, t.p, 0);
  }

  /** A node on the rest of the path. */
  lemma {:induction false} PathRises(l: Spine, t: Tree, r: Spine, key: int, count: nat, n: Node, i: nat)
      returns (d: nat)
    requires t.Fork? && Short(l, t, r, key, count) && Passes(t, key, n, i)
    ensures At(Result(l, t, r, key), n, d) && 2 * d <= count + i + 4
    decreases t
  {
    hide At, AtSide, Assembled, Result, Descend;
    if key < t.p.key {
      ResultLeft(l, t, r, key);
      if i == 0 {
        d := RootLeft(l, t, r, key);
      } else if key >= t.l.p.key {
        d := PathRises(l, t.l, Link(t.p, t.r, r), key, count + 1, n, i - 1);
      } else if i == 1 {
        d := SecondLeft(l, t, r, key);
      } else {
        assert Passes(t.l, key, n, i - 1) && Passes(t.l.l, key, n, i - 2);
        d := PathRises(l, t.l.l, Link(t.l.p, Fork(t.l.r, t.p, t.r), r), key, count + 2, n, i - 2);
      }
    } else if t.p.key < key {
      ResultRight(l, t, r, key);
      if i == 0 {
        d := RootRight(l, t, r, key);
      } else if t.r.p.key >= key {
        d := PathRises(Link(t.p, t.l, l), t.r, r, key, count + 1, n, i - 1);
      } else if i == 1 {
        d := SecondRight(l, t, r, key);
      } else {
        assert Passes(t.r, key, n, i - 1) && Passes(t.r.r, key, n, i - 2);
        d := PathRises(Link(t.r.p, Fork(t.l, t.p, t.r.l), l), t.r.r, r, key, count + 2, n, i - 2);
      }
    } else {
      RootStays(l, t, r, key);
      d := 0;
    }
  }

  // ---- how far nodes go down ----

  /** Nodes on the other side of a turn to the left. */
  lemma OuterLeft(l: Spine, t: Tree, r: Spine, key: int, n: Node, i: nat) returns (d: nat)
    requires t.Fork? && key < t.p.key && At(t.r, n, i)
    ensures At(Result(l, t, r, key), n, d) && d <= Len(r) + i + 3
  {
    hide At, AtSide, Assembled, Result, Descend;
    ResultLeft(l, t, r, key);
    if t.l.Leaf? {
      FocusInAssembled(l, t, r, n, i);
      d := Len(r) + i + 1;
    } else if key >= t.l.p.key {
      LinkedAt(t.p, t.r, r, n, i);
      SideInResult(l, t.l, Link(t.p, t.r, r), key, n, Len(r) + i + 1);
      d := Len(r) + i + 2;
    } else {
      var low := Fork(t.l.r, t.p, t.r);
      OneDown(low, n, i);
      if t.l.l.Leaf? {
        FocusInAssembled(l, RotR(t), r, n, i + 1);
        d := Len(r) + i + 2;
      } else {
        LinkedAt(t.l.p, low, r, n, i + 1);
        SideInResult(l, t.l.l, Link(t.l.p, low, r), key, n, Len(r) + i + 2);
        d := Len(r) + i + 3;
      }
    }
  }

  lemma OuterRight(l: Spine, t: Tree, r: Spine, key: int, n: Node, i: nat) returns (d: nat)
    requires t.Fork? && t.p.key < key && At(t.l, n, i)
    ensures At(Result(l, t, r, key), n, d) && d <= Len(l) + i + 3
  {
    hide At, AtSide, Assembled, Result, Descend;
    ResultRight(l, t, r, key);
    if t.r.Leaf? {
      FocusInAssembled(l, t, r, n, i);
      d := Len(l) + i + 1;
    } else if t.r.p.key >= key {
      LinkedAt(t.p, t.l, l, n, i);
      SideInResult(Link(t.p, t.l, l), t.r, r, key, n, Len(l) + i + 1);
      d := Len(l) + i + 2;
    } else {
      var low := Fork(t.l, t.p, t.r.l);
      OneDown(low, n, i);
      if t.r.r.Leaf? {
        FocusInAssembled(l, RotL(t), r, n, i + 1);
        d := Len(l) + i + 2;
      } else {
        LinkedAt(t.r.p, low, l, n, i + 1);
        SideInResult(Link(t.r.p, low, l), t.r.r, r, key, n, Len(l) + i + 2);
        d := Len(l) + i + 3;
      }
    }
  }

  lemma OneDown(t: Tree, n: Node, i: nat)
    requires t.Fork? && (At(t.l, n, i) || At(t.r, n, i))
    ensures At(t, n, i + 1)
  {
  }

  /** Nodes between two turns to the left. */
  lemma InnerLeft(l: Spine, t: Tree, r: Spine, key: int, n: Node, i: nat) returns (d: nat)
    requires t.Fork? && key < t.p.key && t.l.Fork? && key < t.l.p.key && At(t.l.r, n, i)
    ensures At(Result(l, t, r, key), n, d) && d <= Len(r) + i + 3
  {
    hide At, AtSide, Assembled, Result, Descend;
    ResultLeft(l, t, r, key);
    var low := Fork(t.l.r, t.p, t.r);
    OneDown(low, n, i);
    if t.l.l.Leaf? {
      FocusInAssembled(l, RotR(t), r, n, i + 1);
      d := Len(r) + i + 2;
    } else {
      LinkedAt(t.l.p, low, r, n, i + 1);
      SideInResult(l, t.l.l, Link(t.l.p, low, r), key, n, Len(r) + i + 2);
      d := Len(r) + i + 3;
    }
  }

  lemma InnerRight(l: Spine, t: Tree, r: Spine, key: int, n: Node, i: nat) returns (d: nat)
    requires t.Fork? && t.p.key < key && t.r.Fork? && t.r.p.key < key && At(t.r.l, n, i)
    ensures At(Result(l, t, r, key), n, d) && d <= Len(l) + i + 3
  {
    hide At, AtSide, Assembled, Result, Descend;
    ResultRight(l, t, r, key);
    var low := Fork(t.l, t.p, t.r.l);
    OneDown(low, n, i);
    if t.r.r.Leaf? {
      FocusInAssembled(l, RotL(t), r, n, i + 1);
      d := Len(l) + i + 2;
    } else {
      LinkedAt(t.r.p, low, l, n, i + 1);
      SideInResult(Link(t.r.p, low, l), t.r.r, r, key, n, Len(l) + i + 2);
      d := Len(l) + i + 3;
    }
  }

  lemma Around(l: Spine, t: Tree, r: Spine, key: int, n: Node, i: nat) returns (d: nat)
    requires t.Fork? && t.p.key == key && (At(t.l, n, i) || At(t.r, n, i))
    ensures At(Result(l, t, r, key), n, d) && (d == Len(l) + i + 1 || d == Len(r) + i + 1)
  {
    ResultHere(l, t, r, key);
    FocusInAssembled(l, t, r, n, i);
    d := if At(t.l, n, i) then Len(l) + i + 1 else Len(r) + i + 1;
  }

  /** A node anywhere in the rest of the tree. */
  lemma {:induction false} NodeSinks(l: Spine, t: Tree, r: Spine, key: int, count: nat, n: Node, i: nat)
      returns (d: nat)
    requires t.Fork? && Short(l, t, r, key, count) && At(t, n, i)
    ensures At(Result(l, t, r, key), n, d) && 2 * d <= count + 2 * i + 4
    decreases t
  {
    hide AtSide, Assembled, Result, Descend;
    if i == 0 {
      assert Passes(t, key, n, 0);
      d := PathRises(l, t, r, key, count, n, 0);
    } else if key < t.p.key {
      ResultLeft(l, t, r, key);
      if At(t.r, n, i - 1) {
        d := OuterLeft(l, t, r, key, n, i - 1);
      } else if key >= t.l.p.key {
        d := NodeSinks(l, t.l, Link(t.p, t.r, r), key, count + 1, n, i - 1);
      } else if i == 1 {
        d := SecondLeft(l, t, r, key);
      } else if At(t.l.r, n, i - 2) {
        d := InnerLeft(l, t, r, key, n, i - 2);
      } else {
        assert At(t.l, n, i - 1) && At(t.l.l, n, i - 2);
        d := NodeSinks(l, t.l.l, Link(t.l.p, Fork(t.l.r, t.p, t.r), r), key, count + 2, n, i - 2);
      }
    } else if t.p.key < key {
      ResultRight(l, t, r, key);
      if At(t.l, n, i - 1) {
        d := OuterRight(l, t, r, key, n, i - 1);
      } else if t.r.p.key >= key {
        d := NodeSinks(Link(t.p, t.l, l), t.r, r, key, count + 1, n, i - 1);
      } else if i == 1 {
        d := SecondRight(l, t, r, key);
      } else if At(t.r.l, n, i - 2) {
        d := InnerRight(l, t, r, key, n, i - 2);
      } else {
        assert At(t.r, n, i - 1) && At(t.r.r, n, i - 2);
        d := NodeSinks(Link(t.r.p, Fork(t.l, t.p, t.r.l), l), t.r.r, r, key, count + 2, n, i - 2);
      }
    } else {
      d := Around(l, t, r, key, n, i - 1);
    }
  }

  // ---- a splay ----

  /** A node that the search passes at depth i is at most i/2 + 2 deep after the splay. */
  lemma SplayHalves(t: Tree, key: int, n: Node, i: nat) returns (d: nat)
    requires Passes(t, key, n, i)
    ensures At(Splayed(t, key), n, d) && d <= i / 2 + 2
  {
    hide At, Passes, Descend, Assembled;
    SplayIs(t, key);
    d := PathRises(End, t, End, key, 0, n, i);
  }

  /** A node at depth i is at most i + 2 deep after the splay. */
  lemma SplaySinks(t: Tree, key: int, n: Node, i: nat) returns (d: nat)
    requires At(t, n, i)
    ensures At(Splayed(t, key), n, d) && d <= i + 2
  {
    hide At, Descend, Assembled;
    SplayIs(t, key);
    d := NodeSinks(End, t, End, key, 0, n, i);
  }

  lemma SplayIs(t: Tree, key: int)
    ensures t.Fork? ==> Splayed(t, key) == Result(End, t, End, key) && Short(End, t, End, key, 0)
    ensures forall n, i: nat :: At(t, n, i) ==> t.Fork?
    ensures forall n, i: nat :: Passes(t, key, n, i) ==> t.Fork?
  {
  }
}
