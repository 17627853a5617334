/** Red-black trees as values: a tree seen from one position in it, and what recolouring
    and rotating around that position keeps. Each fork names the node that stores it. */
module KvsTree {
  import opened KvsString

  datatype Color = Red | Black

  datatype Tree<P> = Leaf | Fork(color: Color, l: Tree<P>, p: P, k: cstring, v: Value, r: Tree<P>)

  /** The surroundings of a subtree, from its parent up to the root. */
  datatype Path<P> =
    | Top
    | LeftOf(c: Color, p: P, k: cstring, v: Value, r: Tree<P>, up: Path<P>)
    | RightOf(c: Color, l: Tree<P>, p: P, k: cstring, v: Value, up: Path<P>)

  type Entry = (cstring, Value)

  function Depth<P>(path: Path<P>): nat {
    if path.Top? then 0 else 1 + Depth(path.up)
  }

  function Entries<P>(t: Tree<P>): seq<Entry> {
    if t.Leaf? then [] else Entries(t.l) + [(t.k, t.v)] + Entries(t.r)
  }

  function Before<P>(path: Path<P>): seq<Entry> {
    match path
    case Top => []
    case LeftOf(_, _, _, _, _, up) => Before(up)
    case RightOf(_, l, _, k, v, up) => Before(up) + Entries(l) + [(k, v)]
  }

  function After<P>(path: Path<P>): seq<Entry> {
    match path
    case Top => []
    case LeftOf(_, _, k, v, r, up) => [(k, v)] + Entries(r) + After(up)
    case RightOf(_, _, _, _, _, up) => After(up)
  }

  /** The whole tree in key order. */
  function All<P>(path: Path<P>, t: Tree<P>): seq<Entry> { Before(path) + Entries(t) + After(path) }

  predicate Sorted(es: seq<Entry>) {
    forall i, j :: 0 <= i < j < |es| ==> Less(es[i].0, es[j].0)
  }

  // ---- colours and heights ----

  function ColorOf<P>(t: Tree<P>): Color { if t.Leaf? then Black else t.color }

  function ParentColor<P>(path: Path<P>): Color { if path.Top? then Black else path.c }

  function Weight(c: Color): nat { if c.Black? then 1 else 0 }

  function Height<P>(t: Tree<P>): nat { if t.Leaf? then 0 else Height(t.l) + Weight(t.color) }

  predicate Balanced<P>(t: Tree<P>) {
    t.Leaf? || (Balanced(t.l) && Balanced(t.r) && Height(t.l) == Height(t.r))
  }

  /** The surroundings are balanced around a subtree of black height h. */
  predicate BalancedAround<P>(path: Path<P>, h: nat) {
    match path
    case Top => true
    case LeftOf(c, _, _, _, r, up) => Balanced(r) && Height(r) == h && BalancedAround(up, h + Weight(c))
    case RightOf(c, l, _, _, _, up) => Balanced(l) && Height(l) == h && BalancedAround(up, h + Weight(c))
  }

  predicate NoRedRed<P>(t: Tree<P>) {
    t.Leaf? || (NoRedRed(t.l) && NoRedRed(t.r) && (t.color.Red? ==> ColorOf(t.l).Black? && ColorOf(t.r).Black?))
  }

  /** No two adjacent reds outside the subtree, and the root is black. */
  predicate NoRedRedAround<P>(path: Path<P>) {
    match path
    case Top => true
    case LeftOf(c, _, _, _, r, up) =>
      && NoRedRed(r) && NoRedRedAround(up)
      && (c.Red? ==> ColorOf(r).Black? && ParentColor(up).Black? && !up.Top?)
    case RightOf(c, l, _, _, _, up) =>
      && NoRedRed(l) && NoRedRedAround(up)
      && (c.Red? ==> ColorOf(l).Black? && ParentColor(up).Black? && !up.Top?)
  }

  /** A red-black tree. */
  predicate RedBlack<P>(t: Tree<P>) {
    NoRedRed(t) && Balanced(t) && ColorOf(t).Black?
  }

  /** Insertion's loop: a red-black tree but for a red focus under a possibly red parent. */
  predicate InsertInv<P>(path: Path<P>, t: Tree<P>) {
    && t.Fork? && t.color.Red? && NoRedRed(t) && NoRedRedAround(path)
    && Balanced(t) && BalancedAround(path, Height(t))
  }

  /** Moving the focus to the parent. */
  function Whole<P>(path: Path<P>, t: Tree<P>): Tree<P>
    requires !path.Top?
  {
    match path
    case LeftOf(c, p, k, v, r, up) => Fork(c, t, p, k, v, r)
    case RightOf(c, l, p, k, v, up) => Fork(c, l, p, k, v, t)
  }

  lemma AllUp<P>(path: Path<P>, t: Tree<P>)
    requires !path.Top?
    ensures All(path.up, Whole(path, t)) == All(path, t)
  {
  }

  function Plug<P>(path: Path<P>, t: Tree<P>): Tree<P> {
    if path.Top? then t else Plug(path.up, Whole(path, t))
  }

  lemma {:induction false} EntriesPlug<P>(path: Path<P>, t: Tree<P>)
    ensures Entries(Plug(path, t)) == All(path, t)
    decreases path
  {
    if path.Top? {
      assert [] + Entries(t) + [] == Entries(t);
    } else {
      AllUp(path, t);
      EntriesPlug(path.up, Whole(path, t));
    }
  }

  // ---- rotations ----

  function RotL<P>(t: Tree<P>): Tree<P>
    requires t.Fork? && t.r.Fork?
  {
    Fork(t.r.color, Fork(t.color, t.l, t.p, t.k, t.v, t.r.l), t.r.p, t.r.k, t.r.v, t.r.r)
  }

  function RotR<P>(t: Tree<P>): Tree<P>
    requires t.Fork? && t.l.Fork?
  {
    Fork(t.l.color, t.l.l, t.l.p, t.l.k, t.l.v, Fork(t.color, t.l.r, t.p, t.k, t.v, t.r))
  }

  lemma ForkEntries<P>(t: Tree<P>)
    requires t.Fork?
    ensures Entries(t) == Entries(t.l) + [(t.k, t.v)] + Entries(t.r)
  {
  }

  lemma Associate(a: seq<Entry>, x: Entry, b: seq<Entry>, y: Entry, c: seq<Entry>)
    ensures a + [x] + (b + [y] + c) == (a + [x] + b) + [y] + c
  {
  }

  lemma RotLKeeps<P>(t: Tree<P>)
    requires t.Fork? && t.r.Fork?
    ensures Entries(RotL(t)) == Entries(t)
  {
    hide Entries;
    ForkEntries(t);
    ForkEntries(t.r);
    ForkEntries(RotL(t));
    ForkEntries(RotL(t).l);
    Associate(Entries(t.l), (t.k, t.v), Entries(t.r.l), (t.r.k, t.r.v), Entries(t.r.r));
  }

  lemma RotRKeeps<P>(t: Tree<P>)
    requires t.Fork? && t.l.Fork?
    ensures Entries(RotR(t)) == Entries(t)
  {
    hide Entries;
    ForkEntries(t);
    ForkEntries(t.l);
    ForkEntries(RotR(t));
    ForkEntries(RotR(t).r);
    Associate(Entries(t.l.l), (t.l.k, t.l.v), Entries(t.l.r), (t.k, t.v), Entries(t.r));
  }

  /** The result of any loop: replugging a fitting subtree gives a red-black tree. */
  lemma {:induction false} PlugRedBlack<P>(path: Path<P>, t: Tree<P>)
    requires NoRedRed(t) && NoRedRedAround(path) && Balanced(t) && BalancedAround(path, Height(t))
    requires ColorOf(t).Red? ==> !path.Top? && ParentColor(path).Black?
    ensures RedBlack(Plug(path, t))
    decreases path
  {
    if !path.Top? {
      PlugRedBlack(path.up, Whole(path, t));
    }
  }

  /** Focusing from the root: the surroundings of any position in a red-black tree. */
  predicate Fits<P>(path: Path<P>, t: Tree<P>) {
    && NoRedRed(t) && NoRedRedAround(path) && Balanced(t) && BalancedAround(path, Height(t))
    && (ColorOf(t).Red? ==> !path.Top? && ParentColor(path).Black?)
  }

  lemma FitsDown<P>(path: Path<P>, t: Tree<P>)
    requires Fits(path, t) && t.Fork?
    ensures Fits(LeftOf(t.color, t.p, t.k, t.v, t.r, path), t.l)
    ensures Fits(RightOf(t.color, t.l, t.p, t.k, t.v, path), t.r)
  {
  }

  // ---- insertion fixup ----

  function Paint<P>(t: Tree<P>, c: Color): Tree<P> { if t.Leaf? then t else t.(color := c) }

  /** Parent and uncle are red: both turn black, the grandparent red, and the focus moves
      up to it. */
  function Recolored<P>(path: Path<P>, t: Tree<P>): Tree<P>
    requires !path.Top? && !path.up.Top?
  {
    match path.up
    case LeftOf(_, p, k, v, r, _) => Fork(Red, Paint(Whole(path, t), Black), p, k, v, Paint(r, Black))
    case RightOf(_, l, p, k, v, _) => Fork(Red, Paint(l, Black), p, k, v, Paint(Whole(path, t), Black))
  }

  function Uncle<P>(path: Path<P>): Tree<P>
    requires !path.Top? && !path.up.Top?
  {
    if path.up.LeftOf? then path.up.r else path.up.l
  }

  lemma PaintKeeps<P>(t: Tree<P>, c: Color)
    ensures Entries(Paint(t, c)) == Entries(t)
  {
  }

  lemma PaintedParent<P>(path: Path<P>, t: Tree<P>)
    requires InsertInv(path, t) && ParentColor(path).Red?
    ensures var w := Paint(Whole(path, t), Black);
            NoRedRed(w) && Balanced(w) && Height(w) == Height(t) + 1
    ensures !path.up.Top? && path.up.c.Black?
    ensures var u := Uncle(path);
            NoRedRed(u) && Balanced(u) && Height(u) == Height(t)
            && NoRedRedAround(path.up.up) && BalancedAround(path.up.up, Height(t) + 1)
  {
    assert NoRedRedAround(path.up) && BalancedAround(path.up, Height(t));
  }

  lemma PaintedBlack<P>(t: Tree<P>)
    requires NoRedRed(t) && Balanced(t) && ColorOf(t).Red?
    ensures var w := Paint(t, Black);
            NoRedRed(w) && Balanced(w) && Height(w) == Height(t) + 1
  {
  }

  lemma RecoloredKeeps<P>(path: Path<P>, t: Tree<P>)
    requires InsertInv(path, t) && ParentColor(path).Red? && ColorOf(Uncle(path)).Red?
    ensures InsertInv(path.up.up, Recolored(path, t))
    ensures All(path.up.up, Recolored(path, t)) == All(path, t) && Depth(path.up.up) < Depth(path)
  {
    PaintedParent(path, t);
    AllUp(path, t);
    AllUp(path.up, Whole(path, t));
    PaintedBlack(Uncle(path));
    PaintKeeps(Uncle(path), Black);
    PaintKeeps(Whole(path, t), Black);
  }

  /** The focus and its parent bend: rotating the parent straightens them. */
  lemma StraightenLeft<P>(path: Path<P>, t: Tree<P>)
    requires InsertInv(path, t) && path.RightOf? && path.c.Red? && path.up.LeftOf?
    ensures var w := RotL(Whole(path, t));
            var path' := LeftOf(w.color, w.p, w.k, w.v, w.r, path.up);
            InsertInv(path', w.l) && path'.c.Red? && All(path', w.l) == All(path, t)
  {
    var w := RotL(Whole(path, t));
    RotLKeeps(Whole(path, t));
    AllUp(path, t);
    AllUp(LeftOf(w.color, w.p, w.k, w.v, w.r, path.up), w.l);
  }

  lemma StraightenRight<P>(path: Path<P>, t: Tree<P>)
    requires InsertInv(path, t) && path.LeftOf? && path.c.Red? && path.up.RightOf?
    ensures var w := RotR(Whole(path, t));
            var path' := RightOf(w.color, w.l, w.p, w.k, w.v, path.up);
            InsertInv(path', w.r) && path'.c.Red? && All(path', w.r) == All(path, t)
  {
    var w := RotR(Whole(path, t));
    RotRKeeps(Whole(path, t));
    AllUp(path, t);
    AllUp(RightOf(w.color, w.l, w.p, w.k, w.v, path.up), w.r);
  }

  /** The grandparent with the parent black and itself red, before the last rotation. */
  function Swapped<P>(path: Path<P>, t: Tree<P>): Tree<P>
    requires !path.Top? && !path.up.Top?
  {
    Paint(Whole(path.up, Paint(Whole(path, t), Black)), Red)
  }

  lemma LiftLeft<P>(path: Path<P>, t: Tree<P>)
    requires InsertInv(path, t) && path.LeftOf? && path.c.Red? && path.up.LeftOf? && ColorOf(Uncle(path)).Black?
    ensures var w := RotR(Swapped(path, t));
            var path' := LeftOf(w.color, w.p, w.k, w.v, w.r, path.up.up);
            && w.l == t && InsertInv(path', t) && path'.c.Black? && All(path', t) == All(path, t)
  {
    PaintedParent(path, t);
    var w := RotR(Swapped(path, t));
    RotRKeeps(Swapped(path, t));
    AllUp(path, t);
    AllUp(path.up, Whole(path, t));
    AllUp(LeftOf(w.color, w.p, w.k, w.v, w.r, path.up.up), t);
  }

  lemma LiftRight<P>(path: Path<P>, t: Tree<P>)
    requires InsertInv(path, t) && path.RightOf? && path.c.Red? && path.up.RightOf? && ColorOf(Uncle(path)).Black?
    ensures var w := RotL(Swapped(path, t));
            var path' := RightOf(w.color, w.l, w.p, w.k, w.v, path.up.up);
            && w.r == t && InsertInv(path', t) && path'.c.Black? && All(path', t) == All(path, t)
  {
    PaintedParent(path, t);
    var w := RotL(Swapped(path, t));
    RotLKeeps(Swapped(path, t));
    AllUp(path, t);
    AllUp(path.up, Whole(path, t));
    AllUp(RightOf(w.color, w.l, w.p, w.k, w.v, path.up.up), t);
  }

  /** Insertion's loop is over: painting the root black leaves a red-black tree. */
  lemma InsertDone<P>(path: Path<P>, t: Tree<P>)
    requires InsertInv(path, t) && ParentColor(path).Black?
    ensures RedBlack(Paint(Plug(path, t), Black))
    ensures Entries(Paint(Plug(path, t), Black)) == All(path, t)
  {
    EntriesPlug(path, t);
    PaintKeeps(Plug(path, t), Black);
    if !path.Top? {
      PlugRedBlack(path, t);
    }
  }

  // ---- deletion fixup ----

  /** Deletion's loop: a red-black tree but for one black level missing at the focus, which
      may be a red fork with red children. */
  predicate DeleteInv<P>(path: Path<P>, t: Tree<P>) {
    && NoRedRed(Paint(t, Black)) && NoRedRedAround(path)
    && Balanced(t) && BalancedAround(path, Height(t) + 1)
  }

  function SiblingOf<P>(path: Path<P>): Tree<P>
    requires !path.Top?
  {
    if path.LeftOf? then path.r else path.l
  }

  function SetSibling<P>(path: Path<P>, s: Tree<P>): Path<P>
    requires !path.Top?
  {
    if path.LeftOf? then path.(r := s) else path.(l := s)
  }

  /** The sibling is never a leaf, since it is one black level higher. */
  lemma SiblingIsFork<P>(path: Path<P>, t: Tree<P>)
    requires DeleteInv(path, t) && !path.Top?
    ensures SiblingOf(path).Fork? && Height(SiblingOf(path)) == Height(t) + 1
    ensures ColorOf(SiblingOf(path)).Red? ==> path.c.Black? && SiblingOf(path).l.Fork? && SiblingOf(path).r.Fork?
    ensures var s := SiblingOf(path);
            && NoRedRed(s) && Balanced(s) && NoRedRedAround(path.up)
            && BalancedAround(path.up, Height(t) + 1 + Weight(path.c))
  {
  }

  /** The focus after its red sibling has been rotated above its parent. */
  lemma RedSibling<P>(path: Path<P>, t: Tree<P>)
    requires DeleteInv(path, t) && !path.Top? && ColorOf(SiblingOf(path)).Red? && ColorOf(t).Black?
    ensures path.LeftOf? ==>
              var w := RotL(Fork(Red, t, path.p, path.k, path.v, Paint(path.r, Black)));
              var path' := LeftOf(Red, path.p, path.k, path.v, w.l.r, LeftOf(w.color, w.p, w.k, w.v, w.r, path.up));
              && w.l == Fork(Red, t, path.p, path.k, path.v, w.l.r)
              && DeleteInv(path', t) && ColorOf(SiblingOf(path')).Black? && All(path', t) == All(path, t)
    ensures path.RightOf? ==>
              var w := RotR(Fork(Red, Paint(path.l, Black), path.p, path.k, path.v, t));
              var path' := RightOf(Red, w.r.l, path.p, path.k, path.v, RightOf(w.color, w.l, w.p, w.k, w.v, path.up));
              && w.r == Fork(Red, w.r.l, path.p, path.k, path.v, t)
              && DeleteInv(path', t) && ColorOf(SiblingOf(path')).Black? && All(path', t) == All(path, t)
  {
    SiblingIsFork(path, t);
    PaintKeeps(SiblingOf(path), Black);
    AllUp(path, t);
    if path.LeftOf? {
      var s := Fork(Red, t, path.p, path.k, path.v, Paint(path.r, Black));
      var w := RotL(s);
      RotLKeeps(s);
      var up := LeftOf(w.color, w.p, w.k, w.v, w.r, path.up);
      AllUp(LeftOf(Red, path.p, path.k, path.v, w.l.r, up), t);
      AllUp(up, w.l);
    } else {
      var s := Fork(Red, Paint(path.l, Black), path.p, path.k, path.v, t);
      var w := RotR(s);
      RotRKeeps(s);
      var up := RightOf(w.color, w.l, w.p, w.k, w.v, path.up);
      AllUp(RightOf(Red, w.r.l, path.p, path.k, path.v, up), t);
      AllUp(up, w.r);
    }
  }

  /** Both children of the black sibling are black: the missing level moves up. */
  lemma BlackSibling<P>(path: Path<P>, t: Tree<P>)
    requires DeleteInv(path, t) && !path.Top? && ColorOf(t).Black?
    requires var s := SiblingOf(path);
             s.Fork? && s.color.Black? && ColorOf(s.l).Black? && ColorOf(s.r).Black?
    ensures var w := Whole(SetSibling(path, Paint(SiblingOf(path), Red)), t);
            DeleteInv(path.up, w) && All(path.up, w) == All(path, t) && ColorOf(w) == path.c
  {
    SiblingIsFork(path, t);
    var s := Paint(SiblingOf(path), Red);
    PaintKeeps(SiblingOf(path), Red);
    AllUp(path, t);
    assert NoRedRed(s) && Balanced(s) && Height(s) == Height(t);
    assert Paint(t, Black) == t;
    var w := Whole(SetSibling(path, s), t);
    assert Balanced(w) && Height(w) == Height(t) + Weight(path.c);
    assert NoRedRed(Paint(w, Black));
  }

  /** The sibling with its far child made red by a rotation. */
  function Turned<P>(path: Path<P>): Tree<P>
    requires !path.Top? && SiblingOf(path).Fork?
    requires if path.LeftOf? then path.r.l.Fork? else path.l.r.Fork?
  {
    var s := SiblingOf(path);
    if path.LeftOf? then RotR(s.(color := Red, l := Paint(s.l, Black)))
    else RotL(s.(color := Red, r := Paint(s.r, Black)))
  }

  function Near<P>(path: Path<P>): Tree<P>
    requires !path.Top? && SiblingOf(path).Fork?
  {
    if path.LeftOf? then path.r.l else path.l.r
  }

  function Far<P>(path: Path<P>): Tree<P>
    requires !path.Top? && SiblingOf(path).Fork?
  {
    if path.LeftOf? then path.r.r else path.l.l
  }

  lemma SwapSibling<P>(path: Path<P>, t: Tree<P>, s: Tree<P>)
    requires DeleteInv(path, t) && !path.Top?
    requires NoRedRed(s) && Balanced(s) && Height(s) == Height(SiblingOf(path)) && ColorOf(s).Black?
    requires Entries(s) == Entries(SiblingOf(path))
    ensures DeleteInv(SetSibling(path, s), t) && All(SetSibling(path, s), t) == All(path, t)
  {
  }

  /** The far child of the black sibling is black: a rotation makes it red. */
  lemma NearRed<P>(path: Path<P>, t: Tree<P>)
    requires DeleteInv(path, t) && !path.Top? && ColorOf(t).Black?
    requires SiblingOf(path).Fork? && ColorOf(SiblingOf(path)).Black?
    requires ColorOf(Near(path)).Red? && ColorOf(Far(path)).Black?
    ensures var path' := SetSibling(path, Turned(path));
            && DeleteInv(path', t) && All(path', t) == All(path, t)
            && ColorOf(SiblingOf(path')).Black? && ColorOf(Far(path')).Red?
  {
    SiblingIsFork(path, t);
    var s := SiblingOf(path);
    assert NoRedRed(s.l) && NoRedRed(s.r) && Balanced(s.l) && Balanced(s.r);
    if path.LeftOf? {
      PaintedBlack(s.l);
      PaintKeeps(s.l, Black);
      RotRKeeps(s.(color := Red, l := Paint(s.l, Black)));
      var inner := Fork(Red, s.l.r, s.p, s.k, s.v, s.r);
      assert Turned(path) == Fork(Black, s.l.l, s.l.p, s.l.k, s.l.v, inner);
      assert NoRedRed(inner) && Balanced(inner) && Height(inner) == Height(t);
    } else {
      PaintedBlack(s.r);
      PaintKeeps(s.r, Black);
      RotLKeeps(s.(color := Red, r := Paint(s.r, Black)));
      var inner := Fork(Red, s.l, s.p, s.k, s.v, s.r.l);
      assert Turned(path) == Fork(Black, inner, s.r.p, s.r.k, s.r.v, s.r.r);
      assert NoRedRed(inner) && Balanced(inner) && Height(inner) == Height(t);
    }
    SwapSibling(path, t, Turned(path));
  }

  /** The far child of the black sibling is red: one rotation restores every height. */
  function Settled<P>(path: Path<P>, t: Tree<P>): Tree<P>
    requires !path.Top? && SiblingOf(path).Fork?
  {
    var s := SiblingOf(path);
    if path.LeftOf? then
      RotL(Fork(Black, t, path.p, path.k, path.v, s.(color := path.c, r := Paint(s.r, Black))))
    else
      RotR(Fork(Black, s.(color := path.c, l := Paint(s.l, Black)), path.p, path.k, path.v, t))
  }

  lemma SettledFits<P>(path: Path<P>, t: Tree<P>)
    requires DeleteInv(path, t) && !path.Top? && ColorOf(t).Black?
    requires SiblingOf(path).Fork? && ColorOf(SiblingOf(path)).Black? && ColorOf(Far(path)).Red?
    ensures var w := Settled(path, t);
            && NoRedRed(w) && Balanced(w) && Height(w) == Height(t) + 1 + Weight(path.c) && ColorOf(w) == path.c
            && Entries(w) == Entries(Whole(path, t))
  {
    SiblingIsFork(path, t);
    var s := SiblingOf(path);
    var far := Paint(Far(path), Black);
    PaintedBlack(Far(path));
    PaintKeeps(Far(path), Black);
    assert NoRedRed(t) by {
      assert Paint(t, Black) == t;
    }
    assert Balanced(Near(path)) && NoRedRed(Near(path)) && Height(Near(path)) == Height(t);
    if path.LeftOf? {
      RotLKeeps(Fork(Black, t, path.p, path.k, path.v, s.(color := path.c, r := far)));
      var inner := Fork(Black, t, path.p, path.k, path.v, s.l);
      assert Settled(path, t) == Fork(path.c, inner, s.p, s.k, s.v, far);
      assert NoRedRed(inner) && Balanced(inner) && Height(inner) == Height(t) + 1;
    } else {
      RotRKeeps(Fork(Black, s.(color := path.c, l := far), path.p, path.k, path.v, t));
      var inner := Fork(Black, s.r, path.p, path.k, path.v, t);
      assert Settled(path, t) == Fork(path.c, far, s.p, s.k, s.v, inner);
      assert NoRedRed(inner) && Balanced(inner) && Height(inner) == Height(t) + 1;
    }
  }

  lemma FarRed<P>(path: Path<P>, t: Tree<P>)
    requires DeleteInv(path, t) && !path.Top? && ColorOf(t).Black?
    requires SiblingOf(path).Fork? && ColorOf(SiblingOf(path)).Black? && ColorOf(Far(path)).Red?
    ensures var w := Plug(path.up, Settled(path, t));
            DeleteInv(Top, w) && All(Top, w) == All(path, t)
  {
    SiblingIsFork(path, t);
    SettledFits(path, t);
    var w := Settled(path, t);
    hide Settled, Entries, Plug, NoRedRed, Balanced, NoRedRedAround, BalancedAround, SiblingOf, Far, Paint, Height;
    AllUp(path, t);
    EntriesPlug(path.up, w);
    PlugAnyColor(path.up, w, path.c);
    var whole := Plug(path.up, w);
    assert All(Top, whole) == Entries(whole);
  }

  /** Replugging when only the parent colour matters for the root of the subtree. */
  lemma PlugAnyColor<P>(path: Path<P>, t: Tree<P>, c: Color)
    requires NoRedRed(t) && NoRedRedAround(path) && Balanced(t) && BalancedAround(path, Height(t))
    requires c.Red? && !path.Top? ==> ParentColor(path).Black?
    requires ColorOf(t) == c
    ensures DeleteInv(Top, Plug(path, t))
  {
    if c.Black? || !path.Top? {
      PlugRedBlack(path, t);
      NoRedRedPaint(Plug(path, t));
    } else {
      NoRedRedPaint(t);
    }
  }

  lemma NoRedRedPaint<P>(t: Tree<P>)
    requires NoRedRed(t)
    ensures NoRedRed(Paint(t, Black))
  {
  }

  /** Deletion's loop is over: painting the focus black leaves a red-black tree. */
  lemma DeleteDone<P>(path: Path<P>, t: Tree<P>)
    requires DeleteInv(path, t) && (path.Top? || ColorOf(t).Red?)
    ensures RedBlack(Plug(path, Paint(t, Black)))
    ensures Entries(Plug(path, Paint(t, Black))) == All(path, t)
  {
    EntriesPlug(path, Paint(t, Black));
    PaintKeeps(t, Black);
    if !path.Top? {
      PlugRedBlack(path, Paint(t, Black));
    }
  }
}
