/** The red-black tree of kvs_rbtree.c on the heap: nodes with child and parent pointers,
    a shared sentinel `nil`, and loops that recolour, rotate and splice in place. */
module KvsRbtree {
  import opened KvsString
  import opened KvsEngine
  import opened KvsTree
  import opened KvsOrder

  class Node {
    var color: Color
    var left: Node?
    var right: Node?
    var parent: Node?
    var key: cstring
    var value: Value

    constructor (key: cstring, value: Value)
      ensures this.key == key && this.value == value && color == Black
    {
      this.key, this.value := key, value;
      color := Black;
      left, right, parent := null, null, null;
    }
  }

  type T = Tree<Node>
  type P = Path<Node>

  ghost function Nodes(t: T): set<Node> {
    if t.Leaf? then {} else Nodes(t.l) + {t.p} + Nodes(t.r)
  }

  ghost function NodesAround(path: P): set<Node> {
    match path
    case Top => {}
    case LeftOf(_, p, _, _, r, up) => {p} + Nodes(r) + NodesAround(up)
    case RightOf(_, l, p, _, _, up) => {p} + Nodes(l) + NodesAround(up)
  }

  class RbTree {
    var root: Node
    const nil: Node
    ghost var tree: T
    ghost var repr: set<Node>

    /** The pointer that stands for a subtree. */
    ghost function Ptr(t: T): Node { if t.Leaf? then nil else t.p }

    /** The parent pointer of whatever is in focus. */
    ghost function ParentOf(path: P): Node { if path.Top? then nil else path.p }

    /** Node n stores one fork. */
    ghost predicate Stores(n: Node, c: Color, l: Node, k: cstring, v: Value, r: Node, parent: Node)
      reads n
    {
      n != nil && n.color == c && n.left == l && n.right == r && n.key == k && n.value == v && n.parent == parent
    }

    /** The heap holds subtree t under `parent`. */
    ghost predicate Holds(t: T, parent: Node)
      reads Nodes(t)
    {
      t.Fork? ==>
        && Stores(t.p, t.color, Ptr(t.l), t.k, t.v, Ptr(t.r), parent)
        && t.p !in Nodes(t.l) && t.p !in Nodes(t.r) && Nodes(t.l) !! Nodes(t.r)
        && Holds(t.l, t.p) && Holds(t.r, t.p)
    }

    /** The heap holds the surroundings of a subtree whose pointer is `hole`. */
    ghost predicate HoldsAround(path: P, hole: Node)
      reads this`root, NodesAround(path)
    {
      match path
      case Top => root == hole
      case LeftOf(c, p, k, v, r, up) =>
        && Stores(p, c, hole, k, v, Ptr(r), ParentOf(up))
        && p !in Nodes(r) && p !in NodesAround(up) && Nodes(r) !! NodesAround(up)
        && Holds(r, p) && HoldsAround(up, p)
      case RightOf(c, l, p, k, v, up) =>
        && Stores(p, c, Ptr(l), k, v, hole, ParentOf(up))
        && p !in Nodes(l) && p !in NodesAround(up) && Nodes(l) !! NodesAround(up)
        && Holds(l, p) && HoldsAround(up, p)
    }

    /** The heap holds the whole tree, seen with t in focus. */
    ghost predicate At(path: P, t: T)
      reads this`root, this`repr, nil`color, Nodes(t), NodesAround(path)
    {
      && nil.color == Black && nil !in Nodes(t) && nil !in NodesAround(path)
      && Nodes(t) !! NodesAround(path) && Nodes(t) + NodesAround(path) == repr
      && Holds(t, ParentOf(path)) && HoldsAround(path, Ptr(t))
    }

    lemma Up(path: P, t: T)
      requires At(path, t) && !path.Top?
      ensures At(path.up, Whole(path, t))
    {
    }

    lemma DownLeft(path: P, t: T)
      requires At(path, t) && t.Fork?
      ensures At(LeftOf(t.color, t.p, t.k, t.v, t.r, path), t.l)
    {
    }

    lemma DownRight(path: P, t: T)
      requires At(path, t) && t.Fork?
      ensures At(RightOf(t.color, t.l, t.p, t.k, t.v, path), t.r)
    {
    }

    // ---- the primitive updates ----

    /** `kvs_rbtree_create`: an empty tree is its black sentinel. */
    constructor ()
      ensures fresh(nil) && Valid() && Contents() == map[] && repr == {}
    {
      nil := new Node([], []);
      root := nil;
      tree := Leaf;
      repr := {};
    }

    method SetColor(x: Node, c: Color, ghost path: P, ghost t: T)
      requires At(path, t) && t.Fork? && x == t.p
      modifies x`color
      ensures At(path, t.(color := c))
    {
      x.color := c;
    }

    ghost function TopNode(path: P): set<Node> { if path.Top? then {} else {path.p} }

    ghost function RootNode(t: T): set<Node> { if t.Leaf? then {} else {t.p} }

    /** The link to the focus, in its parent or at the root, changes from x to y. */
    method Relink(x: Node, y: Node, parent: Node, ghost path: P)
      requires HoldsAround(path, x) && parent == ParentOf(path)
      requires nil !in NodesAround(path) && x !in NodesAround(path)
      requires path.RightOf? ==> x != nil
      modifies `root, TopNode(path)
      ensures HoldsAround(path, y)
    {
      assert !path.Top? ==> HoldsAround(path.up, path.p);
      if parent == nil {
        root := y;
      } else if x == parent.left {
        parent.left := y;
      } else {
        parent.right := y;
      }
    }

    /** The three subtrees of a rotation and the surroundings, all apart. */
    ghost predicate Pieces(a: T, ap: Node, b: T, bp: Node, c: T, cp: Node, path: P, hole: Node)
      reads this`root, Nodes(a), Nodes(b), Nodes(c), NodesAround(path)
    {
      && Holds(a, ap) && Holds(b, bp) && Holds(c, cp) && HoldsAround(path, hole)
    }

    method RotateLeft(x: Node, ghost path: P, ghost t: T)
      requires At(path, t) && t.Fork? && t.r.Fork? && x == t.p
      modifies `root, Nodes(t), TopNode(path)
      ensures At(path, RotL(t))
    {
      ghost var a, b, c := t.l, t.r.l, t.r.r;
      assert Holds(t.r, x);
      var y: Node := x.right;
      assert Nodes(t) == Nodes(a) + {x} + (Nodes(b) + {y} + Nodes(c));
      RotateLeftLinks(x, y, a, b, c, path);
    }

    ghost predicate Apart(x: Node, y: Node, a: T, b: T, c: T, path: P)
      reads this`repr
    {
      && nil !in repr && x in repr && y in repr && x != y
      && Nodes(a) <= repr && Nodes(b) <= repr && Nodes(c) <= repr && NodesAround(path) <= repr
      && x !in Nodes(a) && x !in Nodes(b) && x !in Nodes(c) && x !in NodesAround(path)
      && y !in Nodes(a) && y !in Nodes(b) && y !in Nodes(c) && y !in NodesAround(path)
      && RootNode(b) <= Nodes(b) && TopNode(path) <= NodesAround(path)
      && Nodes(a) !! Nodes(b) && Nodes(a) !! Nodes(c) && Nodes(b) !! Nodes(c)
      && Nodes(a) !! NodesAround(path) && Nodes(b) !! NodesAround(path) && Nodes(c) !! NodesAround(path)
    }

    method RotateLeftLinks(x: Node, y: Node, ghost a: T, ghost b: T, ghost c: T, ghost path: P)
      requires Pieces(a, x, b, y, c, y, path, x) && Apart(x, y, a, b, c, path)
      requires x.parent == ParentOf(path) && y.left == Ptr(b) && x.left != null && y.right != null
      modifies `root, x, y, RootNode(b), TopNode(path)
      ensures Pieces(a, x, b, x, c, y, path, y)
      ensures Stores(x, old(x.color), old(x.left), old(x.key), old(x.value), Ptr(b), y)
      ensures Stores(y, old(y.color), x, old(y.key), old(y.value), old(y.right), ParentOf(path))
    {
      hide Holds, HoldsAround, Nodes, NodesAround, Pieces;
      TakeInner(x, y, a, b, c, path);
      Replace(x, y, a, b, c, path);
    }

    /** The subtree between the two rotated nodes changes sides. */
    method TakeInner(x: Node, y: Node, ghost a: T, ghost b: T, ghost c: T, ghost path: P)
      requires Pieces(a, x, b, y, c, y, path, x) && Apart(x, y, a, b, c, path) && y.left == Ptr(b)
      modifies x`right, RootNode(b)`parent
      ensures Pieces(a, x, b, x, c, y, path, x) && x.right == Ptr(b)
    {
      hide HoldsAround, NodesAround;
      assert b.Fork? ==> b.p in Nodes(b) && Holds(b.l, b.p) && Holds(b.r, b.p);
      x.right := y.left;
      if y.left != nil {
        y.left.parent := x;
      }
    }

    method Replace(x: Node, y: Node, ghost a: T, ghost b: T, ghost c: T, ghost path: P)
      requires Pieces(a, x, b, x, c, y, path, x) && Apart(x, y, a, b, c, path) && x.parent == ParentOf(path)
      modifies `root, x`parent, y`parent, y`left, TopNode(path)
      ensures Pieces(a, x, b, x, c, y, path, y)
      ensures y.parent == ParentOf(path) && x.parent == y && y.left == x
    {
      hide Holds, HoldsAround, Nodes, NodesAround;
      y.parent := x.parent;
      Relink(x, y, x.parent, path);
      y.left := x;
      x.parent := y;
    }

    method RotateRight(y: Node, ghost path: P, ghost t: T)
      requires At(path, t) && t.Fork? && t.l.Fork? && y == t.p
      modifies `root, Nodes(t), TopNode(path)
      ensures At(path, RotR(t))
    {
      ghost var a, b, c := t.l.l, t.l.r, t.r;
      assert Holds(t.l, y);
      var x: Node := y.left;
      assert Nodes(t) == (Nodes(a) + {x} + Nodes(b)) + {y} + Nodes(c);
      RotateRightLinks(y, x, a, b, c, path);
    }

    method RotateRightLinks(y: Node, x: Node, ghost a: T, ghost b: T, ghost c: T, ghost path: P)
      requires Pieces(a, x, b, x, c, y, path, y) && Apart(x, y, a, b, c, path)
      requires y.parent == ParentOf(path) && x.right == Ptr(b) && x.left != null && y.right != null
      modifies `root, x, y, RootNode(b), TopNode(path)
      ensures Pieces(a, x, b, y, c, y, path, x)
      ensures Stores(y, old(y.color), Ptr(b), old(y.key), old(y.value), old(y.right), x)
      ensures Stores(x, old(x.color), old(x.left), old(x.key), old(x.value), y, ParentOf(path))
    {
      hide Holds, HoldsAround, Nodes, NodesAround, Pieces;
      TakeInnerRight(y, x, a, b, c, path);
      ReplaceRight(y, x, a, b, c, path);
    }

    method TakeInnerRight(y: Node, x: Node, ghost a: T, ghost b: T, ghost c: T, ghost path: P)
      requires Pieces(a, x, b, x, c, y, path, y) && Apart(x, y, a, b, c, path) && x.right == Ptr(b)
      modifies y`left, RootNode(b)`parent
      ensures Pieces(a, x, b, y, c, y, path, y) && y.left == Ptr(b)
    {
      hide HoldsAround, NodesAround;
      assert b.Fork? ==> b.p in Nodes(b) && Holds(b.l, b.p) && Holds(b.r, b.p);
      y.left := x.right;
      if x.right != nil {
        x.right.parent := y;
      }
    }

    method ReplaceRight(y: Node, x: Node, ghost a: T, ghost b: T, ghost c: T, ghost path: P)
      requires Pieces(a, x, b, y, c, y, path, y) && Apart(x, y, a, b, c, path) && y.parent == ParentOf(path)
      modifies `root, x`parent, y`parent, x`right, TopNode(path)
      ensures Pieces(a, x, b, y, c, y, path, x)
      ensures x.parent == ParentOf(path) && y.parent == x && x.right == y
    {
      hide Holds, HoldsAround, Nodes, NodesAround;
      x.parent := y.parent;
      Relink(y, x, y.parent, path);
      x.right := y;
      y.parent := x;
    }

    // ---- insertion ----

    /** The pointers around the focus. */
    lemma Links(path: P, t: T)
      requires At(path, t)
      ensures t.Fork? ==> Stores(t.p, t.color, Ptr(t.l), t.k, t.v, Ptr(t.r), ParentOf(path)) && t.p in repr
      ensures path.LeftOf? ==> Stores(path.p, path.c, Ptr(t), path.k, path.v, Ptr(path.r), ParentOf(path.up))
      ensures path.RightOf? ==> Stores(path.p, path.c, Ptr(path.l), path.k, path.v, Ptr(t), ParentOf(path.up))
      ensures path.LeftOf? ==> Ptr(path.r) != Ptr(t) || Ptr(t) == nil
      ensures path.RightOf? ==> Ptr(path.l) != Ptr(t) || Ptr(t) == nil
      ensures !path.Top? ==> path.p in repr && ParentOf(path).color == ParentColor(path)
      ensures Ptr(t).color == ColorOf(t) && ParentOf(path).color == ParentColor(path)
      ensures path.Top? ==> root == Ptr(t)
      ensures Nodes(t) <= repr && TopNode(path) <= repr && nil !in repr
    {
      if !path.Top? {
        Up(path, t);
      }
    }

    /** The focus moves to its sibling. */
    ghost function Across(path: P, t: T): P
      requires !path.Top?
    {
      match path
      case LeftOf(c, p, k, v, r, up) => RightOf(c, t, p, k, v, up)
      case RightOf(c, l, p, k, v, up) => LeftOf(c, p, k, v, t, up)
    }

    lemma GoAcross(path: P, t: T)
      requires At(path, t) && !path.Top?
      ensures At(Across(path, t), SiblingOf(path))
      ensures Whole(Across(path, t), SiblingOf(path)) == Whole(path, t)
    {
      Up(path, t);
      if path.LeftOf? {
        DownRight(path.up, Whole(path, t));
      } else {
        DownLeft(path.up, Whole(path, t));
      }
    }

    /** The parent and uncle of z turn black, the grandparent red. */
    method Recolor(z: Node, y: Node, ghost path: P, ghost t: T) returns (g: Node)
      requires At(path, t) && t.Fork? && z == t.p && !path.Top? && !path.up.Top?
      requires Uncle(path).Fork? && y == Uncle(path).p
      modifies repr
      ensures At(path.up.up, Recolored(path, t)) && g == Recolored(path, t).p
    {
      hide Holds, HoldsAround, Nodes, NodesAround, At;
      Links(path, t);
      Up(path, t);
      ghost var w := Whole(path, t);
      Links(path.up, w);
      var p: Node := z.parent;
      SetColor(p, Black, path.up, w);
      w := Paint(w, Black);
      GoAcross(path.up, w);
      Links(Across(path.up, w), SiblingOf(path.up));
      SetColor(y, Black, Across(path.up, w), SiblingOf(path.up));
      Up(Across(path.up, w), Paint(SiblingOf(path.up), Black));
      ghost var top := Whole(Across(path.up, w), Paint(SiblingOf(path.up), Black));
      Links(path.up.up, top);
      g := p.parent;
      SetColor(g, Red, path.up.up, top);
    }

    /** The parent turns black and the grandparent red. */
    method SwapColors(z: Node, ghost path: P, ghost t: T) returns (g: Node)
      requires At(path, t) && t.Fork? && z == t.p && !path.Top? && !path.up.Top?
      modifies repr
      ensures At(path.up.up, Swapped(path, t)) && g == Swapped(path, t).p == path.up.p
    {
      hide Holds, HoldsAround, Nodes, NodesAround, At;
      Links(path, t);
      Up(path, t);
      ghost var w := Whole(path, t);
      Links(path.up, w);
      var p: Node := z.parent;
      SetColor(p, Black, path.up, w);
      Up(path.up, Paint(w, Black));
      Links(path.up.up, Whole(path.up, Paint(w, Black)));
      g := p.parent;
      SetColor(g, Red, path.up.up, Whole(path.up, Paint(w, Black)));
    }

    /** The cases of `rbtree_insert_fixup` with a black uncle, parent on the left. */
    method LiftFromLeft(z0: Node, ghost path0: P, ghost t0: T) returns (z: Node, ghost path: P, ghost t: T)
      requires At(path0, t0) && InsertInv(path0, t0) && t0.Fork? && z0 == t0.p
      requires ParentColor(path0).Red? && path0.up.LeftOf? && ColorOf(Uncle(path0)).Black?
      modifies `root, repr
      ensures At(path, t) && InsertInv(path, t) && t.Fork? && z == t.p
      ensures ParentColor(path).Black? && All(path, t) == All(path0, t0) && Depth(path) < Depth(path0)
    {
      hide Holds, HoldsAround, Nodes, NodesAround, At, InsertInv, All;
      z, path, t := z0, path0, t0;
      PaintedParent(path, t);
      Links(path, t);
      var p: Node := z.parent;
      if z == p.right {
        StraightenLeft(path, t);
        Up(path, t);
        ghost var w := Whole(path, t);
        Links(path.up, w);
        z := p;
        RotateLeft(z, path.up, w);
        w := RotL(w);
        DownLeft(path.up, w);
        path, t := LeftOf(w.color, w.p, w.k, w.v, w.r, path.up), w.l;
      }
      LiftLeft(path, t);
      ghost var s := Swapped(path, t);
      var g := SwapColors(z, path, t);
      Links(path.up.up, s);
      RotateRight(g, path.up.up, s);
      s := RotR(s);
      DownLeft(path.up.up, s);
      path := LeftOf(s.color, s.p, s.k, s.v, s.r, path.up.up);
    }

    /** The same with the parent on the right. */
    method LiftFromRight(z0: Node, ghost path0: P, ghost t0: T) returns (z: Node, ghost path: P, ghost t: T)
      requires At(path0, t0) && InsertInv(path0, t0) && t0.Fork? && z0 == t0.p
      requires ParentColor(path0).Red? && path0.up.RightOf? && ColorOf(Uncle(path0)).Black?
      modifies `root, repr
      ensures At(path, t) && InsertInv(path, t) && t.Fork? && z == t.p
      ensures ParentColor(path).Black? && All(path, t) == All(path0, t0) && Depth(path) < Depth(path0)
    {
      hide Holds, HoldsAround, Nodes, NodesAround, At, InsertInv, All;
      z, path, t := z0, path0, t0;
      PaintedParent(path, t);
      Links(path, t);
      var p: Node := z.parent;
      if z == p.left {
        StraightenRight(path, t);
        Up(path, t);
        ghost var w := Whole(path, t);
        Links(path.up, w);
        z := p;
        RotateRight(z, path.up, w);
        w := RotR(w);
        DownRight(path.up, w);
        path, t := RightOf(w.color, w.l, w.p, w.k, w.v, path.up), w.r;
      }
      LiftRight(path, t);
      ghost var s := Swapped(path, t);
      var g := SwapColors(z, path, t);
      Links(path.up.up, s);
      RotateLeft(g, path.up.up, s);
      s := RotL(s);
      DownRight(path.up.up, s);
      path := RightOf(s.color, s.l, s.p, s.k, s.v, path.up.up);
    }

    lemma ToRoot(path: P, t: T)
      requires At(path, t)
      ensures At(Top, Plug(path, t))
      decreases path
    {
      if !path.Top? {
        Up(path, t);
        ToRoot(path.up, Whole(path, t));
      }
    }

    /** One iteration of `rbtree_insert_fixup`. */
    method InsertStep(z0: Node, ghost path0: P, ghost t0: T) returns (z: Node, ghost path: P, ghost t: T)
      requires At(path0, t0) && InsertInv(path0, t0) && t0.Fork? && z0 == t0.p && ParentColor(path0).Red?
      modifies `root, repr
      ensures At(path, t) && InsertInv(path, t) && t.Fork? && z == t.p
      ensures All(path, t) == All(path0, t0) && Depth(path) < Depth(path0)
    {
      hide Holds, HoldsAround, Nodes, NodesAround, At, InsertInv, All, Depth;
      ghost var w := Whole(path0, t0);
      PaintedParent(path0, t0);
      Links(path0, t0);
      Up(path0, t0);
      Links(path0.up, w);
      GoAcross(path0.up, w);
      Links(Across(path0.up, w), SiblingOf(path0.up));
      path, t := path0.up.up, Recolored(path0, t0);
      var p: Node := z0.parent;
      var g: Node := p.parent;
      if p == g.left {
        var y: Node := g.right;
        if y.color == Red {
          RecoloredKeeps(path0, t0);
          z := Recolor(z0, y, path0, t0);
        } else {
          z, path, t := LiftFromLeft(z0, path0, t0);
        }
      } else {
        var y: Node := g.left;
        if y.color == Red {
          RecoloredKeeps(path0, t0);
          z := Recolor(z0, y, path0, t0);
        } else {
          z, path, t := LiftFromRight(z0, path0, t0);
        }
      }
    }

    /** `rbtree_insert_fixup`. */
    method InsertFixup(z0: Node, ghost path0: P, ghost t0: T) returns (ghost r: T)
      requires At(path0, t0) && InsertInv(path0, t0) && t0.Fork? && z0 == t0.p
      modifies `root, repr
      ensures At(Top, r) && RedBlack(r) && Entries(r) == All(path0, t0)
    {
      hide Holds, HoldsAround, Nodes, NodesAround, At, InsertInv, All, Depth;
      var z := z0;
      ghost var path, t := path0, t0;
      Links(path, t);
      while (z.parent as Node).color == Red
        invariant At(path, t) && InsertInv(path, t) && t.Fork? && z == t.p && All(path, t) == All(path0, t0)
        invariant z.parent == ParentOf(path) && ParentOf(path).color == ParentColor(path)
        decreases Depth(path)
      {
        z, path, t := InsertStep(z, path, t);
        Links(path, t);
      }
      InsertDone(path, t);
      ToRoot(path, t);
      r := Plug(path, t);
      PlugFork(path, t);
      Links(Top, r);
      SetColor(root, Black, Top, r);
      r := Paint(r, Black);
    }

    // ---- deletion ----

    /** A changed sibling, seen from the focus again. */
    lemma FromSibling(path: P, t: T, s: T)
      requires !path.Top? && At(Across(path, t), s)
      ensures At(SetSibling(path, s), t)
    {
      Up(Across(path, t), s);
      var w := Whole(Across(path, t), s);
      if path.LeftOf? {
        DownLeft(path.up, w);
      } else {
        DownRight(path.up, w);
      }
    }

    /** Below its root, the tree's focus is not the root. */
    lemma RootAbove(path: P, t: T)
      requires HoldsAround(path, Ptr(t)) && !path.Top?
      ensures root in NodesAround(path)
      decreases path
    {
      if !path.up.Top? {
        RootAbove(path.up, Whole(path, t));
      }
    }

    lemma FocusIsRoot(path: P, t: T)
      requires At(path, t)
      ensures Ptr(t) == root <==> path.Top?
    {
      if !path.Top? {
        RootAbove(path, t);
      }
    }

    /** Case 1 of `rbtree_delete_fixup`, focus on the left: the red sibling moves above the
        parent. */
    method RaiseRight(p: Node, w: Node, ghost path: P, ghost t: T)
      requires At(path, t) && path.LeftOf? && p == path.p && path.r.Fork? && w == path.r.p && path.r.l.Fork?
      modifies `root, repr
      ensures At(path.up, RotL(Fork(Red, t, path.p, path.k, path.v, Paint(path.r, Black))))
    {
      hide Holds, HoldsAround, Nodes, NodesAround, At;
      GoAcross(path, t);
      Links(Across(path, t), path.r);
      SetColor(w, Black, Across(path, t), path.r);
      FromSibling(path, t, Paint(path.r, Black));
      ghost var path1 := SetSibling(path, Paint(path.r, Black));
      Up(path1, t);
      Links(path.up, Whole(path1, t));
      SetColor(p, Red, path.up, Whole(path1, t));
      RotateLeft(p, path.up, Paint(Whole(path1, t), Red));
    }

    method RaiseLeft(p: Node, w: Node, ghost path: P, ghost t: T)
      requires At(path, t) && path.RightOf? && p == path.p && path.l.Fork? && w == path.l.p && path.l.r.Fork?
      modifies `root, repr
      ensures At(path.up, RotR(Fork(Red, Paint(path.l, Black), path.p, path.k, path.v, t)))
    {
      hide Holds, HoldsAround, Nodes, NodesAround, At;
      GoAcross(path, t);
      Links(Across(path, t), path.l);
      SetColor(w, Black, Across(path, t), path.l);
      FromSibling(path, t, Paint(path.l, Black));
      ghost var path1 := SetSibling(path, Paint(path.l, Black));
      Up(path1, t);
      Links(path.up, Whole(path1, t));
      SetColor(p, Red, path.up, Whole(path1, t));
      RotateRight(p, path.up, Paint(Whole(path1, t), Red));
    }

    /** Case 3: the near child turns black, the sibling red, and the near child takes its
        place. */
    method TurnRight(w: Node, ghost path: P, ghost t: T)
      requires At(path, t) && path.LeftOf? && path.r.Fork? && path.r.l.Fork? && w == path.r.p
      modifies `root, repr
      ensures At(SetSibling(path, Turned(path)), t)
    {
      hide Holds, HoldsAround, Nodes, NodesAround, At;
      ghost var across, s := Across(path, t), path.r;
      GoAcross(path, t);
      Links(across, s);
      DownLeft(across, s);
      ghost var inner := LeftOf(s.color, s.p, s.k, s.v, s.r, across);
      Links(inner, s.l);
      var n: Node := w.left;
      SetColor(n, Black, inner, s.l);
      Up(inner, Paint(s.l, Black));
      s := s.(l := Paint(s.l, Black));
      Links(across, s);
      SetColor(w, Red, across, s);
      s := Paint(s, Red);
      Links(across, s);
      RotateRight(w, across, s);
      FromSibling(path, t, RotR(s));
    }

    method TurnLeft(w: Node, ghost path: P, ghost t: T)
      requires At(path, t) && path.RightOf? && path.l.Fork? && path.l.r.Fork? && w == path.l.p
      modifies `root, repr
      ensures At(SetSibling(path, Turned(path)), t)
    {
      hide Holds, HoldsAround, Nodes, NodesAround, At;
      ghost var across, s := Across(path, t), path.l;
      GoAcross(path, t);
      Links(across, s);
      DownRight(across, s);
      ghost var inner := RightOf(s.color, s.l, s.p, s.k, s.v, across);
      Links(inner, s.r);
      var n: Node := w.right;
      SetColor(n, Black, inner, s.r);
      Up(inner, Paint(s.r, Black));
      s := s.(r := Paint(s.r, Black));
      Links(across, s);
      SetColor(w, Red, across, s);
      s := Paint(s, Red);
      Links(across, s);
      RotateLeft(w, across, s);
      FromSibling(path, t, RotL(s));
    }

    /** Case 4: the sibling takes the parent's colour, parent and far child turn black, and
        the parent rotates towards the focus. */
    method SettleRight(p: Node, w: Node, ghost path: P, ghost t: T)
      requires At(path, t) && path.LeftOf? && path.r.Fork? && path.r.r.Fork? && w == path.r.p && p == path.p
      modifies `root, repr
      ensures At(path.up, Settled(path, t))
    {
      hide Holds, HoldsAround, Nodes, NodesAround, At;
      ghost var across, s := Across(path, t), path.r;
      Links(path, t);
      GoAcross(path, t);
      Links(across, s);
      SetColor(w, p.color, across, s);
      s := Paint(s, path.c);
      FromSibling(path, t, s);
      ghost var path1 := SetSibling(path, s);
      Up(path1, t);
      Links(path.up, Whole(path1, t));
      SetColor(p, Black, path.up, Whole(path1, t));
      ghost var whole := Paint(Whole(path1, t), Black);
      DownRight(path.up, whole);
      ghost var right := RightOf(Black, t, path.p, path.k, path.v, path.up);
      Links(right, s);
      DownRight(right, s);
      ghost var far := RightOf(s.color, s.l, s.p, s.k, s.v, right);
      Links(far, s.r);
      SetColor(w.right, Black, far, s.r);
      Up(far, Paint(s.r, Black));
      s := s.(r := Paint(s.r, Black));
      Up(right, s);
      Links(path.up, Whole(right, s));
      RotateLeft(p, path.up, Whole(right, s));
    }

    method SettleLeft(p: Node, w: Node, ghost path: P, ghost t: T)
      requires At(path, t) && path.RightOf? && path.l.Fork? && path.l.l.Fork? && w == path.l.p && p == path.p
      modifies `root, repr
      ensures At(path.up, Settled(path, t))
    {
      hide Holds, HoldsAround, Nodes, NodesAround, At;
      ghost var across, s := Across(path, t), path.l;
      Links(path, t);
      GoAcross(path, t);
      Links(across, s);
      SetColor(w, p.color, across, s);
      s := Paint(s, path.c);
      FromSibling(path, t, s);
      ghost var path1 := SetSibling(path, s);
      Up(path1, t);
      Links(path.up, Whole(path1, t));
      SetColor(p, Black, path.up, Whole(path1, t));
      ghost var whole := Paint(Whole(path1, t), Black);
      DownLeft(path.up, whole);
      ghost var left := LeftOf(Black, path.p, path.k, path.v, t, path.up);
      Links(left, s);
      DownLeft(left, s);
      ghost var far := LeftOf(s.color, s.p, s.k, s.v, s.r, left);
      Links(far, s.l);
      SetColor(w.left, Black, far, s.l);
      Up(far, Paint(s.l, Black));
      s := s.(l := Paint(s.l, Black));
      Up(left, s);
      Links(path.up, Whole(left, s));
      RotateRight(p, path.up, Whole(left, s));
    }

    /** What is left for the loop to do. */
    ghost function Left(path: P, t: T): nat {
      if ColorOf(t).Red? then 0 else 1 + Depth(path)
    }

    /** One iteration of `rbtree_delete_fixup` with the focus on the left. */
    method FixFromLeft(x: Node, ghost path0: P, ghost t0: T) returns (z: Node, ghost path: P, ghost t: T)
      requires At(path0, t0) && DeleteInv(path0, t0) && path0.LeftOf? && ColorOf(t0).Black?
      requires x == Ptr(t0) && x.parent == path0.p
      modifies `root, repr
      ensures At(path, t) && DeleteInv(path, t) && z == Ptr(t) && Left(path, t) < Left(path0, t0)
      ensures All(path, t) == All(path0, t0) && (path.Top? || z.parent == path.p)
    {
      hide Holds, HoldsAround, Nodes, NodesAround, At, DeleteInv, All;
      path, t := path0, t0;
      Links(path, t);
      SiblingIsFork(path, t);
      var p: Node := x.parent;
      var w: Node := p.right;
      GoAcross(path, t);
      Links(Across(path, t), path.r);
      if w.color == Red {
        RedSibling(path, t);
        RaiseRight(p, w, path, t);
        ghost var s := RotL(Fork(Red, t, path.p, path.k, path.v, Paint(path.r, Black)));
        DownLeft(path.up, s);
        ghost var up := LeftOf(s.color, s.p, s.k, s.v, s.r, path.up);
        DownLeft(up, s.l);
        path := LeftOf(Red, path.p, path.k, path.v, s.l.r, up);
        Links(path, t);
        w := p.right;
      }
      z, path, t := PassOrSettleLeft(x, p, w, path, t);
    }

    /** One iteration of `rbtree_delete_fixup` with the focus on the right. */
    method FixFromRight(x: Node, ghost path0: P, ghost t0: T) returns (z: Node, ghost path: P, ghost t: T)
      requires At(path0, t0) && DeleteInv(path0, t0) && path0.RightOf? && ColorOf(t0).Black?
      requires x == Ptr(t0) && x.parent == path0.p
      modifies `root, repr
      ensures At(path, t) && DeleteInv(path, t) && z == Ptr(t) && Left(path, t) < Left(path0, t0)
      ensures All(path, t) == All(path0, t0) && (path.Top? || z.parent == path.p)
    {
      hide Holds, HoldsAround, Nodes, NodesAround, At, DeleteInv, All;
      path, t := path0, t0;
      Links(path, t);
      SiblingIsFork(path, t);
      var p: Node := x.parent;
      var w: Node := p.left;
      GoAcross(path, t);
      Links(Across(path, t), path.l);
      if w.color == Red {
        RedSibling(path, t);
        RaiseLeft(p, w, path, t);
        ghost var s := RotR(Fork(Red, Paint(path.l, Black), path.p, path.k, path.v, t));
        DownRight(path.up, s);
        ghost var up := RightOf(s.color, s.l, s.p, s.k, s.v, path.up);
        DownRight(up, s.r);
        path := RightOf(Red, s.r.l, path.p, path.k, path.v, up);
        Links(path, t);
        w := p.left;
      }
      z, path, t := PassOrSettleRight(x, p, w, path, t);
    }

    /** The sibling's pointers and colours. */
    lemma SiblingLinks(w: Node, path: P, t: T)
      requires At(path, t) && !path.Top? && SiblingOf(path).Fork? && w == Ptr(SiblingOf(path))
      ensures w in repr && w.color == SiblingOf(path).color
      ensures w.left == Ptr(SiblingOf(path).l) && Ptr(SiblingOf(path).l).color == ColorOf(SiblingOf(path).l)
      ensures w.right == Ptr(SiblingOf(path).r) && Ptr(SiblingOf(path).r).color == ColorOf(SiblingOf(path).r)
    {
      GoAcross(path, t);
      var s := SiblingOf(path);
      DownLeft(Across(path, t), s);
      DownRight(Across(path, t), s);
    }

    /** Cases 2 to 4, once the sibling is black. */
    method PassOrSettleLeft(x: Node, p: Node, w0: Node, ghost path0: P, ghost t0: T)
      returns (z: Node, ghost path: P, ghost t: T)
      requires At(path0, t0) && DeleteInv(path0, t0) && path0.LeftOf? && ColorOf(t0).Black?
      requires ColorOf(path0.r).Black? && p == path0.p && w0 == Ptr(path0.r) && x == Ptr(t0) && x.parent == p
      modifies `root, repr
      ensures At(path, t) && DeleteInv(path, t) && z == Ptr(t)
      ensures path.Top? || (path == path0.up && ColorOf(t) == path0.c)
      ensures All(path, t) == All(path0, t0) && (path.Top? || z.parent == path.p)
    {
      hide Holds, HoldsAround, Nodes, NodesAround, At, DeleteInv, All;
      path, t := path0, t0;
      var w := w0;
      Links(path, t);
      SiblingIsFork(path, t);
      GoAcross(path, t);
      SiblingLinks(w, path, t);
      if (w.left as Node).color == Black && (w.right as Node).color == Black {
        BlackSibling(path, t);
        SetColor(w, Red, Across(path, t), path.r);
        FromSibling(path, t, Paint(path.r, Red));
        Up(SetSibling(path, Paint(path.r, Red)), t);
        t := Whole(SetSibling(path, Paint(path.r, Red)), t);
        path := path.up;
        z := p;
        Links(path, t);
      } else {
        if (w.right as Node).color == Black {
          NearRed(path, t);
          TurnRight(w, path, t);
          path := SetSibling(path, Turned(path));
          Links(path, t);
          w := p.right;
          SiblingLinks(w, path, t);
        }
        FarRed(path, t);
        SettleRight(p, w, path, t);
        ToRoot(path.up, Settled(path, t));
        t := Plug(path.up, Settled(path, t));
        path := Top;
        z := root;
        Links(path, t);
      }
    }

    method PassOrSettleRight(x: Node, p: Node, w0: Node, ghost path0: P, ghost t0: T)
      returns (z: Node, ghost path: P, ghost t: T)
      requires At(path0, t0) && DeleteInv(path0, t0) && path0.RightOf? && ColorOf(t0).Black?
      requires ColorOf(path0.l).Black? && p == path0.p && w0 == Ptr(path0.l) && x == Ptr(t0) && x.parent == p
      modifies `root, repr
      ensures At(path, t) && DeleteInv(path, t) && z == Ptr(t)
      ensures path.Top? || (path == path0.up && ColorOf(t) == path0.c)
      ensures All(path, t) == All(path0, t0) && (path.Top? || z.parent == path.p)
    {
      hide Holds, HoldsAround, Nodes, NodesAround, At, DeleteInv, All;
      path, t := path0, t0;
      var w := w0;
      Links(path, t);
      SiblingIsFork(path, t);
      GoAcross(path, t);
      SiblingLinks(w, path, t);
      if (w.left as Node).color == Black && (w.right as Node).color == Black {
        BlackSibling(path, t);
        SetColor(w, Red, Across(path, t), path.l);
        FromSibling(path, t, Paint(path.l, Red));
        Up(SetSibling(path, Paint(path.l, Red)), t);
        t := Whole(SetSibling(path, Paint(path.l, Red)), t);
        path := path.up;
        z := p;
        Links(path, t);
      } else {
        if (w.left as Node).color == Black {
          NearRed(path, t);
          TurnLeft(w, path, t);
          path := SetSibling(path, Turned(path));
          Links(path, t);
          w := p.left;
          SiblingLinks(w, path, t);
        }
        FarRed(path, t);
        SettleLeft(p, w, path, t);
        ToRoot(path.up, Settled(path, t));
        t := Plug(path.up, Settled(path, t));
        path := Top;
        z := root;
        Links(path, t);
      }
    }

    /** `rbtree_delete_fixup`. */
    method DeleteFixup(x: Node, ghost path0: P, ghost t0: T) returns (ghost r: T)
      requires At(path0, t0) && DeleteInv(path0, t0) && x == Ptr(t0) && x.parent == ParentOf(path0)
      modifies `root, repr, nil`color
      ensures At(Top, r) && RedBlack(r) && Entries(r) == All(path0, t0)
    {
      hide Holds, HoldsAround, Nodes, NodesAround, At, DeleteInv, All;
      var z := x;
      ghost var path, t := path0, t0;
      Links(path, t);
      FocusIsRoot(path, t);
      while z != root && z.color == Black
        invariant At(path, t) && DeleteInv(path, t) && z == Ptr(t) && All(path, t) == All(path0, t0)
        invariant (path.Top? || z.parent == path.p) && (z == root <==> path.Top?) && z.color == ColorOf(t)
        decreases Left(path, t)
      {
        Links(path, t);
        SiblingIsFork(path, t);
        SiblingLinks(SiblingOf(path).p, path, t);
        if z == (z.parent as Node).left {
          z, path, t := FixFromLeft(z, path, t);
        } else {
          z, path, t := FixFromRight(z, path, t);
        }
        Links(path, t);
        FocusIsRoot(path, t);
      }
      Links(path, t);
      DeleteDone(path, t);
      Blacken(z, path, t);
      r := Plug(path, Paint(t, Black));
      ToRoot(path, Paint(t, Black));
    }

    /** The loop's last assignment, which may meet the sentinel. */
    method Blacken(x: Node, ghost path: P, ghost t: T)
      requires At(path, t) && x == Ptr(t)
      modifies x`color
      ensures At(path, Paint(t, Black))
    {
      x.color := Black;
    }

    // ---- positions ----

    lemma Ascend(down: P, base: P, t: T)
      requires At(Extend(down, base), t)
      ensures At(base, Plug(down, t))
      decreases down
    {
      if !down.Top? {
        Up(Extend(down, base), t);
        assert Whole(Extend(down, base), t) == Whole(down, t);
        Ascend(down.up, base, Whole(down, t));
      }
    }

    lemma Descend(down: P, base: P, t: T)
      requires At(base, Plug(down, t))
      ensures At(Extend(down, base), t)
      decreases down
    {
      if !down.Top? {
        Descend(down.up, base, Whole(down, t));
        if down.LeftOf? {
          DownLeft(Extend(down.up, base), Whole(down, t));
        } else {
          DownRight(Extend(down.up, base), Whole(down, t));
        }
      }
    }

    /** `rbtree_mini`: the first node of a subtree. */
    method Mini(x: Node, ghost path: P, ghost t: T) returns (y: Node, ghost down: P, ghost s: T)
      requires At(path, t) && t.Fork? && x == t.p
      ensures s.Fork? && s.l.Leaf? && y == s.p && AllLeft(down) && Plug(down, s) == t
      ensures At(Extend(down, path), s)
      ensures Entries(t)[0] == (y.key, y.value)
    {
      hide Holds, HoldsAround, Nodes, NodesAround, At;
      y, down, s := x, Top, t;
      Links(path, t);
      while y.left != nil
        invariant s.Fork? && y == s.p && AllLeft(down) && Plug(down, s) == t && At(Extend(down, path), s)
        invariant y.left == Ptr(s.l) && y.key == s.k && y.value == s.v && nil !in repr
        decreases s
      {
        DownLeft(Extend(down, path), s);
        y := y.left;
        down, s := LeftOf(s.color, s.p, s.k, s.v, s.r, down), s.l;
        Links(Extend(down, path), s);
      }
      Links(Extend(down, path), s);
      if s.l.Fork? {
        DownLeft(Extend(down, path), s);
        Links(LeftOf(s.color, s.p, s.k, s.v, s.r, Extend(down, path)), s.l);
      }
      FirstEntry(down, s);
    }

    /** `rbtree_successor`: the node of the next entry, or nil after the last one. */
    method Successor(x0: Node, ghost path0: P, ghost t0: T) returns (y: Node, ghost down: P, ghost s: T)
      requires At(path0, t0) && t0.Fork? && x0 == t0.p
      ensures Upper(path0, t0) == [] ==> y == nil
      ensures Upper(path0, t0) != [] ==> y != nil && Upper(path0, t0)[0] == (y.key, y.value)
      ensures t0.r.Fork? ==>
                && s.Fork? && s.l.Leaf? && y == s.p && AllLeft(down) && Plug(down, s) == t0.r
                && At(Extend(down, RightOf(t0.color, t0.l, t0.p, t0.k, t0.v, path0)), s)
    {
      hide Holds, HoldsAround, Nodes, NodesAround, At;
      down, s := Top, Leaf;
      Links(path0, t0);
      DownRight(path0, t0);
      ghost var base := RightOf(t0.color, t0.l, t0.p, t0.k, t0.v, path0);
      Links(base, t0.r);
      y := x0.parent;
      if x0.right != nil {
        y, down, s := Mini(x0.right, base, t0.r);
        Links(Extend(down, base), s);
        return;
      }
      var x := x0;
      ghost var path, t := path0, t0;
      while y != nil && x == y.right
        invariant At(path, t) && t.Fork? && x == t.p && y == ParentOf(path) && After(path) == After(path0)
        decreases path
      {
        Links(path, t);
        Up(path, t);
        x, t, path := y, Whole(path, t), path.up;
        Links(path, t);
        y := y.parent;
      }
      Links(path, t);
    }

    // ---- linking and unlinking ----

    ghost predicate Valid()
      reads this, repr, nil`color
    {
      && Nodes(tree) == repr && At(Top, tree) && RedBlack(tree) && Sorted(Entries(tree))
    }

    ghost method Becomes(r: T)
      requires At(Top, r) && RedBlack(r) && Sorted(Entries(r))
      modifies `tree
      ensures Valid() && tree == r
    {
      tree := r;
    }

    ghost function Contents(): Contents
      reads this`tree
    {
      MapOf(Entries(tree))
    }

    /** The position of a key, or the leaf where it belongs. */
    ghost predicate Finds(key: cstring, path: P, t: T)
      reads this, nil`color, repr, Nodes(t), NodesAround(path)
    {
      && At(path, t) && Plug(path, t) == tree
      && (if t.Fork? then t.k == key else Between(path, key))
    }

    lemma Found(key: cstring, path: P, t: T)
      requires Sorted(Entries(tree)) && Finds(key, path, t)
      ensures All(path, t) == Entries(tree)
      ensures t.Fork? <==> key in Contents()
      ensures t.Fork? ==> Contents()[key] == t.v
    {
      hide Holds, HoldsAround, Nodes, NodesAround, At, Plug, MapOf, Sorted, Between;
      EntriesPlug(path, t);
      EntryAt(path, t, key);
    }

    /** `rbtree_search`: the node of a key, or nil. */
    method Search(key: cstring) returns (node: Node, ghost path: P, ghost t: T)
      requires Valid()
      ensures Finds(key, path, t) && node == Ptr(t)
      ensures node != nil <==> key in Contents()
      ensures node != nil ==> node in repr && t.Fork? && node.value == Contents()[key]
    {
      hide Holds, HoldsAround, Nodes, NodesAround, At;
      node := root;
      path, t := Top, tree;
      Links(path, t);
      while node != nil
        invariant At(path, t) && node == Ptr(t) && Plug(path, t) == tree && Between(path, key)
        invariant Sorted(All(path, t)) && Valid()
        decreases t
      {
        Links(path, t);
        BetweenDown(path, t, key);
        Trichotomy(key, node.key);
        if StrCmp(key, node.key) < 0 {
          DownLeft(path, t);
          AllUp(LeftOf(t.color, t.p, t.k, t.v, t.r, path), t.l);
          node := node.left;
          path, t := LeftOf(t.color, t.p, t.k, t.v, t.r, path), t.l;
        } else if StrCmp(key, node.key) > 0 {
          DownRight(path, t);
          AllUp(RightOf(t.color, t.l, t.p, t.k, t.v, path), t.r);
          node := node.right;
          path, t := RightOf(t.color, t.l, t.p, t.k, t.v, path), t.r;
        } else {
          Found(key, path, t);
          return;
        }
      }
      Links(path, t);
      Found(key, path, t);
    }

    /** The link from the parent, chosen by comparing keys. */
    method Attach(z: Node, y: Node, ghost path: P)
      requires HoldsAround(path, nil) && y == ParentOf(path) && Between(path, z.key)
      requires nil !in NodesAround(path) && z !in NodesAround(path)
      modifies `root, TopNode(path)
      ensures HoldsAround(path, z)
    {
      assert !path.Top? ==> HoldsAround(path.up, path.p);
      if !path.Top? {
        Trichotomy(z.key, path.k);
      }
      assert path.LeftOf? ==> After(path)[0] == (path.k, path.v);
      assert path.RightOf? ==> Before(path)[|Before(path)| - 1] == (path.k, path.v);
      if y == nil {
        root := z;
      } else if StrCmp(z.key, y.key) < 0 {
        y.left := z;
      } else {
        y.right := z;
      }
    }

    /** A new red node takes the place of a leaf. */
    method LinkNew(z: Node, y: Node, ghost path: P)
      requires At(path, Leaf) && y == ParentOf(path) && z !in repr && z != nil && Between(path, z.key)
      modifies `root, `repr, z`parent, z`left, z`right, z`color, TopNode(path)
      ensures At(path, Fork(Red, Leaf, z, z.key, z.value, Leaf)) && repr == old(repr) + {z}
    {
      hide HoldsAround, Between;
      z.parent := y;
      Attach(z, y, path);
      z.left := nil;
      z.right := nil;
      z.color := Red;
      repr := repr + {z};
      ghost var t := Fork(Red, Leaf, z, z.key, z.value, Leaf);
      assert Nodes(t) == {z};
      assert HoldsAround(path, z);
      assert Holds(t, y);
    }

    /** `rbtree_insert`: links z unless its key is already there. */
    method Insert(z: Node)
      requires Valid() && z !in repr && z != nil
      modifies `root, `tree, `repr, repr, z
      ensures Valid()
      ensures old(z.key) in old(Contents()) ==> tree == old(tree) && repr == old(repr)
      ensures old(z.key) !in old(Contents()) ==>
                repr == old(repr) + {z} && Contents() == old(Contents())[old(z.key) := old(z.value)]
    {
      hide Holds, HoldsAround, Nodes, NodesAround, At, InsertInv, All, MapOf;
      var y := nil;
      var x := root;
      ghost var path, t := Top, tree;
      ghost var key := z.key;
      Links(path, t);
      TopAll(t);
      while x != nil
        invariant At(path, t) && x == Ptr(t) && y == ParentOf(path) && Plug(path, t) == tree
        invariant Between(path, key) && Sorted(All(path, t))
        modifies {}
        decreases t
      {
        Links(path, t);
        BetweenDown(path, t, key);
        Trichotomy(key, x.key);
        y := x;
        if StrCmp(z.key, x.key) < 0 {
          DownLeft(path, t);
          AllUp(LeftOf(t.color, t.p, t.k, t.v, t.r, path), t.l);
          x := x.left;
          path, t := LeftOf(t.color, t.p, t.k, t.v, t.r, path), t.l;
        } else if StrCmp(z.key, x.key) > 0 {
          DownRight(path, t);
          AllUp(RightOf(t.color, t.l, t.p, t.k, t.v, path), t.r);
          x := x.right;
          path, t := RightOf(t.color, t.l, t.p, t.k, t.v, path), t.r;
        } else {
          Found(key, path, t);
          return;
        }
      }
      Links(path, t);
      Found(key, path, t);
      ghost var e := (key, z.value);
      InsertFits(path, z, key, z.value);
      LinkNew(z, y, path);
      ghost var r := InsertFixup(z, path, Fork(Red, Leaf, z, e.0, e.1, Leaf));
      Becomes(r);
    }

    /** Unlinking y: its only child, or the sentinel, takes its place under its parent. */
    method Splice(y: Node, x: Node, ghost path: P, ghost t: T)
      requires At(path, t) && OneChild(t) && y == t.p && x == Ptr(Child(t))
      modifies `root, `repr, x`parent, TopNode(path)
      ensures At(path, Child(t)) && x.parent == ParentOf(path) && repr == old(repr) - {y} && y in old(repr)
    {
      hide HoldsAround;
      ghost var c := Child(t);
      assert Holds(c, y);
      assert c.Fork? ==> c.p in Nodes(c) && Holds(c.l, c.p) && Holds(c.r, c.p);
      x.parent := y.parent;
      Relink(y, x, y.parent, path);
      repr := repr - {y};
      assert Nodes(t) == Nodes(c) + {y};
      assert Holds(c, ParentOf(path));
      assert HoldsAround(path, x);
    }

    method SetPayload(z: Node, k: cstring, v: Value, ghost path: P, ghost t: T)
      requires At(path, t) && t.Fork? && z == t.p
      modifies z`key, z`value
      ensures At(path, t.(k := k, v := v)) && z.key == k && z.value == v
    {
      z.key, z.value := k, v;
    }

    /** The unlinked successor y and the node z exchange their keys and values. */
    method SwapPayload(z: Node, y: Node, ghost down: P, ghost base: P, ghost t: T)
      requires base.RightOf? && z == base.p && At(Extend(down, base), t) && y !in repr && y != nil && y != z
      modifies z`key, z`value, y`key, y`value
      ensures At(Extend(down, Repaid(base, old(y.key), old(y.value))), t)
      ensures y.key == base.k && y.value == base.v
    {
      hide Holds, HoldsAround, Nodes, NodesAround, At;
      ghost var below, k, v := Plug(down, t), y.key, y.value;
      Ascend(down, base, t);
      Up(base, below);
      Links(base.up, Whole(base, below));
      var key, value := z.key, z.value;
      SetPayload(z, y.key, y.value, base.up, Whole(base, below));
      DownRight(base.up, Whole(Repaid(base, k, v), below));
      Descend(down, Repaid(base, k, v), t);
      SetOutside(y, key, value, Extend(down, Repaid(base, k, v)), t);
    }

    method SetOutside(y: Node, k: cstring, v: Value, ghost path: P, ghost t: T)
      requires At(path, t) && y !in repr && y != nil
      modifies y`key, y`value
      ensures At(path, t) && y.key == k && y.value == v
    {
      y.key, y.value := k, v;
    }

    /** The children of the focus. */
    lemma Kids(path: P, t: T)
      requires At(path, t) && t.Fork?
      ensures Stores(t.p, t.color, Ptr(t.l), t.k, t.v, Ptr(t.r), ParentOf(path)) && t.p in repr && nil !in repr
      ensures t.l.Leaf? <==> Ptr(t.l) == nil
      ensures t.r.Leaf? <==> Ptr(t.r) == nil
      ensures {t.p} + RootNode(t.l) + RootNode(t.r) + TopNode(path) <= repr
      ensures t.p !in Nodes(t.r) && t.p !in TopNode(path) && (OneChild(t) ==> Ptr(Child(t)) != t.p)
    {
    }

    /** The node to unlink: z itself, or its successor if it has two children; and the
        position of that node once the payloads are exchanged. */
    method Victim(z: Node, ghost path: P, ghost t: T)
      returns (y: Node, ghost py: P, ghost ty: T, ghost down: P)
      requires At(path, t) && t.Fork? && z == t.p && RedBlack(Plug(path, t))
      ensures At(py, ty) && OneChild(ty) && y == ty.p && y in repr
      ensures y == z ==> py == path && ty == t
      ensures y != z ==> py == Extend(down, RightOf(t.color, t.l, t.p, t.k, t.v, path))
      ensures var after := if y == z then py
                           else Extend(down, Repaid(RightOf(t.color, t.l, t.p, t.k, t.v, path), ty.k, ty.v));
              Ready(after, Child(ty), ty.color) && All(after, Child(ty)) == Lower(path, t) + Upper(path, t)
    {
      hide Holds, HoldsAround, Nodes, NodesAround, At, All, Fits, Lower, Upper, Ready;
      hide Entries, Plug, RedBlack, AllLeft;
      FitsAnywhere(path, t);
      Unlinked(path, t);
      Kids(path, t);
      py, ty, down := path, t, Top;
      if z.left == nil || z.right == nil {
        y := z;
      } else {
        y, down, ty := Successor(z, path, t);
        py := Extend(down, RightOf(t.color, t.l, t.p, t.k, t.v, path));
        UnlinkedBelow(path, t, down, ty);
        Below(down, ty);
      }
      Kids(py, ty);
    }

    /** A node found below another one is a different node. */
    lemma Below(down: P, s: T)
      requires s.Fork?
      ensures s.p in Nodes(Plug(down, s))
    {
      Inside(down, s);
    }

    lemma Inside(down: P, s: T)
      ensures Nodes(s) <= Nodes(Plug(down, s))
      decreases down
    {
      if !down.Top? {
        Inside(down.up, Whole(down, s));
      }
    }

    /** `rbtree_delete`: unlinks the entry of z and returns a node that carries it. */
    method Delete(z: Node, ghost path: P, ghost t: T) returns (y: Node)
      requires Valid() && At(path, t) && Plug(path, t) == tree && t.Fork? && z == t.p
      modifies `root, `tree, `repr, repr, nil`parent, nil`color
      ensures Valid() && y in old(repr) && repr == old(repr) - {y}
      ensures y.key == t.k && y.value == t.v && Entries(tree) == Lower(path, t) + Upper(path, t)
    {
      hide Holds, HoldsAround, Nodes, NodesAround, At, DeleteInv, All, Lower, Upper;
      hide Entries, Plug, Sorted, RedBlack, MapOf;
      Removed(path, t);
      Kids(path, t);
      ghost var py, ty, down;
      y, py, ty, down := Victim(z, path, t);
      Kids(py, ty);
      var x := nil;
      if y.left != nil {
        x := y.left;
      } else if y.right != nil {
        x := y.right;
      }
      Splice(y, x, py, ty);
      if y != z {
        ghost var base := RightOf(t.color, t.l, t.p, t.k, t.v, path);
        SwapPayload(z, y, down, base, Child(ty));
        py := Extend(down, Repaid(base, ty.k, ty.v));
      }
      ghost var r := Rebalance(x, y.color, py, Child(ty));
      Becomes(r);
    }

    /** The end of a deletion: the fixup, if the unlinked node was black. */
    method Rebalance(x: Node, color: Color, ghost path: P, ghost t: T) returns (ghost r: T)
      requires At(path, t) && Ready(path, t, color) && x == Ptr(t) && x.parent == ParentOf(path)
      modifies `root, repr, nil`color
      ensures At(Top, r) && RedBlack(r) && Entries(r) == All(path, t)
    {
      hide Holds, HoldsAround, Nodes, NodesAround, At, DeleteInv, All, Entries, Plug, RedBlack;
      r := Plug(path, t);
      EntriesPlug(path, t);
      if color == Black {
        r := DeleteFixup(x, path, t);
      } else {
        ToRoot(path, t);
      }
    }

    // ---- the operations of the R* commands ----

    /** Overwriting the value of the node in focus. */
    method Revalue(node: Node, value: Value, ghost path: P, ghost t: T)
      requires Valid() && At(path, t) && Plug(path, t) == tree && t.Fork? && node == t.p
      modifies `tree, node`value
      ensures Valid() && Contents() == old(Contents())[t.k := value]
    {
      hide Holds, HoldsAround, Nodes, NodesAround, At, Plug, Entries, Sorted, RedBlack, MapOf;
      Updated(path, t, value);
      RevaluedRedBlack(path, t, value);
      SetValue(node, value, path, t);
      ToRoot(path, t.(v := value));
      Becomes(Plug(path, t.(v := value)));
    }

    method SetValue(z: Node, v: Value, ghost path: P, ghost t: T)
      requires At(path, t) && t.Fork? && z == t.p
      modifies z`value
      ensures At(path, t.(v := v))
    {
      z.value := v;
    }

    /** `kvs_rbtree_set`. */
    method Set(key: cstring, value: Value) returns (ret: int)
      requires Valid()
      modifies `root, `tree, `repr, repr
      ensures Valid() && fresh(repr - old(repr))
      ensures ret == SetCode(old(Contents()), key, value) && Contents() == old(Contents())[key := value]
    {
      hide Holds, HoldsAround, Nodes, NodesAround, At, Plug, Entries, Sorted, RedBlack, MapOf;
      var existing, path, t := Search(key);
      if existing != nil {
        StrCmpZero(existing.value, value);
        if StrCmp(existing.value, value) == 0 {
          assert Contents() == Contents()[key := value];
          return 1;
        }
        Revalue(existing, value, path, t);
        return 0;
      }
      var newNode := new Node(key, value);
      Insert(newNode);
      return 0;
    }

    /** `kvs_rbtree_get`. */
    method Get(key: cstring) returns (r: Lookup)
      requires Valid()
      ensures r == Looked(Contents(), key)
    {
      var node, _, _ := Search(key);
      r := if node == nil then Null else Text(node.value);
    }

    /** `kvs_rbtree_del`. */
    method Del(key: cstring) returns (ret: int)
      requires Valid()
      modifies `root, `tree, `repr, repr, nil`parent, nil`color
      ensures Valid() && repr <= old(repr)
      ensures ret == FoundCode(old(Contents()), key) && Contents() == old(Contents()) - {key}
    {
      hide Holds, HoldsAround, Nodes, NodesAround, At, Plug, Entries, Sorted, RedBlack, MapOf;
      var node, path, t := Search(key);
      if node == nil {
        assert Contents() == Contents() - {key};
        return 1;
      }
      Removed(path, t);
      var deleted := Delete(node, path, t);
      return 0;
    }

    /** `kvs_rbtree_mod`. */
    method Mod(key: cstring, value: Value) returns (ret: int)
      requires Valid()
      modifies `tree, repr`value
      ensures Valid() && ret == FoundCode(old(Contents()), key)
      ensures Contents() == Modified(old(Contents()), key, value)
    {
      var node, path, t := Search(key);
      if node == nil {
        return 1;
      }
      Revalue(node, value, path, t);
      return 0;
    }

    /** `kvs_rbtree_exist`. */
    method Exist(key: cstring) returns (ret: int)
      requires Valid()
      ensures ret == FoundCode(Contents(), key)
    {
      var node, _, _ := Search(key);
      ret := if node == nil then 1 else 0;
    }
  }

  lemma PlugFork(path: P, t: T)
    requires t.Fork?
    ensures Plug(path, t).Fork?
    decreases path
  {
    if !path.Top? {
      PlugFork(path.up, Whole(path, t));
    }
  }
}
