/** The kernel's red-black tree: linked nodes with parent pointers, changed in place. */
module RbTree {
  import opened RbShape
  import opened RbRules
  import opened RbRemoval

  /** The gap of c is entered only through x. */
  ghost predicate Holds(c: Ctx, x: Node)
    reads x, if c.Under? then {c.node} else {}
  {
    && x.parent == ParentOf(c)
    && (c.Under? ==> if c.side == L then c.node.left == x else (c.node.right == x && c.node.left != x))
  }

  class Tree {
    var root: Node?
    ghost var shape: Shape

    constructor ()
      ensures Valid() && shape == Leaf
    {
      root := null;
      shape := Leaf;
    }

    /** The links agree with shape and the keys are in search order. */
    ghost predicate Valid()
      reads this, Nodes(shape)
    {
      At(Fields(Nodes(shape)), root, Top, shape) && Sorted(Items(shape))
    }

    /** Makes the link that leads to x (a child link of its parent, or the root) lead to v. */
    method Relink(x: Node, v: Node?, ghost c: Ctx)
      requires Holds(c, x)
      modifies this`root, (if c.Under? then {c.node} else {})`left, (if c.Under? then {c.node} else {})`right
      ensures c.Under? && c.side == L ==> c.node.left == v && c.node.right == old(c.node.right)
      ensures c.Under? && c.side == R ==> c.node.right == v && c.node.left == old(c.node.left)
      ensures root == if c == Top then v else old(root)
    {
      if x.parent == null {
        root := v;
      } else if x == x.parent.left {
        x.parent.left := v;
      } else {
        x.parent.right := v;
      }
    }

    // ---------- Rotations ----------

    /** The assignments of a left rotation at x; b is the subtree that changes sides. */
    method TurnLeft(x: Node, ghost s: set<Node>, ghost c: Ctx, ghost b: Shape)
      requires Holds(c, x) && x.right != null && Separate(s, c, x, x.right, b) && x.right.left == Ptr(b)
      modifies this`root, TurnChanges(c, x, x.right, b)`left, TurnChanges(c, x, x.right, b)`right,
               TurnChanges(c, x, x.right, b)`parent
      ensures Turned(old(Fields(s)), Fields(s), c, x, old(x.right), b,
                     Record(old(x.color), old(x.left), Ptr(b), old(x.right)),
                     Record(old(x.right.color), x, old(x.right.right), ParentOf(c)))
      ensures root == if c == Top then old(x.right) else old(root)
    {
      var y := x.right;
      x.right := y.left;
      if y.left != null {
        y.left.parent := x;
      }
      y.parent := x.parent;
      Relink(x, y, c);
      y.left := x;
      x.parent := y;
    }

    /** The assignments of a right rotation at y; b is the subtree that changes sides. */
    method TurnRight(y: Node, ghost s: set<Node>, ghost c: Ctx, ghost b: Shape)
      requires Holds(c, y) && y.left != null && Separate(s, c, y, y.left, b) && y.left.right == Ptr(b)
      modifies this`root, TurnChanges(c, y, y.left, b)`left, TurnChanges(c, y, y.left, b)`right,
               TurnChanges(c, y, y.left, b)`parent
      ensures Turned(old(Fields(s)), Fields(s), c, y, old(y.left), b,
                     Record(old(y.color), Ptr(b), old(y.right), old(y.left)),
                     Record(old(y.left.color), old(y.left.left), y, ParentOf(c)))
      ensures root == if c == Top then old(y.left) else old(root)
    {
      var x := y.left;
      y.left := x.right;
      if x.right != null {
        x.right.parent := y;
      }
      x.parent := y.parent;
      Relink(y, x, c);
      x.right := y;
      y.parent := x;
    }

    method RotateLeft(x: Node, ghost s: set<Node>, ghost c: Ctx, ghost t: Shape)
      requires At(Fields(s), root, c, t) && t.Fork? && t.right.Fork? && t.node == x
      modifies this`root, s
      ensures At(Fields(s), root, c, RbShape.RotateLeft(t))
    {
      ghost var m := Fields(s);
      LeftTurnReads(m, root, c, t);
      AtHoldsChild(m, root, c, t);
      TurnLeft(x, s, c, t.right.left);
      LeftTurn(m, Fields(s), old(root), c, t, x, t.right.node, t.right.left);
    }

    method RotateRight(y: Node, ghost s: set<Node>, ghost c: Ctx, ghost t: Shape)
      requires At(Fields(s), root, c, t) && t.Fork? && t.left.Fork? && t.node == y
      modifies this`root, s
      ensures At(Fields(s), root, c, RbShape.RotateRight(t))
    {
      ghost var m := Fields(s);
      RightTurnReads(m, root, c, t);
      AtHoldsChild(m, root, c, t);
      TurnRight(y, s, c, t.left.right);
      RightTurn(m, Fields(s), old(root), c, t, y, t.left.node, t.left.right);
    }

    // ---------- Insertion ----------

    method SetColor(n: Node, color: Color, ghost s: set<Node>, ghost c: Ctx, ghost t: Shape)
      requires At(Fields(s), root, c, t) && t.Fork? && t.node == n
      modifies n`color
      ensures At(Fields(s), root, c, Paint(t, color))
    {
      ghost var m := Fields(s);
      n.color := color;
      assert Fields(s) == m[n := m[n].(color := color)];
      PaintedAt(m, root, c, t, color);
    }

    /** Parent and uncle become black, the grandparent red. */
    method Recolor(p: Node, y: Node, g: Node, ghost s: set<Node>, ghost c: Ctx, ghost t: Shape)
      requires At(Fields(s), root, c, t) && c.Under? && c.up.Under? && c.up.sibling.Fork?
      requires p == c.node && g == c.up.node && y == c.up.sibling.node
      modifies s`color
      ensures At(Fields(s), root, c.up.up, Recolored(c, t))
    {
      GoUp(Fields(s), root, c, t);
      SetColor(p, Black, s, c.up, JoinAt(c, t));
      ghost var pt := Paint(JoinAt(c, t), Black);
      GoUp(Fields(s), root, c.up, pt);
      ghost var gt := JoinAt(c.up, pt);
      GoDown(Fields(s), root, c.up.up, gt);
      ghost var yc := if c.up.side == L then RightCtx(c.up.up, gt) else LeftCtx(c.up.up, gt);
      SetColor(y, Black, s, yc, c.up.sibling);
      GoUp(Fields(s), root, yc, Paint(c.up.sibling, Black));
      SetColor(g, Red, s, c.up.up, JoinAt(yc, Paint(c.up.sibling, Black)));
    }

    /** The parent becomes black, the grandparent red. */
    method PaintPair(p: Node, g: Node, ghost s: set<Node>, ghost c: Ctx, ghost t: Shape)
      requires At(Fields(s), root, c, t) && c.Under? && c.up.Under?
      requires p == c.node && g == c.up.node
      modifies s`color
      ensures At(Fields(s), root, c.up.up, OuterPainted(c, t))
    {
      GoUp(Fields(s), root, c, t);
      SetColor(p, Black, s, c.up, JoinAt(c, t));
      ghost var pt := Paint(JoinAt(c, t), Black);
      GoUp(Fields(s), root, c.up, pt);
      SetColor(g, Red, s, c.up.up, JoinAt(c.up, pt));
    }

    /** One round of the insertion fixup with a red uncle missing, for a parent
        that is a left child. */
    method FixUnderLeft(z0: Node, ghost s: set<Node>, ghost c0: Ctx, ghost t0: Shape)
      returns (z: Node, ghost c: Ctx, ghost t: Shape)
      requires At(Fields(s), root, c0, t0) && RedPair(c0, t0) && t0.node == z0 && RedCtx(c0)
      requires c0.up.Under? && c0.up.side == L && !IsRed(c0.up.sibling)
      modifies this`root, s
      ensures At(Fields(s), root, c, t) && RedPair(c, t) && t.node == z && !RedCtx(c)
      ensures Alike(Plug(c0, t0), Plug(c, t))
      ensures Depth(c) < Depth(c0)
    {
      z, c, t := z0, c0, t0;
      AtReads(Fields(s), root, c, t);
      GoUp(Fields(s), root, c, t);
      AtReads(Fields(s), root, c.up, JoinAt(c, t));
      if z == z.parent.right {
        z := z.parent;
        RotateLeft(z, s, c.up, JoinAt(c, t));
        InnerStep(c, t);
        c, t := InnerCtx(c, t), InnerTree(c, t);
        GoDown(Fields(s), root, c.up, JoinAt(c, t));
        AtReads(Fields(s), root, c, t);
        AtReads(Fields(s), root, c.up, JoinAt(c, t));
      }
      var g := z.parent.parent;
      PaintPair(z.parent, g, s, c, t);
      OuterStep(c, t);
      RotateRight(g, s, c.up.up, OuterPainted(c, t));
      c := OuterCtx(c);
      GoDown(Fields(s), root, c.up, JoinAt(c, t));
    }

    /** The mirror image, for a parent that is a right child. */
    method FixUnderRight(z0: Node, ghost s: set<Node>, ghost c0: Ctx, ghost t0: Shape)
      returns (z: Node, ghost c: Ctx, ghost t: Shape)
      requires At(Fields(s), root, c0, t0) && RedPair(c0, t0) && t0.node == z0 && RedCtx(c0)
      requires c0.up.Under? && c0.up.side == R && !IsRed(c0.up.sibling)
      modifies this`root, s
      ensures At(Fields(s), root, c, t) && RedPair(c, t) && t.node == z && !RedCtx(c)
      ensures Alike(Plug(c0, t0), Plug(c, t))
      ensures Depth(c) < Depth(c0)
    {
      z, c, t := z0, c0, t0;
      AtReads(Fields(s), root, c, t);
      GoUp(Fields(s), root, c, t);
      AtReads(Fields(s), root, c.up, JoinAt(c, t));
      if z == z.parent.left {
        z := z.parent;
        RotateRight(z, s, c.up, JoinAt(c, t));
        InnerStep(c, t);
        c, t := InnerCtx(c, t), InnerTree(c, t);
        GoDown(Fields(s), root, c.up, JoinAt(c, t));
        AtReads(Fields(s), root, c, t);
        AtReads(Fields(s), root, c.up, JoinAt(c, t));
      }
      var g := z.parent.parent;
      PaintPair(z.parent, g, s, c, t);
      OuterStep(c, t);
      RotateLeft(g, s, c.up.up, OuterPainted(c, t));
      c := OuterCtx(c);
      GoDown(Fields(s), root, c.up, JoinAt(c, t));
    }

    /** One round of the insertion fixup loop, at a node whose parent is red. */
    method InsertRound(z0: Node, ghost s: set<Node>, ghost c0: Ctx, ghost t0: Shape)
      returns (z: Node, ghost c: Ctx, ghost t: Shape)
      requires At(Fields(s), root, c0, t0) && RedPair(c0, t0) && t0.node == z0 && RedCtx(c0)
      modifies this`root, s
      ensures At(Fields(s), root, c, t) && RedPair(c, t) && t.node == z
      ensures Alike(Plug(c0, t0), Plug(c, t))
      ensures Depth(c) < Depth(c0)
    {
      z, c, t := z0, c0, t0;
      RedParent(c, t);
      GrandparentReads(Fields(s), root, c, t);
      var g := z.parent.parent;
      if z.parent == z.parent.parent.left {
        var y := z.parent.parent.right;
        if y != null && y.color == Red {
          Recolor(z.parent, y, g, s, c, t);
          RecolorStep(c, t);
          z, c, t := g, c.up.up, Recolored(c, t);
        } else {
          z, c, t := FixUnderLeft(z, s, c, t);
        }
      } else {
        var y := z.parent.parent.left;
        if y != null && y.color == Red {
          Recolor(z.parent, y, g, s, c, t);
          RecolorStep(c, t);
          z, c, t := g, c.up.up, Recolored(c, t);
        } else {
          z, c, t := FixUnderRight(z, s, c, t);
        }
      }
    }

    method InsertFixup(z0: Node, ghost s: set<Node>, ghost c0: Ctx, ghost t0: Shape) returns (ghost whole: Shape)
      requires At(Fields(s), root, c0, t0) && RedPair(c0, t0) && t0.node == z0
      modifies this`root, s
      ensures At(Fields(s), root, Top, whole) && ColorsOk(whole) && Alike(Plug(c0, t0), whole)
    {
      var z := z0;
      ghost var c, t := c0, t0;
      AtReads(Fields(s), root, c, t);
      while z.parent != null && z.parent.color == Red
        invariant At(Fields(s), root, c, t) && RedPair(c, t) && t.node == z
        invariant z in s && z.parent == ParentOf(c) && (c.Under? ==> c.node in s && c.node.color == c.color)
        invariant Alike(Plug(c0, t0), Plug(c, t))
        decreases Depth(c)
      {
        z, c, t := InsertRound(z, s, c, t);
        AtReads(Fields(s), root, c, t);
      }
      whole := BlackenRoot(s, c, t);
    }

    method BlackenRoot(ghost s: set<Node>, ghost c: Ctx, ghost t: Shape) returns (ghost whole: Shape)
      requires At(Fields(s), root, c, t) && RedPair(c, t) && !RedCtx(c)
      modifies s`color
      ensures At(Fields(s), root, Top, whole) && ColorsOk(whole) && Alike(Plug(c, t), whole)
    {
      AtReads(Fields(s), root, c, t);
      GoTop(Fields(s), root, c, t);
      AtReads(Fields(s), root, Top, Plug(c, t));
      RootPainted(c, t);
      SetColor(root, Black, s, Top, Plug(c, t));
      whole := Paint(Plug(c, t), Black);
    }

    // ---------- Deletion fixup ----------

    method PaintParent(p: Node, color: Color, ghost s: set<Node>, ghost c: Ctx, ghost t: Shape)
      requires At(Fields(s), root, c, t) && c.Under? && p == c.node
      modifies p`color
      ensures At(Fields(s), root, c.(color := color), t)
    {
      GoUp(Fields(s), root, c, t);
      SetColor(p, color, s, c.up, JoinAt(c, t));
      GoDown(Fields(s), root, c.up, Paint(JoinAt(c, t), color));
    }

    method PaintSibling(w: Node, color: Color, ghost s: set<Node>, ghost c: Ctx, ghost t: Shape)
      requires At(Fields(s), root, c, t) && c.Under? && c.sibling.Fork? && w == c.sibling.node
      modifies w`color
      ensures At(Fields(s), root, c.(sibling := Paint(c.sibling, color)), t)
    {
      CrossOver(Fields(s), root, c, t);
      SetColor(w, color, s, SiblingCtx(c, t), c.sibling);
      CrossOver(Fields(s), root, SiblingCtx(c, t), Paint(c.sibling, color));
    }

    /** A red right sibling is rotated up, so that the new sibling is black. */
    method LiftRedRight(x: Node, w0: Node, ghost s: set<Node>, ghost c: Ctx, ghost t: Shape) returns (w: Node?)
      requires At(Fields(s), root, c, t) && Loose(c, t) && t.node == x && c.Under? && c.side == L
      requires IsRed(c.sibling) && w0 == c.sibling.node
      modifies this`root, s
      ensures At(Fields(s), root, RedSiblingCtx(c), t) && w == Ptr(Near(c))
    {
      w := w0;
      AtReads(Fields(s), root, c, t);
      RedSiblingStep(c, t);
      PaintSibling(w, Black, s, c, t);
      PaintParent(x.parent, Red, s, c.(sibling := Paint(c.sibling, Black)), t);
      ghost var c1, c2 := Repainted(c, Red, Black), RedSiblingCtx(c);
      AtReads(Fields(s), root, c1, t);
      GoUp(Fields(s), root, c1, t);
      RotateLeft(x.parent, s, c.up, JoinAt(c1, t));
      GoDown(Fields(s), root, c.up, JoinAt(c2.up, JoinAt(c2, t)));
      GoDown(Fields(s), root, c2.up, JoinAt(c2, t));
      AtReads(Fields(s), root, c2, t);
      w := x.parent.right;
    }

    /** A black right sibling whose red child is on the near side: that child is rotated over it. */
    method LiftNearRight(x: Node, w0: Node, ghost s: set<Node>, ghost c: Ctx, ghost t: Shape) returns (w: Node)
      requires At(Fields(s), root, c, t) && t.Fork? && t.node == x && c.Under? && c.side == L
      requires c.sibling.Fork? && w0 == c.sibling.node && Near(c).Fork?
      modifies this`root, s
      ensures At(Fields(s), root, c.(sibling := NearLifted(c)), t) && w == NearLifted(c).node
    {
      w := w0;
      ghost var wc, sib := SiblingCtx(c, t), c.sibling;
      CrossOver(Fields(s), root, c, t);
      AtReads(Fields(s), root, wc, sib);
      GoDown(Fields(s), root, wc, sib);
      if w.left != null {
        SetColor(w.left, Black, s, LeftCtx(wc, sib), sib.left);
      }
      ghost var sib1 := sib.(left := Paint(sib.left, Black));
      GoUp(Fields(s), root, LeftCtx(wc, sib), sib1.left);
      SetColor(w, Red, s, wc, sib1);
      RotateRight(w, s, wc, Paint(sib1, Red));
      CrossOver(Fields(s), root, wc, NearLifted(c));
      AtReads(Fields(s), root, c.(sibling := NearLifted(c)), t);
      w := x.parent.right;
    }

    /** A black right sibling whose far child is red: rotating the parent ends the shortage. */
    method SettleRight(x: Node, w: Node, ghost s: set<Node>, ghost c: Ctx, ghost t: Shape)
      requires At(Fields(s), root, c, t) && t.Fork? && t.node == x && c.Under? && c.side == L
      requires c.sibling.Fork? && w == c.sibling.node && Far(c).Fork?
      modifies this`root, s
      ensures At(Fields(s), root, Top, Plug(c.up, Settled(c, t))) && root == Ptr(Plug(c.up, Settled(c, t)))
    {
      AtReads(Fields(s), root, c, t);
      PaintSibling(w, x.parent.color, s, c, t);
      ghost var c1 := c.(sibling := Paint(c.sibling, c.color));
      AtReads(Fields(s), root, c1, t);
      PaintParent(x.parent, Black, s, c1, t);
      ghost var c2 := c1.(color := Black);
      CrossOver(Fields(s), root, c2, t);
      AtReads(Fields(s), root, SiblingCtx(c2, t), c2.sibling);
      GoDown(Fields(s), root, SiblingCtx(c2, t), c2.sibling);
      if w.right != null {
        SetColor(w.right, Black, s, RightCtx(SiblingCtx(c2, t), c2.sibling), Far(c));
      }
      ghost var sib := c2.sibling.(right := Paint(Far(c), Black));
      GoUp(Fields(s), root, RightCtx(SiblingCtx(c2, t), c2.sibling), sib.right);
      ghost var c3 := c2.(sibling := sib);
      CrossOver(Fields(s), root, SiblingCtx(c2, t), sib);
      AtReads(Fields(s), root, c3, t);
      GoUp(Fields(s), root, c3, t);
      RotateLeft(x.parent, s, c.up, JoinAt(c3, t));
      GoTop(Fields(s), root, c.up, Settled(c, t));
      AtReads(Fields(s), root, Top, Plug(c.up, Settled(c, t)));
    }

    /** A red left sibling is rotated up, so that the new sibling is black. */
    method LiftRedLeft(x: Node, w0: Node, ghost s: set<Node>, ghost c: Ctx, ghost t: Shape) returns (w: Node?)
      requires At(Fields(s), root, c, t) && Loose(c, t) && t.node == x && c.Under? && c.side == R
      requires IsRed(c.sibling) && w0 == c.sibling.node
      modifies this`root, s
      ensures At(Fields(s), root, RedSiblingCtx(c), t) && w == Ptr(Near(c))
    {
      w := w0;
      AtReads(Fields(s), root, c, t);
      RedSiblingStep(c, t);
      PaintSibling(w, Black, s, c, t);
      PaintParent(x.parent, Red, s, c.(sibling := Paint(c.sibling, Black)), t);
      ghost var c1, c2 := Repainted(c, Red, Black), RedSiblingCtx(c);
      AtReads(Fields(s), root, c1, t);
      GoUp(Fields(s), root, c1, t);
      RotateRight(x.parent, s, c.up, JoinAt(c1, t));
      GoDown(Fields(s), root, c.up, JoinAt(c2.up, JoinAt(c2, t)));
      GoDown(Fields(s), root, c2.up, JoinAt(c2, t));
      AtReads(Fields(s), root, c2, t);
      w := x.parent.left;
    }

    /** A black left sibling whose red child is on the near side: that child is rotated over it. */
    method LiftNearLeft(x: Node, w0: Node, ghost s: set<Node>, ghost c: Ctx, ghost t: Shape) returns (w: Node)
      requires At(Fields(s), root, c, t) && t.Fork? && t.node == x && c.Under? && c.side == R
      requires c.sibling.Fork? && w0 == c.sibling.node && Near(c).Fork?
      modifies this`root, s
      ensures At(Fields(s), root, c.(sibling := NearLifted(c)), t) && w == NearLifted(c).node
    {
      w := w0;
      ghost var wc, sib := SiblingCtx(c, t), c.sibling;
      CrossOver(Fields(s), root, c, t);
      AtReads(Fields(s), root, wc, sib);
      GoDown(Fields(s), root, wc, sib);
      if w.right != null {
        SetColor(w.right, Black, s, RightCtx(wc, sib), sib.right);
      }
      ghost var sib1 := sib.(right := Paint(sib.right, Black));
      GoUp(Fields(s), root, RightCtx(wc, sib), sib1.right);
      SetColor(w, Red, s, wc, sib1);
      RotateLeft(w, s, wc, Paint(sib1, Red));
      CrossOver(Fields(s), root, wc, NearLifted(c));
      AtReads(Fields(s), root, c.(sibling := NearLifted(c)), t);
      w := x.parent.left;
    }

    /** A black left sibling whose far child is red: rotating the parent ends the shortage. */
    method SettleLeft(x: Node, w: Node, ghost s: set<Node>, ghost c: Ctx, ghost t: Shape)
      requires At(Fields(s), root, c, t) && t.Fork? && t.node == x && c.Under? && c.side == R
      requires c.sibling.Fork? && w == c.sibling.node && Far(c).Fork?
      modifies this`root, s
      ensures At(Fields(s), root, Top, Plug(c.up, Settled(c, t))) && root == Ptr(Plug(c.up, Settled(c, t)))
    {
      AtReads(Fields(s), root, c, t);
      PaintSibling(w, x.parent.color, s, c, t);
      ghost var c1 := c.(sibling := Paint(c.sibling, c.color));
      AtReads(Fields(s), root, c1, t);
      PaintParent(x.parent, Black, s, c1, t);
      ghost var c2 := c1.(color := Black);
      CrossOver(Fields(s), root, c2, t);
      AtReads(Fields(s), root, SiblingCtx(c2, t), c2.sibling);
      GoDown(Fields(s), root, SiblingCtx(c2, t), c2.sibling);
      if w.left != null {
        SetColor(w.left, Black, s, LeftCtx(SiblingCtx(c2, t), c2.sibling), Far(c));
      }
      ghost var sib := c2.sibling.(left := Paint(Far(c), Black));
      GoUp(Fields(s), root, LeftCtx(SiblingCtx(c2, t), c2.sibling), sib.left);
      ghost var c3 := c2.(sibling := sib);
      CrossOver(Fields(s), root, SiblingCtx(c2, t), sib);
      AtReads(Fields(s), root, c3, t);
      GoUp(Fields(s), root, c3, t);
      RotateRight(x.parent, s, c.up, JoinAt(c3, t));
      GoTop(Fields(s), root, c.up, Settled(c, t));
      AtReads(Fields(s), root, Top, Plug(c.up, Settled(c, t)));
    }

    /** The part of a fixup round that works with a black right sibling. */
    method BlackSiblingRight(x0: Node, w0: Node, ghost s: set<Node>, ghost c0: Ctx, ghost t0: Shape)
      returns (x: Node, ghost c: Ctx, ghost t: Shape)
      requires At(Fields(s), root, c0, t0) && Loose(c0, t0) && t0.node == x0 && t0.color == Black
      requires c0.Under? && c0.side == L && c0.sibling.Fork? && !IsRed(c0.sibling) && w0 == c0.sibling.node
      modifies this`root, s
      ensures At(Fields(s), root, c, t) && Loose(c, t) && t.node == x
      ensures c == Top || (c == c0.up && t.color == c0.color)
      ensures Carried(c0, t0, c, t)
    {
      x, c, t := x0, c0, t0;
      var w := w0;
      SiblingReads(Fields(s), root, c, t);
      if (w.left == null || w.left.color == Black) && (w.right == null || w.right.color == Black) {
        PaintSibling(w, Red, s, c, t);
        BlackNephewsStep(c, t);
        ghost var c1 := c.(sibling := Paint(c.sibling, Red));
        AtReads(Fields(s), root, c1, t);
        GoUp(Fields(s), root, c1, t);
        x, c, t := x.parent, c.up, JoinAt(c1, t);
      } else {
        if w.right == null || w.right.color == Black {
          w := LiftNearRight(x, w, s, c, t);
          RedNearStep(c, t);
          c := c.(sibling := NearLifted(c));
        }
        RedFarStep(c, t);
        SettleRight(x, w, s, c, t);
        c, t := Top, Plug(c.up, Settled(c, t));
        x := root;
      }
    }

    /** One round of the deletion fixup loop for a left child x with right sibling w. */
    method DeleteRoundLeft(x0: Node, w0: Node, ghost s: set<Node>, ghost c0: Ctx, ghost t0: Shape)
      returns (ok: bool, x: Node, ghost c: Ctx, ghost t: Shape)
      requires At(Fields(s), root, c0, t0) && Loose(c0, t0) && t0.node == x0 && t0.color == Black
      requires c0.Under? && c0.side == L && c0.sibling.Fork? && w0 == c0.sibling.node
      modifies this`root, s
      ensures At(Fields(s), root, c, t) && Loose(c, t) && t.node == x
      ensures ok ==> Carried(c0, t0, c, t) && (t.color == Red || Depth(c) < Depth(c0))
      ensures !ok ==> Stuck(c0, t0, c, t)
    {
      ok, x, c, t := true, x0, c0, t0;
      var w: Node? := w0;
      SiblingReads(Fields(s), root, c, t);
      if w.color == Red {
        w := LiftRedRight(x0, w, s, c, t);
        RedSiblingStep(c, t);
        c := RedSiblingCtx(c);
        if w == null {
          ok := false;
          return;
        }
      }
      x, c, t := BlackSiblingRight(x0, w, s, c, t);
    }

    /** The part of a fixup round that works with a black left sibling. */
    method BlackSiblingLeft(x0: Node, w0: Node, ghost s: set<Node>, ghost c0: Ctx, ghost t0: Shape)
      returns (x: Node, ghost c: Ctx, ghost t: Shape)
      requires At(Fields(s), root, c0, t0) && Loose(c0, t0) && t0.node == x0 && t0.color == Black
      requires c0.Under? && c0.side == R && c0.sibling.Fork? && !IsRed(c0.sibling) && w0 == c0.sibling.node
      modifies this`root, s
      ensures At(Fields(s), root, c, t) && Loose(c, t) && t.node == x
      ensures c == Top || (c == c0.up && t.color == c0.color)
      ensures Carried(c0, t0, c, t)
    {
      x, c, t := x0, c0, t0;
      var w := w0;
      SiblingReads(Fields(s), root, c, t);
      if (w.right == null || w.right.color == Black) && (w.left == null || w.left.color == Black) {
        PaintSibling(w, Red, s, c, t);
        BlackNephewsStep(c, t);
        ghost var c1 := c.(sibling := Paint(c.sibling, Red));
        AtReads(Fields(s), root, c1, t);
        GoUp(Fields(s), root, c1, t);
        x, c, t := x.parent, c.up, JoinAt(c1, t);
      } else {
        if w.left == null || w.left.color == Black {
          w := LiftNearLeft(x, w, s, c, t);
          RedNearStep(c, t);
          c := c.(sibling := NearLifted(c));
        }
        RedFarStep(c, t);
        SettleLeft(x, w, s, c, t);
        c, t := Top, Plug(c.up, Settled(c, t));
        x := root;
      }
    }

    /** One round of the deletion fixup loop for a right child x with left sibling w. */
    method DeleteRoundRight(x0: Node, w0: Node, ghost s: set<Node>, ghost c0: Ctx, ghost t0: Shape)
      returns (ok: bool, x: Node, ghost c: Ctx, ghost t: Shape)
      requires At(Fields(s), root, c0, t0) && Loose(c0, t0) && t0.node == x0 && t0.color == Black
      requires c0.Under? && c0.side == R && c0.sibling.Fork? && w0 == c0.sibling.node
      modifies this`root, s
      ensures At(Fields(s), root, c, t) && Loose(c, t) && t.node == x
      ensures ok ==> Carried(c0, t0, c, t) && (t.color == Red || Depth(c) < Depth(c0))
      ensures !ok ==> Stuck(c0, t0, c, t)
    {
      ok, x, c, t := true, x0, c0, t0;
      var w: Node? := w0;
      SiblingReads(Fields(s), root, c, t);
      if w.color == Red {
        w := LiftRedLeft(x0, w, s, c, t);
        RedSiblingStep(c, t);
        c := RedSiblingCtx(c);
        if w == null {
          ok := false;
          return;
        }
      }
      x, c, t := BlackSiblingLeft(x0, w, s, c, t);
    }

    /** One round of the loop. Done means that it stops at a missing right
        sibling, not ok that a sibling is missing that the code would read. */
    method DeleteRound(x0: Node, ghost s: set<Node>, ghost c0: Ctx, ghost t0: Shape)
      returns (ok: bool, done: bool, x: Node, ghost c: Ctx, ghost t: Shape)
      requires At(Fields(s), root, c0, t0) && Loose(c0, t0) && t0.node == x0 && t0.color == Black && c0.Under?
      modifies this`root, s
      ensures At(Fields(s), root, c, t) && Loose(c, t) && t.node == x
      ensures done ==> ok && x == x0 && c == c0 && t == t0 && c.sibling == Leaf && SiblingsMet(c, t)
      ensures ok && !done ==> Carried(c0, t0, c, t) && (t.color == Red || Depth(c) < Depth(c0))
      ensures !ok ==> Stuck(c0, t0, c, t)
    {
      AtReads(Fields(s), root, c0, t0);
      ok, done, x, c, t := true, false, x0, c0, t0;
      if x == x.parent.left {
        var w := x.parent.right;
        if w == null {
          done := true;
          return;
        }
        ok, x, c, t := DeleteRoundLeft(x, w, s, c, t);
      } else {
        var w := x.parent.left;
        if w == null {
          ok := false;
          return;
        }
        ok, x, c, t := DeleteRoundRight(x, w, s, c, t);
      }
    }

    /** Not ok means that a sibling was missing that the code would read. */
    method DeleteFixup(x0: Node, ghost s: set<Node>, ghost c0: Ctx, ghost t0: Shape)
      returns (ok: bool, ghost whole: Shape)
      requires At(Fields(s), root, c0, t0) && Loose(c0, t0) && t0.node == x0
      modifies this`root, s
      ensures ok <==> SiblingsMet(c0, t0)
      ensures At(Fields(s), root, Top, whole) && ColorsOk(whole) && (OneShort(c0, t0) ==> ok && Balanced(whole))
      ensures Items(whole) == Items(Plug(c0, t0)) && Nodes(whole) == Nodes(Plug(c0, t0))
    {
      var x := x0;
      ok := true;
      ghost var c, t := c0, t0;
      if OneShort(c, t) { ShortMeetsSiblings(c, t); }
      AtReads(Fields(s), root, c, t);
      RootIsTop(Fields(s), root, c, t);
      while x != root && x.color == Black
        invariant At(Fields(s), root, c, t) && Loose(c, t) && t.node == x && x in s && x.color == t.color
        invariant (c == Top <==> x == root) && Carried(c0, t0, c, t)
        decreases if t.color == Red then 0 else 1 + Depth(c)
      {
        var done;
        SiblingIs(c, t);
        ok, done, x, c, t := DeleteRound(x, s, c, t);
        if done {
          break;
        }
        if !ok {
          LooseEnds(c, t);
          GoTop(Fields(s), root, c, t);
          whole := Plug(c, t);
          return;
        }
        AtReads(Fields(s), root, c, t);
        RootIsTop(Fields(s), root, c, t);
      }
      whole := BlackenGap(x, s, c, t);
    }

    method BlackenGap(x: Node, ghost s: set<Node>, ghost c: Ctx, ghost t: Shape) returns (ghost whole: Shape)
      requires At(Fields(s), root, c, t) && Loose(c, t) && t.node == x
      modifies x`color
      ensures At(Fields(s), root, Top, whole) && ColorsOk(whole)
      ensures OneShort(c, t) && (c == Top || t.color == Red) ==> Balanced(whole)
      ensures Items(whole) == Items(Plug(c, t)) && Nodes(whole) == Nodes(Plug(c, t))
    {
      LooseEnds(c, t);
      SetColor(x, Black, s, c, t);
      GoTop(Fields(s), root, c, Paint(t, Black));
      whole := Plug(c, Paint(t, Black));
    }

    // ---------- The operations ----------

    /** The topmost node with the key on the search path, or null when the key is absent. */
    method Search(key: nat) returns (node: Node?, ghost c: Ctx, ghost t: Shape)
      requires Valid()
      ensures Valid() && At(Fields(Nodes(shape)), root, c, t) && Plug(c, t) == shape && node == Ptr(t) &&
              t == Sought(shape, key) && c == SoughtCtx(Top, shape, key)
      ensures node != null ==> node.key == key
      ensures node != null <==> HasKey(Items(shape), key)
      ensures Depth(c) <= Height(shape)
    {
      ghost var m := Fields(Nodes(shape));
      node, c, t := root, Top, shape;
      AtReads(m, root, c, t);
      while node != null && node.key != key
        invariant At(m, root, c, t) && Plug(c, t) == shape && node == Ptr(t) && (t.Fork? ==> t.key == t.node.key)
        invariant Sought(t, key) == Sought(shape, key) && SoughtCtx(c, t, key) == SoughtCtx(Top, shape, key)
        invariant AllBelow(Before(c), key) && AllAbove(After(c), key)
        decreases t
      {
        AtReads(m, root, c, t);
        GoDown(m, root, c, t);
        if key < node.key {
          StepLeft(c, t, key);
          node := node.left;
          c, t := LeftCtx(c, t), t.left;
        } else {
          StepRight(c, t, key);
          node := node.right;
          c, t := RightCtx(c, t), t.right;
        }
        AtReads(m, root, c, t);
      }
      PlugHeight(c, t);
      if node == null {
        NotFound(c, key);
      } else {
        FoundHere(c, t);
      }
    }

    /** Walks down to the empty gap where the key belongs, behind all equal keys. */
    method FindGap(key: nat) returns (y: Node?, ghost c: Ctx)
      requires Valid()
      ensures At(Fields(Nodes(shape)), root, c, Leaf) && Plug(c, Leaf) == shape && y == ParentOf(c)
      ensures AllUpTo(Before(c), key) && AllAbove(After(c), key)
      ensures c.Under? ==> c.key == c.node.key && (c.side == L <==> key < c.key)
    {
      ghost var m, t := Fields(Nodes(shape)), shape;
      y, c := null, Top;
      var x := root;
      AtReads(m, root, c, t);
      while x != null
        invariant At(m, root, c, t) && Plug(c, t) == shape && x == Ptr(t) && y == ParentOf(c)
        invariant AllUpTo(Before(c), key) && AllAbove(After(c), key)
        invariant c.Under? ==> c.key == c.node.key && (c.side == L <==> key < c.key)
        decreases t
      {
        AtReads(m, root, c, t);
        GoDown(m, root, c, t);
        y := x;
        if key < x.key {
          StepLeft(c, t, key);
          x := x.left;
          c, t := LeftCtx(c, t), t.left;
        } else {
          StepRight(c, t, key);
          x := x.right;
          c, t := RightCtx(c, t), t.right;
        }
      }
    }

    /** Hangs the new node z into the empty gap below y. */
    method PlaceNew(z: Node, y: Node?, ghost c: Ctx)
      requires At(Fields(Nodes(shape)), root, c, Leaf) && Plug(c, Leaf) == shape && y == ParentOf(c)
      requires c.Under? ==> c.key == c.node.key && (c.side == L <==> z.key < c.key)
      requires z !in Nodes(shape) && z.color == Red && z.left == null && z.right == null
      modifies this`root, z`parent, Nodes(shape)`left, Nodes(shape)`right
      ensures At(Fields(Nodes(shape) + {z}), root, c, Fork(Leaf, z, z.key, Red, Leaf))
    {
      ghost var m := Fields(Nodes(shape));
      PlugNodes(c, Leaf);
      AtReads(m, root, c, Leaf);
      z.parent := y;
      if y == null {
        root := z;
      } else if z.key < y.key {
        y.left := z;
      } else {
        y.right := z;
      }
      LeafAdded(m, Fields(Nodes(shape) + {z}), old(root), c, z);
    }

    /** Hangs z into the gap and repairs the colours. */
    method Attach(z: Node, y: Node?, ghost c: Ctx)
      requires Valid() && ColorsOk(shape) && z !in Nodes(shape)
      requires z.color == Red && z.left == null && z.right == null
      requires At(Fields(Nodes(shape)), root, c, Leaf) && Plug(c, Leaf) == shape && y == ParentOf(c)
      requires AllUpTo(Before(c), z.key) && AllAbove(After(c), z.key)
      requires c.Under? ==> c.key == c.node.key && (c.side == L <==> z.key < c.key)
      modifies this, Nodes(shape), z
      ensures Valid() && ColorsOk(shape) && (Balanced(shape) <==> Balanced(old(shape)))
      ensures Items(shape) == Inserted(old(Items(shape)), Item(z, z.key))
      ensures Nodes(shape) == old(Nodes(shape)) + {z}
    {
      ghost var s := Nodes(shape) + {z};
      NewLeafItems(c, z);
      NewLeafPair(c, z);
      PlaceNew(z, y, c);
      shape := InsertFixup(z, s, c, Fork(Leaf, z, z.key, Red, Leaf));
    }

    method Insert(key: nat) returns (ghost added: Node)
      requires Valid() && ColorsOk(shape)
      modifies this, Nodes(shape)
      ensures Valid() && ColorsOk(shape) && (Balanced(shape) <==> Balanced(old(shape))) && fresh(added)
      ensures Items(shape) == Inserted(old(Items(shape)), Item(added, key))
      ensures Nodes(shape) == old(Nodes(shape)) + {added}
    {
      ghost var s: set<Node>, m := Nodes(shape), Fields(Nodes(shape));
      assert forall n :: n in s ==> allocated(n);
      var z := new Node(key);
      assert z !in s && Fields(s) == m;
      var y, c := FindGap(key);
      Attach(z, y, c);
      added := z;
    }

    /** The leftmost node below and including n. */
    method Minimum(n: Node, ghost s: set<Node>, ghost c: Ctx, ghost t: Shape) returns (y: Node)
      requires At(Fields(s), root, c, t) && t.Fork? && t.node == n
      ensures y == MinOf(t).node
    {
      y := n;
      ghost var c1, t1 := c, t;
      AtReads(Fields(s), root, c1, t1);
      while y.left != null
        invariant At(Fields(s), root, c1, t1) && t1.Fork? && t1.node == y && MinTree(t1) == MinTree(t)
        invariant y in s && y.left == Ptr(t1.left)
        decreases t1
      {
        GoDown(Fields(s), root, c1, t1);
        y := y.left;
        c1, t1 := LeftCtx(c1, t1), t1.left;
        AtReads(Fields(s), root, c1, t1);
      }
    }

    /** Takes out z, whose only child (if any) is x. */
    method SpliceOut(z: Node, x: Node?, ghost s: set<Node>, ghost c: Ctx, ghost t: Shape, ghost g: Shape)
      requires At(Fields(s), root, c, t) && t.Fork? && t.node == z && (g == t.left || g == t.right) && x == Ptr(g)
      modifies this`root, s`left, s`right, s`parent
      ensures At(Fields(s), root, c, g)
    {
      ghost var m := Fields(s);
      SpliceReads(m, root, c, t, g);
      LiftOver(z, x, s, c);
      SplicedAt(m, Fields(s), old(root), c, t, g);
    }

    /** The assignments that let x take the place of z. */
    method LiftOver(z: Node, x: Node?, ghost s: set<Node>, ghost c: Ctx)
      requires z in s && Holds(c, z) && (c.Under? ==> c.node in s && c.node != z)
      requires x != null ==> x in s && x != z && x != ParentOf(c)
      modifies this`root, s`left, s`right, s`parent
      ensures Same(old(Fields(s)), Fields(s), NodeSet(x) + NodeSet(ParentOf(c)))
      ensures x != null ==> Fields(s)[x] == old(Fields(s))[x].(parent := ParentOf(c))
      ensures c.Under? ==> Fields(s)[c.node] == Redirect(old(Fields(s))[c.node], c.side, x)
      ensures root == if c == Top then x else old(root)
    {
      if x != null {
        x.parent := z.parent;
      }
      Relink(z, x, c);
    }

    /** The assignments that let the right child of y, a left child itself, take its place. */
    method LiftRight(y: Node, ghost s: set<Node>, ghost c: Ctx, ghost g: Shape)
      requires y in s && c.Under? && c.node in s && c.side == L && y.parent == c.node && y.right == Ptr(g)
      requires g.Fork? ==> g.node in s && g.node != c.node
      modifies s`left, s`parent
      ensures Same(old(Fields(s)), Fields(s), NodeSet(Ptr(g)) + {c.node})
      ensures g.Fork? ==> Fields(s)[g.node] == old(Fields(s))[g.node].(parent := c.node)
      ensures Fields(s)[c.node] == old(Fields(s))[c.node].(left := Ptr(g))
    {
      var x := y.right;
      if x != null {
        x.parent := y.parent;
      }
      y.parent.left := x;
    }

    /** Unlinks the minimum y of the right subtree of z, when it is not the right child itself. */
    method CutMin(z: Node, y: Node, ghost s: set<Node>, ghost c: Ctx, ghost t: Shape)
      requires At(Fields(s), root, c, t) && t.Fork? && t.node == z && t.right.Fork? && t.right.left.Fork?
      requires y == MinOf(t.right).node
      modifies s`left, s`parent
      ensures At(Fields(s), root, c, t.(right := RemoveMin(t.right)))
    {
      ghost var m, rc, yt := Fields(s), RightCtx(c, t), MinOf(t.right);
      ghost var mc := MinCtx(rc, t.right);
      GoDown(m, root, c, t);
      MinIs(rc, t.right);
      MinDown(m, root, rc, t.right);
      SpliceReads(m, root, mc, yt, yt.right);
      LiftRight(y, s, mc, yt.right);
      SplicedAt(m, Fields(s), root, mc, yt, yt.right);
      MinUp(Fields(s), root, rc, t.right);
      GoUp(Fields(s), root, rc, RemoveMin(t.right));
    }

    /** Hands the right child of z to the unlinked node y. */
    method HandRight(z: Node, y: Node, ghost s: set<Node>, ghost c: Ctx, ghost t: Shape)
      requires At(Fields(s), root, c, t) && t.Fork? && t.node == z && t.right.Fork?
      requires y in s && y !in CtxNodes(c) && y !in Nodes(t)
      modifies s`right, s`parent
      ensures Detached(Fields(s), root, c, t.left, z, t.color, t.right, y)
    {
      ghost var m := Fields(s);
      SpliceReads(m, root, c, t, t.right);
      y.right := z.right;
      z.right.parent := y;
      DetachedFar(m, Fields(s), root, c, t, y);
    }

    /** Replaces z, which has two children, by the minimum y of its right subtree. */
    method ReplaceByMin(z: Node, y: Node, ghost s: set<Node>, ghost c: Ctx, ghost t: Shape)
      requires At(Fields(s), root, c, t) && t.Fork? && t.node == z && t.left.Fork? && t.right.Fork?
      requires y == MinOf(t.right).node
      modifies this`root, s
      ensures At(Fields(s), root, c, Joined(t))
    {
      MinReads(Fields(s), root, c, t);
      MinApart(c, t);
      if y.parent != z {
        CutMin(z, y, s, c, t);
        HandRight(z, y, s, c, t.(right := RemoveMin(t.right)));
      } else {
        DetachedNear(Fields(s), root, c, t);
      }
      TakePlace(z, y, s, c, t.left, t.color, RemoveMin(t.right));
    }

    /** y takes the place, the left subtree and the colour of z. */
    method TakePlace(z: Node, y: Node, ghost s: set<Node>, ghost c: Ctx, ghost l: Shape, ghost color: Color,
                     ghost rr: Shape)
      requires Detached(Fields(s), root, c, l, z, color, rr, y) && l.Fork?
      modifies this`root, s
      ensures At(Fields(s), root, c, Fork(l, y, y.key, color, rr))
    {
      ghost var m := Fields(s);
      DetachedReads(m, root, c, l, z, color, rr, y);
      MoveInto(z, y, s, c, l.node);
      TakenAt(m, Fields(s), old(root), c, l, z, color, rr, y);
    }

    /** The assignments by which y takes the place of z; l is the left child of z. */
    method MoveInto(z: Node, y: Node, ghost s: set<Node>, ghost c: Ctx, ghost l: Node)
      requires {y, z, l} <= s && y != z && l != z && l != y && z.left == l && Holds(c, z)
      requires c.Under? ==> c.node in s && c.node !in {y, z, l}
      modifies this`root, s
      ensures Same(old(Fields(s)), Fields(s), {y, l} + NodeSet(ParentOf(c)))
      ensures Fields(s)[y] == Record(old(z.color), l, old(y.right), ParentOf(c))
      ensures Fields(s)[l] == old(Fields(s))[l].(parent := y)
      ensures c.Under? ==> Fields(s)[c.node] == Redirect(old(Fields(s))[c.node], c.side, y)
      ensures root == if c == Top then y else old(root)
    {
      Relink(z, y, c);
      y.parent := z.parent;
      y.left := z.left;
      z.left.parent := y;
      y.color := z.color;
    }

    /** Takes z out of the tree; x is what moved up into the gap, color what was lost there. */
    method Unlink(z: Node, ghost s: set<Node>, ghost c: Ctx, ghost t: Shape) returns (x: Node?, color: Color)
      requires At(Fields(s), root, c, t) && t.Fork? && t.node == z
      modifies this`root, s
      ensures At(Fields(s), root, c, Joined(t)) && x == Ptr(GapTree(t)) && color == Victim(t).color
    {
      ghost var m := Fields(s);
      AtReads(m, root, c, t);
      var y := z;
      color := y.color;
      if z.left == null {
        x := z.right;
        SpliceOut(z, x, s, c, t, t.right);
      } else if z.right == null {
        x := z.left;
        SpliceOut(z, x, s, c, t, t.left);
      } else {
        GoDown(m, root, c, t);
        y := Minimum(z.right, s, RightCtx(c, t), t.right);
        MinReads(m, root, c, t);
        color := y.color;
        x := y.right;
        ReplaceByMin(z, y, s, c, t);
      }
    }

    /** Takes z out and runs the fixup when a black node was lost above a child. */
    method UnlinkAndFix(z: Node, ghost s: set<Node>, ghost c: Ctx, ghost t: Shape)
      returns (ok: bool, ghost whole: Shape)
      requires At(Fields(s), root, c, t) && t.Fork? && t.node == z && ColorsOk(Plug(c, t))
      modifies this`root, s
      ensures At(Fields(s), root, Top, whole) && ColorsOk(whole) && (ok <==> RemovalSafe(c, t))
      ensures Items(whole) == Items(Plug(c, Joined(t))) && Nodes(whole) == Nodes(Plug(c, Joined(t)))
      ensures NeedsFixup(t) && IsRb(Plug(c, t)) ==> IsRb(whole)
      ensures !NeedsFixup(t) ==> whole == Plug(c, Joined(t))
    {
      ok := true;
      ColoredOutcome(c, t);
      if IsRb(Plug(c, t)) { RemovalOutcome(c, t); }
      GapPlug(c, t);
      var x, color := Unlink(z, s, c, t);
      if color == Black && x != null {
        GapAt(Fields(s), root, c, t);
        ok, whole := DeleteFixup(x, s, GapCtx(c, t), GapTree(t));
      } else {
        GoTop(Fields(s), root, c, Joined(t));
        whole := Plug(c, Joined(t));
      }
    }

    ghost method Adopt(whole: Shape, s: set<Node>)
      requires At(Fields(s), root, Top, whole) && Nodes(whole) <= s && Sorted(Items(whole))
      modifies this`shape
      ensures Valid() && shape == whole
    {
      AtWithin(Fields(s), Fields(Nodes(whole)), root, whole);
      shape := whole;
    }

    /** Removes z at its place. */
    method Remove(z: Node, ghost c: Ctx, ghost t: Shape) returns (ok: bool)
      requires Valid() && ColorsOk(shape)
      requires At(Fields(Nodes(shape)), root, c, t) && Plug(c, t) == shape && t.Fork? && t.node == z
      modifies this, Nodes(shape)
      ensures Valid() && ColorsOk(shape) && Nodes(shape) == old(Nodes(shape)) - {z} && (ok <==> RemovalSafe(c, t))
      ensures LostOne(old(Items(shape)), Items(shape), Item(z, t.key))
      ensures !NeedsFixup(t) ==> shape == Plug(c, Joined(t))
      ensures IsRb(old(shape)) ==> (IsRb(shape) <==> !IsBlackLeaf(Victim(t)) || |old(Items(shape))| == 1)
    {
      ghost var s := Nodes(shape);
      ghost var whole;
      ok, whole := UnlinkAndFix(z, s, c, t);
      RemovalIs(c, t, whole);
      Adopt(whole, s);
    }

    /** Not ok means that the fixup met a missing sibling, where the code would
        read through a null pointer; the tree is then as it was left there. */
    method Delete(key: nat) returns (ok: bool, ghost removed: Node?)
      requires Valid() && ColorsOk(shape)
      modifies this, Nodes(shape)
      ensures Valid() && ColorsOk(shape)
      ensures removed == null <==> !HasKey(old(Items(shape)), key)
      ensures removed == null ==> ok && shape == old(shape)
      ensures removed != null ==> Nodes(shape) == old(Nodes(shape)) - {removed}
      ensures removed != null ==> LostOne(old(Items(shape)), Items(shape), Item(removed, key))
      ensures removed != null ==> Sought(old(shape), key).Fork?
      ensures removed != null ==>
                (ok <==> RemovalSafe(SoughtCtx(Top, old(shape), key), Sought(old(shape), key)))
      ensures removed != null && !NeedsFixup(Sought(old(shape), key)) ==> shape == Unfixed(old(shape), key)
      ensures IsRb(old(shape)) ==> ok
      ensures removed != null && IsRb(old(shape)) ==>
                (IsRb(shape) <==> !IsBlackLeaf(Victim(Sought(old(shape), key))) || |old(Items(shape))| == 1)
    {
      var z, c, t := Search(key);
      ok, removed := true, z;
      if z == null {
        return;
      }
      AtReads(Fields(Nodes(shape)), root, c, t);
      if IsRb(shape) { RedBlackIsSafe(c, t); }
      ok := Remove(z, c, t);
    }
  }
}
