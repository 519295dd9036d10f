/** The colour arguments behind the two fixup loops, as statements about shapes. */
module RbRules {
  import opened RbShape

  /** Swapping a subtree for one with the same nodes in the same order changes neither overall. */
  lemma Replaced(c: Ctx, t: Shape, t': Shape)
    requires Items(t') == Items(t) && Nodes(t') == Nodes(t)
    ensures Items(Plug(c, t')) == Items(Plug(c, t)) && Nodes(Plug(c, t')) == Nodes(Plug(c, t))
  {
    PlugItems(c, t);
    PlugItems(c, t');
    PlugNodes(c, t);
    PlugNodes(c, t');
  }

  // ---------- Insertion ----------

  /** The same items and nodes, and balanced or not alike. */
  ghost predicate Alike(t: Shape, t': Shape) {
    Items(t') == Items(t) && Nodes(t') == Nodes(t) && (Balanced(t') <==> Balanced(t))
  }

  lemma AlikeInside(c: Ctx, t: Shape, t': Shape)
    requires Alike(t, t') && (Balanced(t) ==> BlackHeight(t') == BlackHeight(t))
    ensures Alike(Plug(c, t), Plug(c, t'))
  {
    Replaced(c, t, t');
    SameBalance(c, t, t');
  }

  /** The loop state of the insertion fixup: t is red and may sit under a red
      node; otherwise the colour rules hold. */
  ghost predicate RedPair(c: Ctx, t: Shape) {
    IsRed(t) && RedOk(t) && CtxColored(c)
  }

  lemma NewLeafPair(c: Ctx, z: Node)
    requires ColorsOk(Plug(c, Leaf))
    ensures RedPair(c, Fork(Leaf, z, z.key, Red, Leaf))
    ensures Balanced(Plug(c, Fork(Leaf, z, z.key, Red, Leaf))) <==> Balanced(Plug(c, Leaf))
  {
    PlugColored(c, Leaf);
    SameBalance(c, Leaf, Fork(Leaf, z, z.key, Red, Leaf));
  }

  lemma NewLeafItems(c: Ctx, z: Node)
    requires AllUpTo(Before(c), z.key) && AllAbove(After(c), z.key) && Sorted(Items(Plug(c, Leaf)))
    ensures var whole := Plug(c, Fork(Leaf, z, z.key, Red, Leaf));
      && Items(whole) == Inserted(Items(Plug(c, Leaf)), Item(z, z.key)) && Sorted(Items(whole))
      && Nodes(whole) == Nodes(Plug(c, Leaf)) + {z}
  {
    var leaf := Fork(Leaf, z, z.key, Red, Leaf);
    assert Items(leaf) == [Item(z, z.key)];
    PlugItems(c, Leaf);
    PlugItems(c, leaf);
    PlugNodes(c, Leaf);
    PlugNodes(c, leaf);
    assert Items(Plug(c, Leaf)) == Before(c) + After(c);
    InsertedBetween(Before(c), After(c), Item(z, z.key));
    InsertedSorted(Items(Plug(c, Leaf)), Item(z, z.key), 0);
  }

  /** The parent is red, so there is a black grandparent. */
  lemma RedParent(c: Ctx, t: Shape)
    requires RedPair(c, t) && RedCtx(c)
    ensures c.up.Under? && c.up.color == Black && !IsRed(c.sibling)
  {
  }

  /** Parent and uncle black, grandparent red. */
  ghost function Recolored(c: Ctx, t: Shape): Shape
    requires c.Under? && c.up.Under? && c.up.sibling.Fork?
  {
    var g := c.up;
    Join(g.side, g.node, g.key, Red, Join(c.side, c.node, c.key, Black, t, c.sibling), Paint(g.sibling, Black))
  }

  lemma RecolorStep(c: Ctx, t: Shape)
    requires RedPair(c, t) && RedCtx(c) && c.up.Under? && IsRed(c.up.sibling)
    ensures RedPair(c.up.up, Recolored(c, t)) && Alike(Plug(c, t), Plug(c.up.up, Recolored(c, t)))
  {
    var p, y := Join(c.side, c.node, c.key, Black, t, c.sibling), Paint(c.up.sibling, Black);
    assert CtxColored(c.up);
    assert RedOk(p) && RedOk(y);
    assert Alike(JoinAt(c, t), p) && Alike(c.up.sibling, y);
    AlikeInside(c.up.up, JoinAt(c.up, JoinAt(c, t)), Recolored(c, t));
  }

  /** The child and context after an inner grandchild was rotated over its parent. */
  ghost function InnerTree(c: Ctx, t: Shape): Shape
    requires c.Under? && t.Fork?
  {
    if c.side == R then Fork(c.sibling, c.node, c.key, c.color, t.left)
    else Fork(t.right, c.node, c.key, c.color, c.sibling)
  }

  ghost function InnerCtx(c: Ctx, t: Shape): Ctx
    requires c.Under? && t.Fork?
  {
    if c.side == R then Under(c.up, L, t.node, t.key, t.color, t.right)
    else Under(c.up, R, t.node, t.key, t.color, t.left)
  }

  lemma InnerStep(c: Ctx, t: Shape)
    requires RedPair(c, t) && RedCtx(c) && c.up.Under?
    ensures RedPair(InnerCtx(c, t), InnerTree(c, t)) && RedCtx(InnerCtx(c, t))
    ensures Alike(Plug(c, t), Plug(InnerCtx(c, t), InnerTree(c, t)))
  {
    var before, after := JoinAt(c, t), JoinAt(InnerCtx(c, t), InnerTree(c, t));
    if c.side == R {
      RotateLeftItems(before);
    } else {
      RotateRightItems(before);
    }
    AlikeInside(c.up, before, after);
  }

  /** Parent black and grandparent red, before the grandparent is rotated. */
  ghost function OuterPainted(c: Ctx, t: Shape): Shape
    requires c.Under? && c.up.Under?
  {
    Join(c.up.side, c.up.node, c.up.key, Red, Join(c.side, c.node, c.key, Black, t, c.sibling), c.up.sibling)
  }

  /** The context of an outer grandchild after its grandparent was rotated. */
  ghost function OuterCtx(c: Ctx): Ctx
    requires c.Under? && c.up.Under?
  {
    Under(c.up.up, c.side, c.node, c.key, Black, Join(c.side, c.up.node, c.up.key, Red, c.sibling, c.up.sibling))
  }

  lemma OuterStep(c: Ctx, t: Shape)
    requires RedPair(c, t) && RedCtx(c) && c.up.Under? && c.side == c.up.side && !IsRed(c.up.sibling)
    ensures JoinAt(OuterCtx(c), t) ==
            if c.side == L then RotateRight(OuterPainted(c, t)) else RotateLeft(OuterPainted(c, t))
    ensures RedPair(OuterCtx(c), t) && !RedCtx(OuterCtx(c))
    ensures Alike(Plug(c, t), Plug(OuterCtx(c), t))
  {
    assert CtxColored(c.up);
    assert RedOk(OuterCtx(c).sibling);
    var before, after := JoinAt(c.up, JoinAt(c, t)), JoinAt(OuterCtx(c), t);
    if c.side == L {
      RotateRightItems(before);
      RotateRightItems(OuterPainted(c, t));
    } else {
      RotateLeftItems(before);
      RotateLeftItems(OuterPainted(c, t));
    }
    AlikeInside(c.up.up, before, after);
  }

  /** Blackening the root ends the insertion fixup. */
  lemma RootPainted(c: Ctx, t: Shape)
    requires RedPair(c, t) && !RedCtx(c)
    ensures Plug(c, t).Fork? && ColorsOk(Paint(Plug(c, t), Black)) && Alike(Plug(c, t), Paint(Plug(c, t), Black))
  {
    if c.Under? {
      PlugColored(c, t);
      PlugNodes(c, t);
    }
  }

  // ---------- Deletion ----------

  /** The loop state of the deletion fixup: t may be red under a red node;
      otherwise the colour rules hold. */
  ghost predicate Loose(c: Ctx, t: Shape) {
    t.Fork? && RedOk(Paint(t, Black)) && CtxColored(c)
  }

  /** The subtree t is one black node short, and nothing else is out of balance. */
  ghost predicate OneShort(c: Ctx, t: Shape) {
    Balanced(t) && CtxBalanced(c, BlackHeight(t) + 1)
  }

  ghost predicate Short(c: Ctx, t: Shape) { Loose(c, t) && OneShort(c, t) }

  /** The sibling of a short subtree exists; if red, its children exist. A red
      sibling has a black parent and black children, short or not. */
  lemma SiblingIs(c: Ctx, t: Shape)
    requires Loose(c, t) && c.Under?
    ensures OneShort(c, t) ==> c.sibling.Fork?
    ensures IsRed(c.sibling) ==> c.color == Black && !IsRed(Near(c)) && !IsRed(Far(c))
    ensures IsRed(c.sibling) && OneShort(c, t) ==> Near(c).Fork?
  {
  }

  /** The child of the sibling on the side of the gap, and the other one. */
  ghost function Near(c: Ctx): Shape
    requires c.Under? && c.sibling.Fork?
  {
    if c.side == L then c.sibling.left else c.sibling.right
  }

  ghost function Far(c: Ctx): Shape
    requires c.Under? && c.sibling.Fork?
  {
    if c.side == L then c.sibling.right else c.sibling.left
  }

  ghost function Rotated(side: Side, t: Shape): Shape
    requires t.Fork? && (if side == L then t.right.Fork? else t.left.Fork?)
  {
    if side == L then RotateLeft(t) else RotateRight(t)
  }

  lemma RotatedItems(side: Side, t: Shape)
    requires t.Fork? && (if side == L then t.right.Fork? else t.left.Fork?)
    ensures Items(Rotated(side, t)) == Items(t) && Nodes(Rotated(side, t)) == Nodes(t)
  {
    if side == L { RotateLeftItems(t); } else { RotateRightItems(t); }
  }

  /** A context with other colours at the parent and the sibling. */
  ghost function Repainted(c: Ctx, parentColor: Color, siblingColor: Color): Ctx
    requires c.Under? && c.sibling.Fork?
  {
    c.(color := parentColor, sibling := Paint(c.sibling, siblingColor))
  }

  /** Red sibling: it becomes the grandparent, the near nephew the new sibling. */
  ghost function RedSiblingCtx(c: Ctx): Ctx
    requires c.Under? && c.sibling.Fork?
  {
    var w := c.sibling;
    Under(Under(c.up, c.side, w.node, w.key, Black, Far(c)), c.side, c.node, c.key, Red, Near(c))
  }

  lemma RedSiblingStep(c: Ctx, t: Shape)
    requires Loose(c, t) && c.Under? && IsRed(c.sibling)
    ensures Loose(RedSiblingCtx(c), t) && !IsRed(Near(c))
    ensures OneShort(c, t) ==> OneShort(RedSiblingCtx(c), t) && Near(c).Fork?
    ensures JoinAt(RedSiblingCtx(c).up, JoinAt(RedSiblingCtx(c), t)) ==
            Rotated(c.side, JoinAt(Repainted(c, Red, Black), t))
    ensures Items(Plug(RedSiblingCtx(c), t)) == Items(Plug(c, t)) &&
            Nodes(Plug(RedSiblingCtx(c), t)) == Nodes(Plug(c, t))
  {
    SiblingIs(c, t);
    var after := RedSiblingCtx(c);
    RotatedItems(c.side, JoinAt(Repainted(c, Red, Black), t));
    Replaced(c.up, JoinAt(c, t), JoinAt(after.up, JoinAt(after, t)));
  }

  /** Black sibling with black children: it turns red and the shortage moves up. */
  lemma BlackNephewsStep(c: Ctx, t: Shape)
    requires Loose(c, t) && c.Under? && t.color == Black
    requires c.sibling.Fork? && !IsRed(c.sibling) && !IsRed(Near(c)) && !IsRed(Far(c))
    ensures Loose(c.up, JoinAt(Repainted(c, c.color, Red), t))
    ensures OneShort(c, t) ==> OneShort(c.up, JoinAt(Repainted(c, c.color, Red), t))
    ensures Items(Plug(c.up, JoinAt(Repainted(c, c.color, Red), t))) == Items(Plug(c, t))
    ensures Nodes(Plug(c.up, JoinAt(Repainted(c, c.color, Red), t))) == Nodes(Plug(c, t))
  {
    assert RedOk(Paint(c.sibling, Red));
    Replaced(c.up, JoinAt(c, t), JoinAt(Repainted(c, c.color, Red), t));
  }

  /** The sibling with its near child (painted black) rotated over it. */
  ghost function NearLifted(c: Ctx): Shape
    requires c.Under? && c.sibling.Fork? && Near(c).Fork?
  {
    var w, n := c.sibling, Near(c);
    if c.side == L
    then Fork(n.left, n.node, n.key, Black, Fork(n.right, w.node, w.key, Red, w.right))
    else Fork(Fork(w.left, w.node, w.key, Red, n.left), n.node, n.key, Black, n.right)
  }

  lemma NearLiftedLeft(c: Ctx)
    requires c.Under? && c.sibling.Fork? && Near(c).Fork? && c.side == L
    ensures Items(NearLifted(c)) == Items(c.sibling) && Nodes(NearLifted(c)) == Nodes(c.sibling)
  {
    var w, n := c.sibling, c.sibling.left;
    RotateRightItems(w);
    var low := Fork(n.right, w.node, w.key, Red, w.right);
    assert Nodes(low) == Nodes(n.right) + {w.node} + Nodes(w.right);
    assert Nodes(NearLifted(c)) == Nodes(n.left) + {n.node} + Nodes(low);
    assert Nodes(w) == (Nodes(n.left) + {n.node} + Nodes(n.right)) + {w.node} + Nodes(w.right);
  }

  lemma NearLiftedRight(c: Ctx)
    requires c.Under? && c.sibling.Fork? && Near(c).Fork? && c.side == R
    ensures Items(NearLifted(c)) == Items(c.sibling) && Nodes(NearLifted(c)) == Nodes(c.sibling)
  {
    var w, n := c.sibling, c.sibling.right;
    RotateLeftItems(w);
    var low := Fork(w.left, w.node, w.key, Red, n.left);
    assert Nodes(low) == Nodes(w.left) + {w.node} + Nodes(n.left);
    assert Nodes(NearLifted(c)) == Nodes(low) + {n.node} + Nodes(n.right);
    assert Nodes(w) == Nodes(w.left) + {w.node} + (Nodes(n.left) + {n.node} + Nodes(n.right));
  }

  lemma NearLiftedColors(c: Ctx, t: Shape)
    requires Loose(c, t) && c.Under? && c.sibling.Fork?
    requires !IsRed(c.sibling) && IsRed(Near(c)) && !IsRed(Far(c))
    ensures var c' := c.(sibling := NearLifted(c)); Loose(c', t) && IsRed(Far(c')) && !IsRed(c'.sibling)
  {
    assert RedOk(Near(c)) && RedOk(Far(c)) && RedOk(Far(c.(sibling := NearLifted(c))));
  }

  lemma NearLiftedBalance(c: Ctx, t: Shape)
    requires OneShort(c, t) && c.Under? && c.sibling.Fork? && IsRed(Near(c)) && !IsRed(c.sibling)
    ensures OneShort(c.(sibling := NearLifted(c)), t)
  {
    assert Balanced(Near(c)) && Balanced(Far(c));
    var f := Far(c.(sibling := NearLifted(c)));
    assert Balanced(f) && BlackHeight(f) == BlackHeight(t);
  }

  lemma RedNearStep(c: Ctx, t: Shape)
    requires Loose(c, t) && c.Under? && t.color == Black
    requires c.sibling.Fork? && !IsRed(c.sibling) && IsRed(Near(c)) && !IsRed(Far(c))
    ensures var c' := c.(sibling := NearLifted(c));
      && Loose(c', t) && (OneShort(c, t) ==> OneShort(c', t)) && IsRed(Far(c')) && !IsRed(c'.sibling)
      && Items(Plug(c', t)) == Items(Plug(c, t)) && Nodes(Plug(c', t)) == Nodes(Plug(c, t))
  {
    NearLiftedColors(c, t);
    if OneShort(c, t) { NearLiftedBalance(c, t); }
    if c.side == L { NearLiftedLeft(c); } else { NearLiftedRight(c); }
    Replaced(c.up, JoinAt(c, t), JoinAt(c.(sibling := NearLifted(c)), t));
  }

  /** The parent's place after a rotation toward the short side, red far nephew: no shortage is left. */
  ghost function Settled(c: Ctx, t: Shape): Shape
    requires c.Under? && c.sibling.Fork? && Far(c).Fork?
  {
    var w := c.sibling;
    Join(c.side, w.node, w.key, c.color, Join(c.side, c.node, c.key, Black, t, Near(c)), Paint(Far(c), Black))
  }

  lemma RedFarStep(c: Ctx, t: Shape)
    requires Loose(c, t) && c.Under? && t.color == Black
    requires c.sibling.Fork? && !IsRed(c.sibling) && IsRed(Far(c))
    ensures ColorsOk(Plug(c.up, Settled(c, t))) && Loose(Top, Plug(c.up, Settled(c, t)))
    ensures OneShort(c, t) ==> Balanced(Plug(c.up, Settled(c, t)))
    ensures Items(Plug(c.up, Settled(c, t))) == Items(Plug(c, t)) &&
            Nodes(Plug(c.up, Settled(c, t))) == Nodes(Plug(c, t))
  {
    var s := Settled(c, t);
    var p, f := Join(c.side, c.node, c.key, Black, t, Near(c)), Paint(Far(c), Black);
    assert RedOk(p) && RedOk(Far(c)) && RedOk(f) && RedOk(s);
    if OneShort(c, t) {
      assert Balanced(Far(c)) && BlackHeight(f) == BlackHeight(t) + 1 == BlackHeight(p) && Balanced(p);
    }
    RotatedItems(c.side, JoinAt(c, t));
    Replaced(c.up, JoinAt(c, t), s);
    PlugColored(c.up, s);
    PlugBalanced(c.up, s);
    PlugNodes(c.up, s);
  }

  /** Blackening the subtree ends the deletion fixup. */
  lemma LooseEnds(c: Ctx, t: Shape)
    requires Loose(c, t)
    ensures ColorsOk(Plug(c, Paint(t, Black)))
    ensures OneShort(c, t) && (c == Top || t.color == Red) ==> Balanced(Plug(c, Paint(t, Black)))
    ensures Items(Plug(c, Paint(t, Black))) == Items(Plug(c, t)) && Nodes(Plug(c, Paint(t, Black))) == Nodes(Plug(c, t))
  {
    PlugColored(c, Paint(t, Black));
    PlugBalanced(c, Paint(t, Black));
    Replaced(c, t, Paint(t, Black));
  }

  /** On the way up from t, no sibling is missing that the loop reads: a missing
      left sibling is read, a missing right one is not, and neither is anything
      behind a red node or a red child of a black sibling. */
  ghost predicate SiblingsMet(c: Ctx, t: Shape)
    requires t.Fork?
    decreases c
  {
    if c == Top || t.color == Red then true
    else if c.sibling == Leaf then c.side == L
    else if IsRed(c.sibling) then Near(c).Fork?
    else if IsRed(Near(c)) || IsRed(Far(c)) then true
    else SiblingsMet(c.up, JoinAt(Repainted(c, c.color, Red), t))
  }

  /** The fixup has come from t0 to t: the items and nodes are the same, and so
      is what is still to be met. */
  ghost predicate Carried(c0: Ctx, t0: Shape, c: Ctx, t: Shape)
    requires t0.Fork? && t.Fork?
  {
    && Items(Plug(c, t)) == Items(Plug(c0, t0)) && Nodes(Plug(c, t)) == Nodes(Plug(c0, t0))
    && (OneShort(c0, t0) ==> OneShort(c, t)) && (SiblingsMet(c, t) <==> SiblingsMet(c0, t0))
  }

  /** The fixup has met a missing sibling at t. */
  ghost predicate Stuck(c0: Ctx, t0: Shape, c: Ctx, t: Shape)
    requires t0.Fork? && t.Fork?
  {
    && Items(Plug(c, t)) == Items(Plug(c0, t0)) && Nodes(Plug(c, t)) == Nodes(Plug(c0, t0))
    && !SiblingsMet(c0, t0) && t.color == Black
  }

  /** No sibling is missing when a subtree is one black node short of balance. */
  lemma {:induction false} ShortMeetsSiblings(c: Ctx, t: Shape)
    requires Short(c, t)
    ensures SiblingsMet(c, t)
    decreases c
  {
    if c.Under? && t.color == Black {
      SiblingIs(c, t);
      if !IsRed(c.sibling) && !IsRed(Near(c)) && !IsRed(Far(c)) {
        BlackNephewsStep(c, t);
        ShortMeetsSiblings(c.up, JoinAt(Repainted(c, c.color, Red), t));
      }
    }
  }
}
