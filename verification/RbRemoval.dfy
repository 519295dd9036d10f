/** Taking a node out of a red-black tree: the subtree that replaces it, where
    the gap ends up, and when the result is still red-black. */
module RbRemoval {
  import opened RbShape
  import opened RbRules

  // ---------- The node that is sought, and the minimum of a subtree ----------

  /** The subtree a search for the key stops at. */
  ghost function Sought(t: Shape, key: nat): Shape {
    match t
    case Leaf => Leaf
    case Fork(l, _, k, _, r) => if k == key then t else if key < k then Sought(l, key) else Sought(r, key)
  }

  /** The position the search stops at, from t in context c on. */
  ghost function SoughtCtx(c: Ctx, t: Shape, key: nat): Ctx
    decreases t
  {
    if t == Leaf || t.key == key then c
    else if key < t.key then SoughtCtx(LeftCtx(c, t), t.left, key)
    else SoughtCtx(RightCtx(c, t), t.right, key)
  }

  ghost function MinTree(t: Shape): Shape
    requires t.Fork?
  {
    if t.left == Leaf then t else MinTree(t.left)
  }

  ghost function MinCtx(c: Ctx, t: Shape): Ctx
    requires t.Fork?
    decreases t
  {
    if t.left == Leaf then c else MinCtx(LeftCtx(c, t), t.left)
  }

  ghost function RemoveMin(t: Shape): Shape
    requires t.Fork?
  {
    if t.left == Leaf then t.right else t.(left := RemoveMin(t.left))
  }

  lemma {:induction false} MinIs(c: Ctx, t: Shape)
    requires t.Fork?
    ensures MinTree(t).Fork? && MinTree(t).left == Leaf && MinTree(t).node in Nodes(t)
    ensures Plug(MinCtx(c, t), MinTree(t)) == Plug(c, t)
    ensures Plug(MinCtx(c, t), MinTree(t).right) == Plug(c, RemoveMin(t))
    ensures Items(t) == [Item(MinTree(t).node, MinTree(t).key)] + Items(RemoveMin(t))
    ensures Nodes(t) == {MinTree(t).node} + Nodes(RemoveMin(t))
    ensures t.left.Fork? ==> MinCtx(c, t).Under? && MinCtx(c, t).side == L
    decreases t
  {
    if t.left.Fork? {
      MinIs(LeftCtx(c, t), t.left);
    }
  }

  lemma {:induction false} MinDistinct(t: Shape)
    requires t.Fork? && Distinct(t)
    ensures Distinct(RemoveMin(t)) && MinTree(t).Fork? && MinTree(t).node !in Nodes(RemoveMin(t))
  {
    MinIs(Top, t);
    if t.left.Fork? {
      MinIs(Top, t.left);
      MinDistinct(t.left);
    }
  }

  lemma {:induction false} MinDown(m: Memory, root: Node?, c: Ctx, t: Shape)
    requires At(m, root, c, t) && t.Fork?
    ensures At(m, root, MinCtx(c, t), MinTree(t))
    decreases t
  {
    if t.left.Fork? {
      GoDown(m, root, c, t);
      MinDown(m, root, LeftCtx(c, t), t.left);
    }
  }

  lemma {:induction false} MinUp(m: Memory, root: Node?, c: Ctx, t: Shape)
    requires t.Fork? && MinTree(t).Fork? && At(m, root, MinCtx(c, t), MinTree(t).right)
    ensures At(m, root, c, RemoveMin(t))
    decreases t
  {
    if t.left.Fork? {
      MinUp(m, root, LeftCtx(c, t), t.left);
      GoUp(m, root, LeftCtx(c, t), RemoveMin(t.left));
    }
  }

  // ---------- The tree after the removal ----------

  /** What takes the place of t when its topmost node goes. */
  ghost function Joined(t: Shape): Shape
    requires t.Fork?
  {
    if t.left == Leaf then t.right
    else if t.right == Leaf then t.left
    else Fork(t.left, MinOf(t.right).node, MinOf(t.right).key, t.color, RemoveMin(t.right))
  }

  ghost function MinOf(t: Shape): (r: Shape)
    requires t.Fork?
    ensures r == MinTree(t) && r.Fork?
  {
    MinIs(Top, t);
    MinTree(t)
  }

  /** The subtree whose node is physically unlinked: t itself, or the minimum to its right. */
  ghost function Victim(t: Shape): (r: Shape)
    requires t.Fork?
    ensures r.Fork?
  {
    if t.left == Leaf || t.right == Leaf then t else MinOf(t.right)
  }

  ghost predicate IsBlackLeaf(t: Shape) {
    t.Fork? && t.color == Black && t.left == Leaf && t.right == Leaf
  }

  /** The context of the minimum, once it has been moved over the topmost node of t. */
  ghost function MovedCtx(c: Ctx, t: Shape): Ctx
    requires t.Fork? && t.right.Fork?
  {
    Under(c, R, MinOf(t.right).node, MinOf(t.right).key, t.color, t.left)
  }

  /** Where the victim was, in the new tree, and the child that moved up there. */
  ghost function GapCtx(c: Ctx, t: Shape): Ctx
    requires t.Fork?
  {
    if t.left == Leaf || t.right == Leaf then c else MinCtx(MovedCtx(c, t), t.right)
  }

  ghost function GapTree(t: Shape): Shape
    requires t.Fork?
  {
    if t.left == Leaf then t.right else if t.right == Leaf then t.left else MinOf(t.right).right
  }

  lemma GapPlug(c: Ctx, t: Shape)
    requires t.Fork?
    ensures Plug(GapCtx(c, t), GapTree(t)) == Plug(c, Joined(t))
  {
    if t.left.Fork? && t.right.Fork? {
      MinIs(MovedCtx(c, t), t.right);
    }
  }

  lemma JoinedIs(t: Shape)
    requires t.Fork?
    ensures Items(Joined(t)) == Items(t.left) + Items(t.right)
    ensures Nodes(Joined(t)) == Nodes(t.left) + Nodes(t.right)
  {
    if t.left.Fork? && t.right.Fork? {
      MinIs(Top, t.right);
    }
  }

  /** s without its element i. */
  ghost function Without(s: seq<Item>, i: nat): seq<Item>
    requires i < |s|
  {
    s[..i] + s[i + 1..]
  }

  lemma Cut(a: seq<Item>, l: seq<Item>, it: Item, r: seq<Item>, b: seq<Item>, s: seq<Item>)
    requires s == a + (l + [it] + r) + b
    ensures |a| + |l| < |s| && s[|a| + |l|] == it && Without(s, |a| + |l|) == a + (l + r) + b
  {
  }

  /** The items lose exactly the topmost item of t. */
  lemma JoinedItems(c: Ctx, t: Shape, s: seq<Item>, i: nat)
    requires t.Fork? && s == Items(Plug(c, t)) && i == |Before(c)| + |Items(t.left)|
    ensures i < |s| && s[i] == Item(t.node, t.key) && Items(Plug(c, Joined(t))) == Without(s, i)
  {
    PlugItems(c, t);
    PlugItems(c, Joined(t));
    JoinedIs(t);
    Cut(Before(c), Items(t.left), Item(t.node, t.key), Items(t.right), After(c), s);
  }

  lemma JoinedNodes(c: Ctx, t: Shape)
    requires t.Fork? && Apart(c, t)
    ensures Nodes(Plug(c, Joined(t))) == Nodes(Plug(c, t)) - {t.node}
  {
    PlugNodes(c, t);
    PlugNodes(c, Joined(t));
    JoinedIs(t);
  }

  // ---------- When the result is red-black ----------

  /** In a red-black tree the victim has at most one child, which is red and
      childless; so the replacement handed to the fixup loop is always red. */
  lemma GapGood(c: Ctx, t: Shape)
    requires t.Fork? && IsRb(Plug(c, t))
    ensures CtxGood(GapCtx(c, t), BlackHeight(Victim(t)))
    ensures BlackHeight(Victim(t)) == if IsRed(Victim(t)) then 0 else 1
    ensures BlackHeight(GapTree(t)) == 0 && Balanced(GapTree(t)) && RedOk(GapTree(t))
    ensures IsRed(Victim(t)) ==> GapTree(t) == Leaf
    ensures GapTree(t) == Leaf <==> Victim(t).left == Leaf && Victim(t).right == Leaf
    ensures GapTree(t).Fork? ==> GapTree(t).color == Red
  {
    VictimFits(c, t);
    SplitGood(GapCtx(c, t), Victim(t));
    GapIsChild(t);
    SmallVictim(Victim(t), GapTree(t));
  }

  lemma GapIsChild(t: Shape)
    requires t.Fork?
    ensures var v, g := Victim(t), GapTree(t); (v.left == Leaf && g == v.right) || (v.right == Leaf && g == v.left)
  {
    if t.left.Fork? && t.right.Fork? { MinIs(Top, t.right); }
  }

  /** With two children the victim is the minimum to the right, which keeps its
      place in the order below the new topmost node. */
  lemma MinVictimIs(c: Ctx, t: Shape)
    requires t.Fork? && t.left.Fork? && t.right.Fork?
    ensures Plug(GapCtx(c, t), Victim(t)) == Plug(MovedCtx(c, t), t.right)
  {
    MinIs(MovedCtx(c, t), t.right);
  }

  /** Around the gap the victim fits as it did before. */
  lemma VictimFits(c: Ctx, t: Shape)
    requires t.Fork?
    ensures ColorsOk(Plug(c, t)) ==> ColorsOk(Plug(GapCtx(c, t), Victim(t)))
    ensures Balanced(Plug(c, t)) ==> Balanced(Plug(GapCtx(c, t), Victim(t)))
  {
    if t.left.Fork? && t.right.Fork? {
      MinVictimIs(c, t);
      PlugColored(c, t);
      PlugBalanced(c, t);
      PlugColored(MovedCtx(c, t), t.right);
      PlugBalanced(MovedCtx(c, t), t.right);
    }
  }

  /** A node with at most one child in a red-black tree. */
  lemma SmallVictim(v: Shape, g: Shape)
    requires v.Fork? && RedOk(v) && Balanced(v)
    requires (v.left == Leaf && g == v.right) || (v.right == Leaf && g == v.left)
    ensures BlackHeight(v) == (if IsRed(v) then 0 else 1) && BlackHeight(g) == 0 && Balanced(g) && RedOk(g)
    ensures (IsRed(v) ==> g == Leaf) && (g == Leaf <==> v.left == Leaf && v.right == Leaf) &&
            (g.Fork? ==> g.color == Red)
  {
    assert BlackHeight(g) == 0;
  }

  /** Without the fixup: red-black exactly when the victim was not a black node
      without children, or nothing is left; with a child, the fixup applies. */
  lemma RemovalOutcome(c: Ctx, t: Shape)
    requires t.Fork? && IsRb(Plug(c, t))
    ensures IsRed(Victim(t)) ==> IsRb(Plug(c, Joined(t)))
    ensures !IsRed(Victim(t)) && GapTree(t).Fork? ==> Short(GapCtx(c, t), GapTree(t))
    ensures IsBlackLeaf(Victim(t)) ==> GapTree(t) == Leaf && (IsRb(Plug(c, Joined(t))) <==> Plug(c, Joined(t)) == Leaf)
  {
    GapGood(c, t);
    GapPlug(c, t);
    var gc, g := GapCtx(c, t), GapTree(t);
    PlugColored(gc, g);
    PlugBalanced(gc, g);
  }

  /** In any tree with the colour rules they hold after the removal, or the
      fixup applies. */
  lemma ColoredOutcome(c: Ctx, t: Shape)
    requires t.Fork? && ColorsOk(Plug(c, t))
    ensures IsRed(Victim(t)) || GapTree(t) == Leaf ==> ColorsOk(Plug(c, Joined(t)))
    ensures GapTree(t).Fork? ==> Loose(GapCtx(c, t), GapTree(t))
  {
    VictimFits(c, t);
    PlugColored(GapCtx(c, t), Victim(t));
    GapIsChild(t);
    GapPlug(c, t);
    PlugColored(GapCtx(c, t), GapTree(t));
  }

  /** A black node is lost above a child, and the fixup is called for it. */
  ghost predicate NeedsFixup(t: Shape)
    requires t.Fork?
  {
    !IsRed(Victim(t)) && GapTree(t).Fork?
  }

  /** The removal of the topmost node of t reads no missing sibling. */
  ghost predicate RemovalSafe(c: Ctx, t: Shape)
    requires t.Fork?
  {
    NeedsFixup(t) ==> SiblingsMet(GapCtx(c, t), GapTree(t))
  }

  /** In a red-black tree every removal is safe. */
  lemma RedBlackIsSafe(c: Ctx, t: Shape)
    requires t.Fork? && IsRb(Plug(c, t))
    ensures RemovalSafe(c, t)
  {
    RemovalOutcome(c, t);
    if NeedsFixup(t) { ShortMeetsSiblings(GapCtx(c, t), GapTree(t)); }
  }

  // ---------- Links ----------

  ghost function NodeSet(n: Node?): set<Node> {
    if n == null then {} else {n}
  }

  lemma SpliceReads(m: Memory, root: Node?, c: Ctx, t: Shape, g: Shape)
    requires At(m, root, c, t) && t.Fork? && (g == t.left || g == t.right)
    ensures t.node in m && m[t.node].parent == ParentOf(c) && m[t.node].left == Ptr(t.left) &&
            m[t.node].right == Ptr(t.right)
    ensures c.Under? ==> c.node in m && c.node != t.node
    ensures c.Under? ==>
              if c.side == L then m[c.node].left == t.node else m[c.node].right == t.node && m[c.node].left != t.node
    ensures g.Fork? ==> g.node in m && g.node != t.node && (c.Under? ==> c.node != g.node)
  {
    AtReads(m, root, c, t);
    AtHoldsChild(m, root, c, t);
    GoDown(m, root, c, t);
    assert g.Fork? ==> g.node in Nodes(t);
  }

  /** t had only the child g (or none); g now hangs where t hung. */
  lemma SplicedAt(m: Memory, m': Memory, root: Node?, c: Ctx, t: Shape, g: Shape)
    requires At(m, root, c, t) && t.Fork? && (g == t.left || g == t.right)
    requires Same(m, m', NodeSet(Ptr(g)) + NodeSet(ParentOf(c)))
    requires g.Fork? ==> g.node in m && m'[g.node] == m[g.node].(parent := ParentOf(c))
    requires c.Under? ==> c.node in m && m'[c.node] == Redirect(m[c.node], c.side, Ptr(g))
    ensures At(m', if c == Top then Ptr(g) else root, c, g)
  {
    GoDown(m, root, c, t);
    AtReads(m, root, c, t);
    var changed := NodeSet(Ptr(g)) + NodeSet(ParentOf(c));
    ReparentedAfter(m, m', g, t.node, ParentOf(c), changed);
    RelinkedAfter(m, m', c, t.node, root, Ptr(g), changed);
  }

  /** z still holds its place, but y owns what is to be its right subtree. */
  ghost predicate Detached(m: Memory, root: Node?, c: Ctx, l: Shape, z: Node, color: Color, rr: Shape, y: Node) {
    && z in m && y in m && z != y
    && m[z].left == Ptr(l) && m[z].parent == ParentOf(c) && m[z].color == color && m[y].right == Ptr(rr)
    && CtxLinked(m, c, z, root) && Linked(m, l, z) && Linked(m, rr, y)
    && Apart(c, l) && Apart(c, rr) && Nodes(l) !! Nodes(rr)
    && z !in CtxNodes(c) + Nodes(l) + Nodes(rr) && y !in CtxNodes(c) + Nodes(l) + Nodes(rr)
  }

  lemma MinApart(c: Ctx, t: Shape)
    requires Apart(c, t) && t.Fork? && t.right.Fork?
    ensures var y := MinOf(t.right).node;
      y !in CtxNodes(c) && y !in Nodes(t.(right := RemoveMin(t.right)))
  {
    MinIs(Top, t.right);
    MinDistinct(t.right);
  }

  /** The minimum of the right subtree is the right child exactly when its parent is the top. */
  lemma MinReads(m: Memory, root: Node?, c: Ctx, t: Shape)
    requires At(m, root, c, t) && t.Fork? && t.right.Fork?
    ensures var y := MinOf(t.right).node;
      && y in m && y.key == MinOf(t.right).key && m[y].color == MinOf(t.right).color &&
          m[y].right == Ptr(MinOf(t.right).right)
      && (m[y].parent == t.node <==> t.right.left == Leaf)
  {
    var rc, yt := RightCtx(c, t), MinOf(t.right);
    GoDown(m, root, c, t);
    MinIs(rc, t.right);
    MinDown(m, root, rc, t.right);
    AtReads(m, root, MinCtx(rc, t.right), yt);
    if t.right.left.Fork? {
      MinParent(rc, t.right);
    }
  }

  lemma {:induction false} MinParent(c: Ctx, t: Shape)
    requires t.Fork? && t.left.Fork?
    ensures MinCtx(c, t).Under? && MinCtx(c, t).node in Nodes(t)
    decreases t
  {
    if t.left.left.Fork? {
      MinParent(LeftCtx(c, t), t.left);
    }
  }

  lemma DetachedNear(m: Memory, root: Node?, c: Ctx, t: Shape)
    requires At(m, root, c, t) && t.Fork? && t.right.Fork? && t.right.left == Leaf
    ensures Detached(m, root, c, t.left, t.node, t.color, RemoveMin(t.right), MinOf(t.right).node)
  {
    AtReads(m, root, c, t);
    assert Linked(m, t.right, t.node) && Distinct(t.right);
    assert Nodes(t.right) <= Nodes(t);
  }

  lemma DetachedFar(m: Memory, m': Memory, root: Node?, c: Ctx, t: Shape, y: Node)
    requires At(m, root, c, t) && t.Fork? && t.right.Fork?
    requires y in m && y !in Nodes(t) && y !in CtxNodes(c)
    requires Same(m, m', {y, t.right.node})
    requires m'[y].right == t.right.node && t.right.node in m && m'[t.right.node] == m[t.right.node].(parent := y)
    ensures Detached(m', root, c, t.left, t.node, t.color, t.right, y)
  {
    AtReads(m, root, c, t);
    GoDown(m, root, c, t);
    var changed := {y, t.right.node};
    assert t.right.node in Nodes(t.right);
    ReparentedAfter(m, m', t.right, t.node, y, changed);
    LinkedAfter(m, m', t.left, t.node, changed);
    CtxFrame(m, m', c, t.node, root);
  }

  lemma DetachedReads(m: Memory, root: Node?, c: Ctx, l: Shape, z: Node, color: Color, rr: Shape, y: Node)
    requires Detached(m, root, c, l, z, color, rr, y)
    ensures c.Under? ==> c.node in m && c.node != z && c.node != y
    ensures c.Under? ==> if c.side == L then m[c.node].left == z else m[c.node].right == z && m[c.node].left != z
    ensures l.Fork? ==> l.node in m && l.node != z && l.node != y && (c.Under? ==> l.node != c.node)
  {
    assert c.Under? ==> c.node in CtxNodes(c) && (c.sibling.Fork? ==> c.sibling.node in CtxNodes(c));
    assert l.Fork? ==> l.node in Nodes(l);
  }

  /** y has taken the place, the colour and the left subtree of z. */
  lemma TakenAt(m: Memory, m': Memory, root: Node?, c: Ctx, l: Shape, z: Node, color: Color, rr: Shape, y: Node)
    requires Detached(m, root, c, l, z, color, rr, y)
    requires Same(m, m', {y} + NodeSet(Ptr(l)) + NodeSet(ParentOf(c)))
    requires m'[y] == Record(color, Ptr(l), Ptr(rr), ParentOf(c))
    requires l.Fork? ==> l.node in m && m'[l.node] == m[l.node].(parent := y)
    requires c.Under? ==> c.node in m && m'[c.node] == Redirect(m[c.node], c.side, y)
    ensures At(m', if c == Top then y else root, c, Fork(l, y, y.key, color, rr))
  {
    var changed := {y} + NodeSet(Ptr(l)) + NodeSet(ParentOf(c));
    assert l.Fork? ==> l.node in Nodes(l);
    assert c.Under? ==> c.node in CtxNodes(c);
    ReparentedAfter(m, m', l, z, y, changed);
    LinkedAfter(m, m', rr, y, changed);
    RelinkedAfter(m, m', c, z, root, y, changed);
  }

  lemma {:induction false} GapDown(m: Memory, root: Node?, c: Ctx, t: Shape)
    requires t.Fork? && At(m, root, c, RemoveMin(t))
    ensures MinTree(t).Fork? && At(m, root, MinCtx(c, t), MinTree(t).right)
    decreases t
  {
    if t.left.Fork? {
      GoDown(m, root, c, RemoveMin(t));
      GapDown(m, root, LeftCtx(c, t), t.left);
    }
  }

  lemma GapAt(m: Memory, root: Node?, c: Ctx, t: Shape)
    requires t.Fork? && At(m, root, c, Joined(t))
    ensures At(m, root, GapCtx(c, t), GapTree(t))
  {
    if t.left.Fork? && t.right.Fork? {
      GoDown(m, root, c, Joined(t));
      GapDown(m, root, MovedCtx(c, t), t.right);
    }
  }

  /** before and after differ by one occurrence of it. */
  ghost predicate LostOne(before: seq<Item>, after: seq<Item>, it: Item) {
    exists i :: 0 <= i < |before| && before[i] == it && after == Without(before, i)
  }

  lemma WithoutSorted(s: seq<Item>, i: nat)
    requires i < |s| && Sorted(s)
    ensures Sorted(Without(s, i)) && |Without(s, i)| == |s| - 1
  {
  }

  /** The final tree whole is red-black exactly when no childless black node was
      taken out, or nothing is left. */
  lemma RemovalVerdict(c: Ctx, t: Shape, whole: Shape)
    requires t.Fork? && IsRb(Plug(c, t)) && (whole == Leaf <==> |Items(Plug(c, t))| == 1)
    requires if NeedsFixup(t) then IsRb(whole) else whole == Plug(c, Joined(t))
    ensures IsRb(whole) <==> !IsBlackLeaf(Victim(t)) || |Items(Plug(c, t))| == 1
  {
    RemovalOutcome(c, t);
    GapGood(c, t);
  }

  /** Items and nodes of any tree with the items of the joined one. */
  lemma RemovalItems(c: Ctx, t: Shape, whole: Shape)
    requires t.Fork? && Apart(c, t) && Sorted(Items(Plug(c, t)))
    requires Items(whole) == Items(Plug(c, Joined(t))) && Nodes(whole) == Nodes(Plug(c, Joined(t)))
    ensures Nodes(whole) == Nodes(Plug(c, t)) - {t.node}
    ensures LostOne(Items(Plug(c, t)), Items(whole), Item(t.node, t.key))
    ensures Sorted(Items(whole)) && (whole == Leaf <==> |Items(Plug(c, t))| == 1)
  {
    JoinedNodes(c, t);
    var s, i := Items(Plug(c, t)), |Before(c)| + |Items(t.left)|;
    JoinedItems(c, t, s, i);
    WithoutSorted(s, i);
    ItemsSize(whole);
  }

  lemma RemovalIs(c: Ctx, t: Shape, whole: Shape)
    requires t.Fork? && Apart(c, t) && Sorted(Items(Plug(c, t)))
    requires Items(whole) == Items(Plug(c, Joined(t))) && Nodes(whole) == Nodes(Plug(c, Joined(t)))
    requires NeedsFixup(t) && IsRb(Plug(c, t)) ==> IsRb(whole)
    requires !NeedsFixup(t) ==> whole == Plug(c, Joined(t))
    ensures Nodes(whole) == Nodes(Plug(c, t)) - {t.node}
    ensures LostOne(Items(Plug(c, t)), Items(whole), Item(t.node, t.key)) && Sorted(Items(whole))
    ensures IsRb(Plug(c, t)) ==> (IsRb(whole) <==> !IsBlackLeaf(Victim(t)) || |Items(Plug(c, t))| == 1)
  {
    RemovalItems(c, t, whole);
    if IsRb(Plug(c, t)) { RemovalVerdict(c, t, whole); }
  }

  lemma AtWithin(m: Memory, m': Memory, root: Node?, t: Shape)
    requires At(m, root, Top, t) && forall n :: n in Nodes(t) && n in m ==> n in m' && m'[n] == m[n]
    ensures At(m', root, Top, t)
  {
    LinkedFrame(m, m', t, null);
  }

  lemma OneItem(n: Node, k: nat)
    ensures Items(Fork(Leaf, n, k, Black, Leaf)) == [Item(n, k)]
  {
    assert Items(Leaf) == [];
    assert Items(Fork(Leaf, n, k, Black, Leaf)) == [] + [Item(n, k)] + [];
  }

  /** The smallest damage: a black root with two black leaves is red-black, and
      taking the left leaf out leaves a tree that is not. */
  lemma DamagedByRemoval(x: Node, y: Node, z: Node)
    ensures var t := Fork(Fork(Leaf, x, 1, Black, Leaf), y, 2, Black, Fork(Leaf, z, 3, Black, Leaf));
      && IsRb(t) && Sorted(Items(t)) && Sought(t, 1) == t.left && IsBlackLeaf(Victim(t.left))
      && Plug(Under(Top, L, y, 2, Black, t.right), t.left) == t
      && !IsRb(Plug(Under(Top, L, y, 2, Black, t.right), Joined(t.left)))
  {
    var t := Fork(Fork(Leaf, x, 1, Black, Leaf), y, 2, Black, Fork(Leaf, z, 3, Black, Leaf));
    OneItem(x, 1);
    OneItem(z, 3);
    assert Items(t) == [Item(x, 1)] + [Item(y, 2)] + [Item(z, 3)];
    assert Joined(t.left) == Leaf;
    assert Plug(Under(Top, L, y, 2, Black, t.right), Leaf) == t.(left := Leaf);
  }

  /** The tree without the node sought, when no fixup is called for. */
  ghost function Unfixed(t: Shape, key: nat): Shape
    requires Sought(t, key).Fork?
  {
    Plug(SoughtCtx(Top, t, key), Joined(Sought(t, key)))
  }

  /** Within t in context c, the search for the key ends at a black leaf, without
      which t is t'. */
  ghost predicate LosesLeaf(c: Ctx, t: Shape, key: nat, t': Shape) {
    IsBlackLeaf(Sought(t, key)) && Plug(SoughtCtx(c, t, key), Leaf) == Plug(c, t')
  }

  lemma LosesBelow(c: Ctx, t: Shape, key: nat, t': Shape)
    requires t.Fork? && key != t.key
    requires key < t.key ==> LosesLeaf(LeftCtx(c, t), t.left, key, t')
    requires key > t.key ==> LosesLeaf(RightCtx(c, t), t.right, key, t')
    ensures LosesLeaf(c, t, key, if key < t.key then t.(left := t') else t.(right := t'))
  {
  }

  /** The deletion of the key calls for no fixup and leaves t'. */
  ghost predicate GoesUnfixed(t: Shape, key: nat, t': Shape) {
    Sought(t, key).Fork? && !NeedsFixup(Sought(t, key)) && Unfixed(t, key) == t'
  }

  /** A black leaf goes without a fixup. */
  lemma LeafGoes(t: Shape, key: nat, t': Shape)
    requires LosesLeaf(Top, t, key, t')
    ensures GoesUnfixed(t, key, t')
  {
  }

  ghost function BlackLeaf(n: Node, k: nat): Shape { Fork(Leaf, n, k, Black, Leaf) }

  lemma BlackLeafIs(n: Node, k: nat)
    ensures IsRb(BlackLeaf(n, k)) && BlackHeight(BlackLeaf(n, k)) == 1
  {
    assert BlackHeight(Leaf) == 0;
  }

  /** From a red-black tree of seven black nodes, the removals of 1, 3, 2 and 5
      need no fixup; the removal of 6 then reads a missing sibling. */
  lemma DamageAddsUp(n1: Node, n2: Node, n3: Node, n4: Node, n5: Node, n6: Node, n7: Node)
    ensures var high := Fork(BlackLeaf(n5, 5), n6, 6, Black, BlackLeaf(n7, 7));
      var t0 := Fork(Fork(BlackLeaf(n1, 1), n2, 2, Black, BlackLeaf(n3, 3)), n4, 4, Black, high);
      var t1 := t0.(left := t0.left.(left := Leaf));
      var t2, t3 := t0.(left := BlackLeaf(n2, 2)), t0.(left := Leaf);
      var t4 := t3.(right := high.(left := Leaf));
      && IsRb(t0)
      && GoesUnfixed(t0, 1, t1) && GoesUnfixed(t1, 3, t2) && GoesUnfixed(t2, 2, t3) && GoesUnfixed(t3, 5, t4)
      && Sought(t4, 6).Fork? && !RemovalSafe(SoughtCtx(Top, t4, 6), Sought(t4, 6))
  {
    var high := Fork(BlackLeaf(n5, 5), n6, 6, Black, BlackLeaf(n7, 7));
    var low := Fork(BlackLeaf(n1, 1), n2, 2, Black, BlackLeaf(n3, 3));
    var t0 := Fork(low, n4, 4, Black, high);
    BlackLeafIs(n1, 1);
    BlackLeafIs(n3, 3);
    BlackLeafIs(n5, 5);
    BlackLeafIs(n7, 7);
    var low1 := low.(left := Leaf);
    LosesBelow(LeftCtx(Top, t0), low, 1, Leaf);
    LosesBelow(Top, t0, 1, low1);
    var t1 := t0.(left := low1);
    LeafGoes(t0, 1, t1);
    LosesBelow(LeftCtx(Top, t1), low1, 3, Leaf);
    LosesBelow(Top, t1, 3, BlackLeaf(n2, 2));
    var t2, t3 := t0.(left := BlackLeaf(n2, 2)), t0.(left := Leaf);
    LeafGoes(t1, 3, t2);
    LosesBelow(Top, t2, 2, Leaf);
    LeafGoes(t2, 2, t3);
    LosesBelow(RightCtx(Top, t3), high, 5, Leaf);
    LosesBelow(Top, t3, 5, high.(left := Leaf));
    LeafGoes(t3, 5, t3.(right := high.(left := Leaf)));
    assert Sought(t3.(right := high.(left := Leaf)), 6) == high.(left := Leaf);
  }
}
