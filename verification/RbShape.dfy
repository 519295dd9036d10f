/** Red-black trees as values: the shape a set of linked nodes describes, the
    position of a node inside it, and what rotations and recolourings do to it. */
module RbShape {

  datatype Color = Red | Black

  class Node {
    const key: nat
    var color: Color
    var left: Node?
    var right: Node?
    var parent: Node?

    constructor (key: nat)
      ensures this.key == key && color == Red
      ensures left == null && right == null && parent == null
    {
      this.key := key;
      color := Red;
      left, right, parent := null, null, null;
    }
  }

  // ---------- Trees ----------

  datatype Shape = Leaf | Fork(left: Shape, node: Node, key: nat, color: Color, right: Shape)

  datatype Item = Item(node: Node, key: nat)

  ghost function Nodes(t: Shape): set<Node> {
    match t
    case Leaf => {}
    case Fork(l, n, _, _, r) => Nodes(l) + {n} + Nodes(r)
  }

  /** The nodes with their keys, in key order. */
  ghost function Items(t: Shape): seq<Item> {
    match t
    case Leaf => []
    case Fork(l, n, k, _, r) => Items(l) + [Item(n, k)] + Items(r)
  }

  ghost predicate Sorted(s: seq<Item>) {
    forall i, j :: 0 <= i < j < |s| ==> s[i].key <= s[j].key
  }

  ghost predicate Distinct(t: Shape) {
    match t
    case Leaf => true
    case Fork(l, n, _, _, r) =>
      Distinct(l) && Distinct(r) && n !in Nodes(l) && n !in Nodes(r) && Nodes(l) !! Nodes(r)
  }

  ghost predicate IsRed(t: Shape) { t.Fork? && t.color == Red }

  ghost function Paint(t: Shape, color: Color): Shape
    requires t.Fork?
  {
    t.(color := color)
  }

  /** The number of black nodes on the leftmost path. */
  ghost function BlackHeight(t: Shape): nat {
    match t
    case Leaf => 0
    case Fork(l, _, _, c, _) => BlackHeight(l) + (if c == Black then 1 else 0)
  }

  /** Every path down to a missing child passes the same number of black nodes. */
  ghost predicate Balanced(t: Shape) {
    match t
    case Leaf => true
    case Fork(l, _, _, _, r) => Balanced(l) && Balanced(r) && BlackHeight(l) == BlackHeight(r)
  }

  /** No red node has a red child. */
  ghost predicate RedOk(t: Shape) {
    match t
    case Leaf => true
    case Fork(l, _, _, c, r) => RedOk(l) && RedOk(r) && (c == Red ==> !IsRed(l) && !IsRed(r))
  }

  /** The colour rules: a black root, and no red node with a red child. */
  ghost predicate ColorsOk(t: Shape) { !IsRed(t) && RedOk(t) }

  ghost predicate IsRb(t: Shape) { ColorsOk(t) && Balanced(t) }

  ghost function RotateLeft(t: Shape): Shape
    requires t.Fork? && t.right.Fork?
  {
    t.right.(left := t.(right := t.right.left))
  }

  ghost function RotateRight(t: Shape): Shape
    requires t.Fork? && t.left.Fork?
  {
    t.left.(right := t.(left := t.left.right))
  }

  lemma RotateLeftKeeps(t: Shape)
    requires t.Fork? && t.right.Fork? && Distinct(t)
    ensures Distinct(RotateLeft(t)) && Nodes(RotateLeft(t)) == Nodes(t)
  {
    var y := t.right;
    var x := t.(right := y.left);
    assert Nodes(x) == Nodes(t.left) + {t.node} + Nodes(y.left);
    assert Distinct(x) && RotateLeft(t) == y.(left := x);
  }

  lemma RotateRightKeeps(t: Shape)
    requires t.Fork? && t.left.Fork? && Distinct(t)
    ensures Distinct(RotateRight(t)) && Nodes(RotateRight(t)) == Nodes(t)
  {
    var x := t.left;
    var y := t.(left := x.right);
    assert Nodes(y) == Nodes(x.right) + {t.node} + Nodes(t.right);
    assert Distinct(y) && RotateRight(t) == x.(right := y);
  }

  lemma Regroup(a: seq<Item>, x: Item, b: seq<Item>, y: Item, d: seq<Item>)
    ensures (a + [x] + b) + [y] + d == a + [x] + (b + [y] + d)
  {
  }

  lemma RotateLeftItems(t: Shape)
    requires t.Fork? && t.right.Fork?
    ensures Items(RotateLeft(t)) == Items(t)
  {
    var y := t.right;
    Regroup(Items(t.left), Item(t.node, t.key), Items(y.left), Item(y.node, y.key), Items(y.right));
    assert RotateLeft(t).left == t.(right := y.left);
  }

  lemma RotateRightItems(t: Shape)
    requires t.Fork? && t.left.Fork?
    ensures Items(RotateRight(t)) == Items(t)
  {
    RotateLeftItems(RotateRight(t));
  }

  // ---------- Positions inside a tree ----------

  datatype Side = L | R

  /** A tree with one subtree missing, seen from the gap upwards. */
  datatype Ctx = Top | Under(up: Ctx, side: Side, node: Node, key: nat, color: Color, sibling: Shape)

  ghost function Join(side: Side, n: Node, k: nat, c: Color, t: Shape, sibling: Shape): Shape {
    if side == L then Fork(t, n, k, c, sibling) else Fork(sibling, n, k, c, t)
  }

  ghost function JoinAt(c: Ctx, t: Shape): Shape
    requires c.Under?
  {
    Join(c.side, c.node, c.key, c.color, t, c.sibling)
  }

  ghost function Plug(c: Ctx, t: Shape): Shape {
    match c
    case Top => t
    case Under(up, s, n, k, col, sib) => Plug(up, Join(s, n, k, col, t, sib))
  }

  ghost function CtxNodes(c: Ctx): set<Node> {
    match c
    case Top => {}
    case Under(up, _, n, _, _, sib) => CtxNodes(up) + {n} + Nodes(sib)
  }

  ghost function Depth(c: Ctx): nat {
    match c
    case Top => 0
    case Under(up, _, _, _, _, _) => 1 + Depth(up)
  }

  ghost function Before(c: Ctx): seq<Item> {
    match c
    case Top => []
    case Under(up, s, n, k, _, sib) => if s == L then Before(up) else Before(up) + Items(sib) + [Item(n, k)]
  }

  ghost function After(c: Ctx): seq<Item> {
    match c
    case Top => []
    case Under(up, s, n, k, _, sib) => if s == R then After(up) else [Item(n, k)] + Items(sib) + After(up)
  }

  ghost predicate CtxDistinct(c: Ctx) {
    match c
    case Top => true
    case Under(up, _, n, _, _, sib) =>
      CtxDistinct(up) && Distinct(sib) && n !in CtxNodes(up) && n !in Nodes(sib) && Nodes(sib) !! CtxNodes(up)
  }

  lemma {:induction false} PlugItems(c: Ctx, t: Shape)
    ensures Items(Plug(c, t)) == Before(c) + Items(t) + After(c)
  {
    if c.Under? {
      PlugItems(c.up, JoinAt(c, t));
    }
  }

  lemma {:induction false} PlugNodes(c: Ctx, t: Shape)
    ensures Nodes(Plug(c, t)) == CtxNodes(c) + Nodes(t)
  {
    if c.Under? {
      PlugNodes(c.up, JoinAt(c, t));
    }
  }

  // ---------- Red-black conditions around a position ----------

  ghost predicate RedCtx(c: Ctx) { c.Under? && c.color == Red }

  /** Everything outside the gap keeps the colour rules, provided the gap is
      not filled with a red tree under a red node. */
  ghost predicate CtxColored(c: Ctx) {
    match c
    case Top => true
    case Under(up, _, _, _, col, sib) =>
      RedOk(sib) && CtxColored(up) && (col == Red ==> !IsRed(sib) && up.Under? && up.color == Black)
  }

  /** Everything outside the gap is balanced, provided the gap is filled with a
      tree of black height h. */
  ghost predicate CtxBalanced(c: Ctx, h: nat) {
    match c
    case Top => true
    case Under(up, _, _, _, col, sib) =>
      Balanced(sib) && BlackHeight(sib) == h && CtxBalanced(up, h + (if col == Black then 1 else 0))
  }

  ghost predicate CtxGood(c: Ctx, h: nat) { CtxColored(c) && CtxBalanced(c, h) }

  lemma {:induction false} PlugColored(c: Ctx, t: Shape)
    ensures ColorsOk(Plug(c, t)) <==> CtxColored(c) && RedOk(t) && (IsRed(t) ==> c.Under? && !RedCtx(c))
  {
    if c.Under? {
      PlugColored(c.up, JoinAt(c, t));
    }
  }

  lemma {:induction false} PlugBalanced(c: Ctx, t: Shape)
    ensures Balanced(Plug(c, t)) <==> Balanced(t) && CtxBalanced(c, BlackHeight(t))
  {
    if c.Under? {
      PlugBalanced(c.up, JoinAt(c, t));
    }
  }

  lemma SplitGood(c: Ctx, t: Shape)
    requires IsRb(Plug(c, t))
    ensures CtxGood(c, BlackHeight(t)) && Balanced(t) && RedOk(t)
    ensures IsRed(t) ==> c.Under? && !RedCtx(c)
  {
    PlugColored(c, t);
    PlugBalanced(c, t);
  }

  /** Swapping a subtree for one of the same black height. */
  lemma SameBalance(c: Ctx, t: Shape, t': Shape)
    requires Balanced(t') <==> Balanced(t)
    requires Balanced(t) ==> BlackHeight(t') == BlackHeight(t)
    ensures Balanced(Plug(c, t')) <==> Balanced(Plug(c, t))
  {
    PlugBalanced(c, t);
    PlugBalanced(c, t');
  }

  // ---------- Linked nodes ----------

  /** The fields of one node, and of a set of nodes at one moment. */
  datatype Record = Record(color: Color, left: Node?, right: Node?, parent: Node?)

  type Memory = map<Node, Record>

  ghost function Fields(s: set<Node>): Memory
    reads s
  {
    map n | n in s :: Record(n.color, n.left, n.right, n.parent)
  }

  ghost function Ptr(t: Shape): Node? {
    if t == Leaf then null else t.node
  }

  ghost function ParentOf(c: Ctx): Node? {
    if c == Top then null else c.node
  }

  /** In memory m the nodes of t are linked as t says, with par as parent of the topmost. */
  ghost predicate Linked(m: Memory, t: Shape, par: Node?) {
    match t
    case Leaf => true
    case Fork(l, n, k, c, r) =>
      && n in m && n.key == k && m[n] == Record(c, Ptr(l), Ptr(r), par)
      && Linked(m, l, n) && Linked(m, r, n)
  }

  /** In memory m the nodes around the gap are linked as c says; the gap holds ptr. */
  ghost predicate CtxLinked(m: Memory, c: Ctx, ptr: Node?, root: Node?) {
    match c
    case Top => root == ptr
    case Under(up, s, n, k, col, sib) =>
      && n in m
      && n.key == k
      && m[n] == (if s == L then Record(col, ptr, Ptr(sib), ParentOf(up)) else Record(col, Ptr(sib), ptr, ParentOf(up)))
      && Linked(m, sib, n) && CtxLinked(m, up, n, root)
  }

  ghost predicate Apart(c: Ctx, t: Shape) {
    Distinct(t) && CtxDistinct(c) && Nodes(t) !! CtxNodes(c)
  }

  /** Subtree t sits in context c of the tree that m holds and root enters. */
  ghost predicate At(m: Memory, root: Node?, c: Ctx, t: Shape) {
    Apart(c, t) && Linked(m, t, ParentOf(c)) && CtxLinked(m, c, Ptr(t), root)
  }

  lemma GoUp(m: Memory, root: Node?, c: Ctx, t: Shape)
    requires At(m, root, c, t) && c.Under?
    ensures At(m, root, c.up, JoinAt(c, t))
  {
  }

  /** What memory holds at a position, one node up and one node down. */
  lemma AtReads(m: Memory, root: Node?, c: Ctx, t: Shape)
    requires At(m, root, c, t)
    ensures t.Fork? ==>
              t.node in m && m[t.node] == Record(t.color, Ptr(t.left), Ptr(t.right), ParentOf(c)) && t.node.key == t.key
    ensures c == Top ==> root == Ptr(t)
    ensures c.Under? ==>
      && c.node in m && c.node.key == c.key && (t.Fork? ==> t.node != c.node && Ptr(t) != Ptr(c.sibling))
      && m[c.node] == if c.side == L then Record(c.color, Ptr(t), Ptr(c.sibling), ParentOf(c.up))
                      else Record(c.color, Ptr(c.sibling), Ptr(t), ParentOf(c.up))
    ensures root == null <==> Plug(c, t) == Leaf
  {
    GoTop(m, root, c, t);
    if c.Under? {
      assert c.node in CtxNodes(c) && (c.sibling.Fork? ==> c.sibling.node in CtxNodes(c));
    }
  }

  ghost function LeftCtx(c: Ctx, t: Shape): Ctx
    requires t.Fork?
  {
    Under(c, L, t.node, t.key, t.color, t.right)
  }

  ghost function RightCtx(c: Ctx, t: Shape): Ctx
    requires t.Fork?
  {
    Under(c, R, t.node, t.key, t.color, t.left)
  }

  lemma GoDown(m: Memory, root: Node?, c: Ctx, t: Shape)
    requires At(m, root, c, t) && t.Fork?
    ensures At(m, root, LeftCtx(c, t), t.left)
    ensures At(m, root, RightCtx(c, t), t.right)
  {
  }

  lemma {:induction false} GoTop(m: Memory, root: Node?, c: Ctx, t: Shape)
    requires At(m, root, c, t)
    ensures At(m, root, Top, Plug(c, t))
  {
    if c.Under? {
      GoUp(m, root, c, t);
      GoTop(m, root, c.up, JoinAt(c, t));
    }
  }

  /** The position of the sibling. */
  ghost function SiblingCtx(c: Ctx, t: Shape): Ctx
    requires c.Under?
  {
    Under(c.up, if c.side == L then R else L, c.node, c.key, c.color, t)
  }

  lemma CrossOver(m: Memory, root: Node?, c: Ctx, t: Shape)
    requires At(m, root, c, t) && c.Under?
    ensures At(m, root, SiblingCtx(c, t), c.sibling)
  {
    GoUp(m, root, c, t);
    GoDown(m, root, c.up, JoinAt(c, t));
  }

  lemma {:induction false} RootBelow(m: Memory, root: Node?, c: Ctx, t: Shape)
    requires At(m, root, c, t) && c.Under?
    ensures root in CtxNodes(c)
  {
    GoUp(m, root, c, t);
    if c.up.Under? {
      RootBelow(m, root, c.up, JoinAt(c, t));
      assert CtxNodes(c.up) <= CtxNodes(c);
    }
  }

  /** A node is the root exactly when nothing is above it. */
  lemma RootIsTop(m: Memory, root: Node?, c: Ctx, t: Shape)
    requires At(m, root, c, t) && t.Fork?
    ensures c == Top <==> t.node == root
  {
    if c.Under? {
      RootBelow(m, root, c, t);
    }
  }

  /** What memory holds at the parent, the sibling and the sibling's children. */
  lemma SiblingReads(m: Memory, root: Node?, c: Ctx, t: Shape)
    requires At(m, root, c, t) && t.Fork? && c.Under? && c.sibling.Fork?
    ensures var w := c.sibling;
      && t.node in m && m[t.node].parent == c.node && c.node in m && w.node in m
      && m[w.node] == Record(w.color, Ptr(w.left), Ptr(w.right), c.node)
      && m[c.node].left == (if c.side == L then t.node else w.node) &&
          m[c.node].right == (if c.side == L then w.node else t.node)
      && (w.left.Fork? ==> w.left.node in m && m[w.left.node].color == w.left.color)
      && (w.right.Fork? ==> w.right.node in m && m[w.right.node].color == w.right.color)
  {
    AtReads(m, root, c, t);
    CrossOver(m, root, c, t);
    AtReads(m, root, SiblingCtx(c, t), c.sibling);
    GoDown(m, root, SiblingCtx(c, t), c.sibling);
    AtReads(m, root, LeftCtx(SiblingCtx(c, t), c.sibling), c.sibling.left);
    AtReads(m, root, RightCtx(SiblingCtx(c, t), c.sibling), c.sibling.right);
  }

  /** What memory holds at the parent, grandparent and uncle of a position. */
  lemma GrandparentReads(m: Memory, root: Node?, c: Ctx, t: Shape)
    requires At(m, root, c, t) && t.Fork? && c.Under? && c.up.Under?
    ensures var p, g, y := c.node, c.up.node, c.up.sibling;
      && t.node in m && m[t.node].parent == p && p in m && m[p].parent == g && g in m && Ptr(y) != p
      && (if c.up.side == L then m[g].left == p && m[g].right == Ptr(y) else m[g].right == p && m[g].left == Ptr(y))
      && (y.Fork? ==> y.node in m && m[y.node].color == y.color)
  {
    AtReads(m, root, c, t);
    GoUp(m, root, c, t);
    AtReads(m, root, c.up, JoinAt(c, t));
  }

  lemma {:induction false} LinkedFrame(m: Memory, m': Memory, t: Shape, par: Node?)
    requires Linked(m, t, par)
    requires forall n :: n in Nodes(t) && n in m ==> n in m' && m'[n] == m[n]
    ensures Linked(m', t, par)
  {
    if t.Fork? {
      LinkedFrame(m, m', t.left, t.node);
      LinkedFrame(m, m', t.right, t.node);
    }
  }

  lemma {:induction false} CtxFrame(m: Memory, m': Memory, c: Ctx, ptr: Node?, root: Node?)
    requires CtxLinked(m, c, ptr, root)
    requires forall n :: n in CtxNodes(c) && n in m ==> n in m' && m'[n] == m[n]
    ensures CtxLinked(m', c, ptr, root)
  {
    if c.Under? {
      LinkedFrame(m, m', c.sibling, c.node);
      CtxFrame(m, m', c.up, c.node, root);
    }
  }

  // ---------- What single assignments do ----------

  /** A record after its link on the given side has been redirected to v. */
  ghost function Redirect(r: Record, side: Side, v: Node?): Record {
    if side == L then r.(left := v) else r.(right := v)
  }

  lemma PaintedAt(m: Memory, root: Node?, c: Ctx, t: Shape, color: Color)
    requires At(m, root, c, t) && t.Fork?
    ensures At(m[t.node := m[t.node].(color := color)], root, c, Paint(t, color))
  {
    var m' := m[t.node := m[t.node].(color := color)];
    LinkedFrame(m, m', t.left, t.node);
    LinkedFrame(m, m', t.right, t.node);
    CtxFrame(m, m', c, t.node, root);
  }

  /** m' differs from m only in the records of the nodes in changed. */
  ghost predicate Same(m: Memory, m': Memory, changed: set<Node>) {
    m'.Keys == m.Keys && forall n :: n in m && n !in changed ==> m'[n] == m[n]
  }

  lemma LinkedAfter(m: Memory, m': Memory, t: Shape, par: Node?, changed: set<Node>)
    requires Linked(m, t, par) && Same(m, m', changed) && Nodes(t) !! changed
    ensures Linked(m', t, par)
  {
    LinkedFrame(m, m', t, par);
  }

  /** A context whose gap was filled with v instead of ptr. */
  lemma RelinkedAfter(m: Memory, m': Memory, c: Ctx, ptr: Node?, root: Node?, v: Node?, changed: set<Node>)
    requires CtxLinked(m, c, ptr, root) && CtxDistinct(c) && Same(m, m', changed)
    requires c.Under? ==>
               c.node in m && m'[c.node] == Redirect(m[c.node], c.side, v) && changed * CtxNodes(c) <= {c.node}
    ensures CtxLinked(m', c, v, if c == Top then v else root)
  {
    if c.Under? {
      LinkedFrame(m, m', c.sibling, c.node);
      CtxFrame(m, m', c.up, c.node, root);
    }
  }

  /** A subtree whose topmost node got a new parent and nothing else. */
  lemma ReparentedAfter(m: Memory, m': Memory, t: Shape, p: Node?, par: Node?, changed: set<Node>)
    requires Linked(m, t, p) && Distinct(t) && Same(m, m', changed)
    requires t.Fork? ==> m'[t.node] == m[t.node].(parent := par) && Nodes(t) * changed <= {t.node}
    ensures Linked(m', t, par)
  {
    if t.Fork? {
      LinkedFrame(m, m', t.left, t.node);
      LinkedFrame(m, m', t.right, t.node);
    }
  }

  /** A fresh red node in an empty gap. */
  lemma LeafAdded(m: Memory, m': Memory, root: Node?, c: Ctx, z: Node)
    requires At(m, root, c, Leaf) && z !in CtxNodes(c) && z in m' && m'[z] == Record(Red, null, null, ParentOf(c))
    requires forall n :: n in m && n != ParentOf(c) && n != z ==> n in m' && m'[n] == m[n]
    requires c.Under? ==> c.node in m && c.node in m' && m'[c.node] == Redirect(m[c.node], c.side, z)
    ensures At(m', if c == Top then z else root, c, Fork(Leaf, z, z.key, Red, Leaf))
  {
    if c.Under? {
      LinkedFrame(m, m', c.sibling, c.node);
      CtxFrame(m, m', c.up, c.node, root);
    }
  }

  /** After rotating child up over top, whose subtree mid changed sides. */
  ghost predicate Turned(m: Memory, m': Memory, c: Ctx, top: Node, child: Node, mid: Shape, topRec: Record,
                         childRec: Record)
  {
    && top in m && child in m && Same(m, m', TurnChanges(c, top, child, mid))
    && m'[top] == topRec && m'[child] == childRec
    && (mid.Fork? ==> mid.node in m && m'[mid.node] == m[mid.node].(parent := top))
    && (c.Under? ==> c.node in m && m'[c.node] == Redirect(m[c.node], c.side, child))
  }

  lemma AtHoldsChild(m: Memory, root: Node?, c: Ctx, t: Shape)
    requires At(m, root, c, t) && t.Fork?
    ensures t.node in m && m[t.node].parent == ParentOf(c)
    ensures c.Under? ==> c.node in m && c.node !in Nodes(t)
    ensures c.Under? ==>
              if c.side == L then m[c.node].left == t.node else m[c.node].right == t.node && m[c.node].left != t.node
  {
    if c.Under? {
      assert c.node in CtxNodes(c) && (c.sibling.Fork? ==> c.sibling.node in CtxNodes(c));
    }
  }

  /** The nodes a rotation touches are different nodes of s. */
  ghost predicate Separate(s: set<Node>, c: Ctx, top: Node, child: Node, mid: Shape) {
    && top in s && child in s && top != child && (c.Under? ==> c.node in s && c.node != top && c.node != child)
    && (mid.Fork? ==> mid.node in s && mid.node != top && mid.node != child && (c.Under? ==> c.node != mid.node))
  }

  /** What a left rotation reads: the two nodes it turns and the subtree between them. */
  lemma LeftTurnReads(m: Memory, root: Node?, c: Ctx, t: Shape)
    requires At(m, root, c, t) && t.Fork? && t.right.Fork?
    ensures Separate(m.Keys, c, t.node, t.right.node, t.right.left)
    ensures m[t.node] == Record(t.color, Ptr(t.left), t.right.node, ParentOf(c))
    ensures m[t.right.node] == Record(t.right.color, Ptr(t.right.left), Ptr(t.right.right), t.node)
  {
    AtHoldsChild(m, root, c, t);
    var b := t.right.left;
    assert Linked(m, t.right, t.node) && Linked(m, b, t.right.node) && Distinct(t.right);
    assert b.Fork? ==> b.node in Nodes(t.right);
    assert Nodes(t.right) <= Nodes(t);
  }

  lemma RightTurnReads(m: Memory, root: Node?, c: Ctx, t: Shape)
    requires At(m, root, c, t) && t.Fork? && t.left.Fork?
    ensures Separate(m.Keys, c, t.node, t.left.node, t.left.right)
    ensures m[t.node] == Record(t.color, t.left.node, Ptr(t.right), ParentOf(c))
    ensures m[t.left.node] == Record(t.left.color, Ptr(t.left.left), Ptr(t.left.right), t.node)
  {
    AtHoldsChild(m, root, c, t);
    var b := t.left.right;
    assert Linked(m, t.left, t.node) && Linked(m, b, t.left.node) && Distinct(t.left);
    assert b.Fork? ==> b.node in Nodes(t.left);
    assert Nodes(t.left) <= Nodes(t);
  }

  ghost function TurnChanges(c: Ctx, top: Node, child: Node, mid: Shape): set<Node> {
    {top, child} + (if mid.Fork? then {mid.node} else {}) + (if c.Under? then {c.node} else {})
  }

  lemma TurnedOutside(m: Memory, m': Memory, root: Node?, c: Ctx, top: Node, child: Node, mid: Shape)
    requires top in m' && child in m' && Turned(m, m', c, top, child, mid, m'[top], m'[child])
    requires CtxLinked(m, c, top, root) && CtxDistinct(c)
    requires top !in CtxNodes(c) && child !in CtxNodes(c) && Nodes(mid) !! CtxNodes(c)
    ensures CtxLinked(m', c, child, if c == Top then child else root)
  {
    RelinkedAfter(m, m', c, top, root, child, TurnChanges(c, top, child, mid));
  }

  lemma LeftTurn(m: Memory, m': Memory, root: Node?, c: Ctx, t: Shape, x: Node, y: Node, b: Shape)
    requires At(m, root, c, t) && t.Fork? && t.right.Fork? && t.node == x && t.right.node == y && t.right.left == b
    requires Turned(m, m', c, x, y, b, Record(t.color, Ptr(t.left), Ptr(b), y),
                    Record(t.right.color, x, Ptr(t.right.right), ParentOf(c)))
    ensures At(m', if c == Top then y else root, c, RotateLeft(t))
  {
    assert Linked(m, t.right, x) && Distinct(t.right);
    var ch := TurnChanges(c, x, y, b);
    TurnedOutside(m, m', root, c, x, y, b);
    RotateLeftKeeps(t);
    LinkedAfter(m, m', t.left, x, ch);
    LinkedAfter(m, m', t.right.right, y, ch);
    ReparentedAfter(m, m', b, y, x, ch);
    var inner := t.(right := b);
    assert Linked(m', inner, y);
    assert RotateLeft(t) == t.right.(left := inner);
  }

  lemma RightTurn(m: Memory, m': Memory, root: Node?, c: Ctx, t: Shape, y: Node, x: Node, b: Shape)
    requires At(m, root, c, t) && t.Fork? && t.left.Fork? && t.node == y && t.left.node == x && t.left.right == b
    requires Turned(m, m', c, y, x, b, Record(t.color, Ptr(b), Ptr(t.right), x),
                    Record(t.left.color, Ptr(t.left.left), y, ParentOf(c)))
    ensures At(m', if c == Top then x else root, c, RotateRight(t))
  {
    assert Linked(m, t.left, y) && Distinct(t.left);
    var ch := TurnChanges(c, y, x, b);
    TurnedOutside(m, m', root, c, y, x, b);
    RotateRightKeeps(t);
    LinkedAfter(m, m', t.right, y, ch);
    LinkedAfter(m, m', t.left.left, x, ch);
    ReparentedAfter(m, m', b, x, y, ch);
    var inner := t.(left := b);
    assert Linked(m', inner, x);
    assert RotateRight(t) == t.left.(right := inner);
  }

  // ---------- Height ----------

  ghost function Size(t: Shape): nat {
    match t
    case Leaf => 0
    case Fork(l, _, _, _, r) => Size(l) + 1 + Size(r)
  }

  ghost function Height(t: Shape): nat {
    match t
    case Leaf => 0
    case Fork(l, _, _, _, r) => 1 + if Height(l) > Height(r) then Height(l) else Height(r)
  }

  ghost function Pow2(n: nat): nat {
    if n == 0 then 1 else 2 * Pow2(n - 1)
  }

  lemma {:induction false} HeightByBlackHeight(t: Shape)
    requires RedOk(t) && Balanced(t)
    ensures Height(t) <= 2 * BlackHeight(t) + (if IsRed(t) then 1 else 0)
    ensures Pow2(BlackHeight(t)) <= Size(t) + 1
  {
    if t.Fork? {
      HeightByBlackHeight(t.left);
      HeightByBlackHeight(t.right);
    }
  }

  lemma {:induction false} Pow2Add(a: nat, b: nat)
    ensures Pow2(a + b) == Pow2(a) * Pow2(b)
  {
    if a > 0 {
      Pow2Add(a - 1, b);
    }
  }

  lemma {:induction false} Pow2Mono(a: nat, b: nat)
    requires a <= b
    ensures Pow2(a) <= Pow2(b)
  {
    if a < b {
      Pow2Mono(a, b - 1);
    }
  }

  /** 2^height <= (size + 1)^2, that is, height <= 2 log2 (size + 1). */
  lemma HeightIsLogarithmic(t: Shape)
    requires IsRb(t)
    ensures Pow2(Height(t)) <= (Size(t) + 1) * (Size(t) + 1)
  {
    HeightByBlackHeight(t);
    var h := BlackHeight(t);
    Pow2Mono(Height(t), h + h);
    Pow2Add(h, h);
    MulMono(Pow2(h), Size(t) + 1);
  }

  lemma MulMono(a: nat, b: nat)
    requires a <= b
    ensures a * a <= b * b
  {
    assert a * a <= a * b <= b * b;
  }

  // ---------- Key order ----------

  /** it placed behind every item whose key is not larger. */
  ghost function Inserted(s: seq<Item>, it: Item): seq<Item> {
    if s == [] || it.key < s[0].key then [it] + s else [s[0]] + Inserted(s[1..], it)
  }

  lemma {:induction false} InsertedBetween(a: seq<Item>, b: seq<Item>, it: Item)
    requires forall i :: 0 <= i < |a| ==> a[i].key <= it.key
    requires b != [] ==> it.key < b[0].key
    ensures Inserted(a + b, it) == a + [it] + b
  {
    if a == [] {
      assert a + b == b;
    } else {
      InsertedBetween(a[1..], b, it);
      assert (a + b)[1..] == a[1..] + b;
    }
  }

  ghost predicate AllAbove(s: seq<Item>, k: nat) { forall i :: 0 <= i < |s| ==> k < s[i].key }

  ghost predicate AllFrom(s: seq<Item>, k: nat) { forall i :: 0 <= i < |s| ==> k <= s[i].key }

  ghost predicate AllBelow(s: seq<Item>, k: nat) { forall i :: 0 <= i < |s| ==> s[i].key < k }

  ghost predicate AllUpTo(s: seq<Item>, k: nat) { forall i :: 0 <= i < |s| ==> s[i].key <= k }

  /** Walking left past a larger key leaves only larger keys behind on the right. */
  lemma StepLeft(c: Ctx, t: Shape, key: nat)
    requires t.Fork? && Sorted(Items(Plug(c, t))) && key < t.key && AllAbove(After(c), key)
    ensures AllAbove(After(LeftCtx(c, t)), key)
  {
    PlugItems(c, t);
    var s, n := Items(Plug(c, t)), |Before(c)| + |Items(t.left)|;
    assert s[n] == Item(t.node, t.key);
    forall i | 0 <= i < |Items(t.right)| ensures key < Items(t.right)[i].key {
      assert s[n + 1 + i] == Items(t.right)[i];
    }
  }

  lemma SortedMiddle(a: seq<Item>, l: seq<Item>, it: Item, r: seq<Item>, b: seq<Item>)
    requires Sorted(a + (l + [it] + r) + b)
    ensures AllUpTo(l, it.key)
  {
    var s := a + (l + [it] + r) + b;
    assert s[|a| + |l|] == it;
    forall i | 0 <= i < |l| ensures l[i].key <= it.key {
      assert s[|a| + i] == l[i];
    }
  }

  lemma LeftBelow(c: Ctx, t: Shape)
    requires t.Fork? && Sorted(Items(Plug(c, t)))
    ensures AllUpTo(Items(t.left), t.key)
  {
    PlugItems(c, t);
    SortedMiddle(Before(c), Items(t.left), Item(t.node, t.key), Items(t.right), After(c));
  }

  lemma StepRight(c: Ctx, t: Shape, key: nat)
    requires t.Fork? && Sorted(Items(Plug(c, t))) && t.key <= key
    ensures AllUpTo(Before(c), key) ==> AllUpTo(Before(RightCtx(c, t)), key)
    ensures t.key < key && AllBelow(Before(c), key) ==> AllBelow(Before(RightCtx(c, t)), key)
  {
    LeftBelow(c, t);
    assert Before(RightCtx(c, t)) == Before(c) + Items(t.left) + [Item(t.node, t.key)];
  }

  lemma {:induction false} InsertedBag(s: seq<Item>, it: Item)
    ensures multiset(Inserted(s, it)) == multiset(s) + multiset{it}
  {
    if s != [] && s[0].key <= it.key {
      InsertedBag(s[1..], it);
      assert s == [s[0]] + s[1..];
    }
  }

  lemma {:induction false} InsertedSorted(s: seq<Item>, it: Item, k: nat)
    requires Sorted(s) && AllFrom(s, k) && k <= it.key
    ensures Sorted(Inserted(s, it)) && AllFrom(Inserted(s, it), k)
  {
    if s != [] && s[0].key <= it.key {
      InsertedSorted(s[1..], it, s[0].key);
    }
  }

  /** One insertion after the other. */
  ghost function InsertedAll(s: seq<Item>, items: seq<Item>): seq<Item>
    decreases |items|
  {
    if items == [] then s else InsertedAll(Inserted(s, items[0]), items[1..])
  }

  /** Any sequence of insertions, duplicates included, keeps the order and adds
      exactly the inserted items to the bag. */
  lemma {:induction false} InsertionsAdd(s: seq<Item>, items: seq<Item>)
    requires Sorted(s)
    ensures Sorted(InsertedAll(s, items)) && multiset(InsertedAll(s, items)) == multiset(s) + multiset(items)
    decreases |items|
  {
    if items != [] {
      InsertedBag(s, items[0]);
      InsertedSorted(s, items[0], 0);
      InsertionsAdd(Inserted(s, items[0]), items[1..]);
      assert items == [items[0]] + items[1..];
    }
  }

  lemma InsertionsCount(items: seq<Item>)
    ensures |InsertedAll([], items)| == |items|
  {
    InsertionsAdd([], items);
    assert |multiset(InsertedAll([], items))| == |multiset(items)|;
  }

  /** So a tree of n insertions has at most the height 2 log2 (n + 1). */
  lemma InsertionsStayFlat(t: Shape, items: seq<Item>)
    requires IsRb(t) && Items(t) == InsertedAll([], items)
    ensures Size(t) == |items| && Pow2(Height(t)) <= (Size(t) + 1) * (Size(t) + 1)
  {
    InsertionsCount(items);
    ItemsSize(t);
    HeightIsLogarithmic(t);
  }

  ghost predicate HasKey(s: seq<Item>, key: nat) {
    exists i :: 0 <= i < |s| && s[i].key == key
  }

  lemma FoundHere(c: Ctx, t: Shape)
    requires t.Fork?
    ensures HasKey(Items(Plug(c, t)), t.key)
  {
    PlugItems(c, t);
    assert Items(Plug(c, t))[|Before(c)| + |Items(t.left)|] == Item(t.node, t.key);
  }

  lemma NotFound(c: Ctx, key: nat)
    requires AllBelow(Before(c), key) && AllAbove(After(c), key)
    ensures !HasKey(Items(Plug(c, Leaf)), key)
  {
    PlugItems(c, Leaf);
  }

  lemma {:induction false} ItemsSize(t: Shape)
    ensures |Items(t)| == Size(t)
  {
    if t.Fork? {
      ItemsSize(t.left);
      ItemsSize(t.right);
    }
  }

  lemma {:induction false} PlugHeight(c: Ctx, t: Shape)
    ensures Depth(c) + Height(t) <= Height(Plug(c, t))
  {
    if c.Under? {
      PlugHeight(c.up, JoinAt(c, t));
    }
  }
}
