/** The node forest of the virtual file system: child lists in memory, and what
    attaching, detaching and cutting off a subtree does to it. */
module VfsTree {
  import opened PathText

  datatype Kind = File | Folder | Special

  /** A node structure; 0 is the null pointer. */
  datatype Rec = Rec(name: string, kind: Kind, parent: nat, children: nat, next: nat)

  type Nodes = map<nat, Rec>

  /** For every node, its children in order and all its descendants. */
  datatype Forest = Forest(kids: map<nat, seq<nat>>, below: map<nat, set<nat>>)

  function Nth(l: seq<nat>, i: nat): nat { if i < |l| then l[i] else 0 }

  ghost function Kids(f: Forest, n: nat): seq<nat> { if n in f.kids then f.kids[n] else [] }

  ghost function Below(f: Forest, n: nat): set<nat> { if n in f.below then f.below[n] else {} }

  /** A node with all its descendants. */
  ghost function Sub(f: Forest, n: nat): set<nat> { {n} + Below(f, n) }

  ghost predicate Known(s: Nodes, f: Forest, n: nat) {
    n != 0 && n in s && n in f.kids && n in f.below && NUL !in s[n].name
  }

  ghost predicate NodeOk(s: Nodes, f: Forest, n: nat) {
    n in f.kids || n in f.below || n in s ==> Known(s, f, n) && s[n].children == Nth(Kids(f, n), 0)
  }

  ghost predicate ListedAt(f: Forest, n: nat, i: nat, c: nat) { i < |Kids(f, n)| && Kids(f, n)[i] == c }

  /** The child c at position i of n: its links, and its place among the descendants. */
  ghost predicate KidOk(s: Nodes, f: Forest, n: nat, i: nat, c: nat) {
    ListedAt(f, n, i, c) ==>
      && Known(s, f, c) && s[c].parent == n && s[c].next == Nth(Kids(f, n), i + 1)
      && c in Below(f, n) && Below(f, c) <= Below(f, n)
  }

  ghost predicate KidsApart(f: Forest, n: nat, i: nat, j: nat) {
    i < j < |Kids(f, n)| ==> Kids(f, n)[i] != Kids(f, n)[j]
  }

  /** A descendant x of n is a child of n or of another descendant. */
  ghost predicate BelowOk(s: Nodes, f: Forest, n: nat, x: nat) {
    x in Below(f, n) ==>
      && x != n && Known(s, f, x) && x in Kids(f, s[x].parent) && (s[x].parent == n || s[x].parent in Below(f, n))
  }

  ghost predicate Wf(s: Nodes, f: Forest) {
    && (forall n :: NodeOk(s, f, n)) && (forall n, i, c :: KidOk(s, f, n, i, c))
    && (forall n, i, j :: KidsApart(f, n, i, j)) && forall n, x :: BelowOk(s, f, n, x)
  }

  /** c is nobody's child. */
  ghost predicate Detached(f: Forest, c: nat) { forall n, i :: !ListedAt(f, n, i, c) }

  lemma SamePlace(s: Nodes, f: Forest, c: nat, n: nat, i: nat, m: nat, j: nat)
    requires Wf(s, f) && ListedAt(f, n, i, c) && ListedAt(f, m, j, c)
    ensures n == m && i == j
  {
    assert KidOk(s, f, n, i, c) && KidOk(s, f, m, j, c);
    assert KidsApart(f, n, i, j) && KidsApart(f, n, j, i);
  }

  /** Where a descendant is listed. */
  lemma PlaceOf(s: Nodes, f: Forest, n: nat, x: nat) returns (i: nat)
    requires Wf(s, f) && x in Below(f, n)
    ensures x != n && Known(s, f, x) && ListedAt(f, s[x].parent, i, x)
    ensures s[x].parent == n || s[x].parent in Below(f, n)
  {
    assert BelowOk(s, f, n, x);
    i :| 0 <= i < |Kids(f, s[x].parent)| && Kids(f, s[x].parent)[i] == x;
  }

  /** A detached node is no one's descendant. */
  lemma DetachedIsRoot(s: Nodes, f: Forest, c: nat, n: nat)
    requires Wf(s, f) && Detached(f, c)
    ensures c !in Below(f, n)
  {
    if c in Below(f, n) {
      var i := PlaceOf(s, f, n, c);
    }
  }

  /** The descendants of a descendant are descendants. */
  lemma {:induction false} BelowNests(s: Nodes, f: Forest, n: nat, x: nat)
    requires Wf(s, f) && x in Below(f, n)
    ensures Below(f, x) <= Below(f, n) && n !in Below(f, x) && x != n
    decreases Below(f, n) - Below(f, x)
  {
    var i := PlaceOf(s, f, n, x);
    var p := s[x].parent;
    assert KidOk(s, f, p, i, x) && BelowOk(s, f, x, x) && BelowOk(s, f, n, n);
    if p != n {
      BelowNests(s, f, n, p);
    }
  }

  /** A node is in the subtrees of two children of n only if they are the same. */
  lemma {:induction false} SubsApart(s: Nodes, f: Forest, n: nat, i: nat, c: nat, j: nat, d: nat, x: nat)
    requires Wf(s, f) && ListedAt(f, n, i, c) && ListedAt(f, n, j, d) && x in Sub(f, c) && x in Sub(f, d)
    ensures c == d
    decreases Below(f, n) - Below(f, x)
  {
    assert KidOk(s, f, n, i, c) && KidOk(s, f, n, j, d) && BelowOk(s, f, n, n);
    if x == c && x != d {
      var k := PlaceOf(s, f, d, c);
    } else if x == d && x != c {
      var k := PlaceOf(s, f, c, d);
    } else if x != c {
      var k := PlaceOf(s, f, c, x);
      var p := s[x].parent;
      var l := PlaceOf(s, f, d, x);
      assert KidOk(s, f, p, k, x) && BelowOk(s, f, x, x);
      SubsApart(s, f, n, i, c, j, d, p);
    }
  }

  // ---------- Attaching ----------

  /** The forest with the detached node c, and all that hangs on it, as last child of p. */
  ghost function Attached(f: Forest, p: nat, c: nat): Forest
    requires p in f.kids
  {
    Forest(f.kids[p := f.kids[p] + [c]],
           map n | n in f.below :: if n == p || p in f.below[n] then f.below[n] + Sub(f, c) else f.below[n])
  }

  /** Memory after c was linked in behind the last child of p. */
  ghost function LinkedLast(s: Nodes, f: Forest, p: nat, c: nat): Nodes
    requires p in s && c in s && (Kids(f, p) != [] ==> Kids(f, p)[|Kids(f, p)| - 1] in s)
  {
    var s1 := s[c := s[c].(parent := p)];
    var l := Kids(f, p);
    if l == [] then s1[p := s1[p].(children := c)]
    else var last := l[|l| - 1]; s1[last := s1[last].(next := c)]
  }

  /** A node with the same name, kind and parent, and with these links. */
  ghost predicate Relinked(r: Rec, r': Rec, children: nat, next: nat) {
    r'.name == r.name && r'.kind == r.kind && r'.parent == r.parent && r'.children == children && r'.next == next
  }

  /** How the old node n looks after one was linked in behind the children of p: only
      the link that ended their list has changed. */
  ghost predicate LeadsTo(s: Nodes, f: Forest, s': Nodes, p: nat, c: nat, n: nat)
    requires n in s && n in s'
  {
    var l := Kids(f, p);
    Relinked(s[n], s'[n], if n == p && l == [] then c else s[n].children,
             if l != [] && n == l[|l| - 1] then c else s[n].next)
  }

  /** A new node r at address at is the last child of p, and nothing else has changed. */
  ghost predicate NodeAdded(s: Nodes, f: Forest, s': Nodes, p: nat, at: nat, r: Rec) {
    && s'.Keys == s.Keys + {at} && s'[at] == r
    && forall n :: n in s ==> LeadsTo(s, f, s', p, at, n)
  }

  /** The root c has become the last child of p, and nothing else has changed. */
  ghost predicate NodeAttached(s: Nodes, f: Forest, s': Nodes, p: nat, c: nat) {
    && s'.Keys == s.Keys && c in s
    && s'[c].name == s[c].name && s'[c].kind == s[c].kind && s'[c].parent == p
    && forall n :: n in s && n != c ==> LeadsTo(s, f, s', p, c, n)
  }

  lemma LinkedLastIs(s: Nodes, f: Forest, p: nat, c: nat)
    requires Wf(s, f) && Known(s, f, p) && Known(s, f, c)
    requires Kids(f, p) != [] ==> Kids(f, p)[|Kids(f, p)| - 1] in s
    ensures NodeAttached(s, f, LinkedLast(s, f, p, c), p, c)
  {
  }

  lemma AddedIs(s: Nodes, f: Forest, p: nat, at: nat, r: Rec, f1: Forest)
    requires Known(s, f, p) && at !in s && r.parent == p && at != p
    requires Kids(f1, p) == Kids(f, p) && (Kids(f, p) != [] ==> Kids(f, p)[|Kids(f, p)| - 1] in s)
    ensures NodeAdded(s, f, LinkedLast(s[at := r], f1, p, at), p, at, r)
  {
  }

  /** c is a root of its own, whose tree does not hold p. */
  ghost predicate IsLoose(s: Nodes, f: Forest, p: nat, c: nat) {
    Known(s, f, p) && Known(s, f, c) && Detached(f, c) && p !in Sub(f, c)
  }

  ghost predicate CanAttach(s: Nodes, f: Forest, p: nat, c: nat) {
    IsLoose(s, f, p, c) && s[c].next == 0
  }

  lemma LastKid(s: Nodes, f: Forest, p: nat)
    requires Wf(s, f) && Kids(f, p) != []
    ensures var i := |Kids(f, p)| - 1; var last := Kids(f, p)[i];
      ListedAt(f, p, i, last) && Known(s, f, last) && s[last].next == 0 && s[last].parent == p
  {
    var i := |Kids(f, p)| - 1;
    assert KidOk(s, f, p, i, Kids(f, p)[i]);
  }

  lemma AttachKids(s: Nodes, f: Forest, p: nat, c: nat, n: nat, i: nat, x: nat)
    requires Wf(s, f) && CanAttach(s, f, p, c) && (Kids(f, p) != [] ==> Kids(f, p)[|Kids(f, p)| - 1] in s)
    ensures KidOk(LinkedLast(s, f, p, c), Attached(f, p, c), n, i, x)
  {
    var f', l := Attached(f, p, c), Kids(f, p);
    if ListedAt(f', n, i, x) {
      if n == p && i == |l| {
        DetachedIsRoot(s, f, c, c);
        if l != [] {
          LastKid(s, f, p);
          assert !ListedAt(f, p, |l| - 1, c);
        }
      } else {
        assert ListedAt(f, n, i, x) && KidOk(s, f, n, i, x);
        assert !ListedAt(f, n, i, c);
        if l != [] {
          LastKid(s, f, p);
          if x == l[|l| - 1] { SamePlace(s, f, x, n, i, p, |l| - 1); }
        }
        if p in Below(f, x) { BelowNests(s, f, x, p); }
      }
    }
  }

  lemma AttachBelow(s: Nodes, f: Forest, p: nat, c: nat, n: nat, x: nat)
    requires Wf(s, f) && CanAttach(s, f, p, c) && (Kids(f, p) != [] ==> Kids(f, p)[|Kids(f, p)| - 1] in s)
    ensures BelowOk(LinkedLast(s, f, p, c), Attached(f, p, c), n, x)
  {
    var f' := Attached(f, p, c);
    assert BelowOk(s, f, n, x) && BelowOk(s, f, c, x) && BelowOk(s, f, n, p);
    assert NodeOk(s, f, n) && NodeOk(s, f, p) && NodeOk(s, f, c);
    if x in Below(f', n) && x == c {
      assert f'.kids[p][|f.kids[p]|] == c;
    }
    if x in Below(f, n) {
      DetachedIsRoot(s, f, c, n);
      var i := PlaceOf(s, f, n, x);
      assert ListedAt(f, s[x].parent, i, x);
    }
    if x in Below(f, c) {
      var i := PlaceOf(s, f, c, x);
      if n in Below(f, c) { BelowNests(s, f, c, n); }
    }
  }

  /** Attaching a detached tree keeps the forest well formed. */
  lemma AttachKeepsWf(s: Nodes, f: Forest, p: nat, c: nat)
    requires Wf(s, f) && CanAttach(s, f, p, c)
    ensures Kids(f, p) != [] ==> Kids(f, p)[|Kids(f, p)| - 1] in s
    ensures Wf(LinkedLast(s, f, p, c), Attached(f, p, c))
  {
    if Kids(f, p) != [] { LastKid(s, f, p); }
    var s', f' := LinkedLast(s, f, p, c), Attached(f, p, c);
    forall n: nat ensures NodeOk(s', f', n) { assert NodeOk(s, f, n) && NodeOk(s, f, c) && NodeOk(s, f, p); }
    forall n: nat, i: nat, x: nat ensures KidOk(s', f', n, i, x) { AttachKids(s, f, p, c, n, i, x); }
    forall n: nat, i: nat, j: nat ensures KidsApart(f', n, i, j) {
      assert KidsApart(f, n, i, j) && !ListedAt(f, n, i, c);
    }
    forall n: nat, x: nat ensures BelowOk(s', f', n, x) { AttachBelow(s, f, p, c, n, x); }
  }

  /** Attaching keeps the forest well formed exactly when c is a root of its own
      that does not hold p, and has no next sibling left from a list it was in. */
  lemma AttachedRight(s: Nodes, f: Forest, p: nat, c: nat)
    requires Wf(s, f) && Known(s, f, p) && Known(s, f, c)
    ensures Kids(f, p) != [] ==> Kids(f, p)[|Kids(f, p)| - 1] in s
    ensures Wf(LinkedLast(s, f, p, c), Attached(f, p, c)) <==> CanAttach(s, f, p, c)
  {
    if Kids(f, p) != [] { LastKid(s, f, p); }
    if CanAttach(s, f, p, c) {
      AttachKeepsWf(s, f, p, c);
    } else {
      AttachedWrong(s, f, p, c);
    }
  }

  lemma AttachedWrong(s: Nodes, f: Forest, p: nat, c: nat)
    requires Wf(s, f) && Known(s, f, p) && Known(s, f, c) && !CanAttach(s, f, p, c)
    requires Kids(f, p) != [] ==> Kids(f, p)[|Kids(f, p)| - 1] in s
    ensures !Wf(LinkedLast(s, f, p, c), Attached(f, p, c))
  {
    var s', f', n := LinkedLast(s, f, p, c), Attached(f, p, c), |Kids(f, p)|;
    assert ListedAt(f', p, n, c);
    if m, i :| ListedAt(f, m, i, c) {
      assert ListedAt(f', m, i, c);
      if m == p { assert !KidsApart(f', p, i, n); } else { assert !KidOk(s', f', m, i, c); }
    } else if p in Sub(f, c) {
      assert c in Below(f', c) && !BelowOk(s', f', c, c);
    } else {
      if n > 0 { assert !ListedAt(f, p, n - 1, c); }
      assert !KidOk(s', f', p, n, c);
    }
  }

  // ---------- Detaching ----------

  function Dropped(l: seq<nat>, i: nat): seq<nat>
    requires i < |l|
  {
    l[..i] + l[i + 1..]
  }

  /** The forest without the link from p to its child c at position i. */
  ghost function Unlisted(f: Forest, p: nat, i: nat, c: nat): Forest
    requires ListedAt(f, p, i, c)
  {
    Forest(f.kids[p := Dropped(Kids(f, p), i)],
           map n | n in f.below :: if n == p || p in f.below[n] then f.below[n] - Sub(f, c) else f.below[n])
  }

  /** Memory after child c at position i of p was unlinked; c itself is not touched. */
  ghost function Unlinked(s: Nodes, f: Forest, p: nat, i: nat, c: nat): Nodes
    requires ListedAt(f, p, i, c) && p in s && c in s && (i > 0 ==> Kids(f, p)[i - 1] in s)
  {
    if i == 0 then s[p := s[p].(children := s[c].next)]
    else var prev := Kids(f, p)[i - 1]; s[prev := s[prev].(next := s[c].next)]
  }

  /** Child i of p, which stays as it is, is passed over by the link that led to it,
      and nothing else has changed. */
  ghost predicate NodeUnlinked(s: Nodes, f: Forest, s': Nodes, p: nat, i: nat) {
    var l := Kids(f, p);
    && s'.Keys == s.Keys
    && forall n :: n in s ==>
         Relinked(s[n], s'[n], if n == p && i == 0 then Nth(l, 1) else s[n].children,
                  if 0 < i <= |l| && n == l[i - 1] then Nth(l, i + 1) else s[n].next)
  }

  lemma UnlinkedIs(s: Nodes, f: Forest, p: nat, i: nat, c: nat)
    requires Wf(s, f) && ListedAt(f, p, i, c) && p in s && c in s && (i > 0 ==> Kids(f, p)[i - 1] in s)
    ensures NodeUnlinked(s, f, Unlinked(s, f, p, i, c), p, i)
  {
    assert KidOk(s, f, p, i, c);
  }

  lemma ListedKnown(s: Nodes, f: Forest, p: nat, i: nat, c: nat)
    requires Wf(s, f) && ListedAt(f, p, i, c)
    ensures Known(s, f, p) && Known(s, f, c) && c != p && p !in Below(f, c) && s[c].parent == p && c in Below(f, p)
    ensures i > 0 ==> Known(s, f, Kids(f, p)[i - 1])
  {
    assert NodeOk(s, f, p) && KidOk(s, f, p, i, c);
    BelowNests(s, f, p, c);
    if i > 0 { assert KidOk(s, f, p, i - 1, Kids(f, p)[i - 1]); }
  }

  /** A child of n that is not c lies in the subtree of c only if n does. */
  lemma KidOutside(s: Nodes, f: Forest, n: nat, j: nat, x: nat, c: nat)
    requires Wf(s, f) && ListedAt(f, n, j, x) && x != c && n !in Sub(f, c)
    ensures x !in Sub(f, c)
  {
    assert KidOk(s, f, n, j, x);
    if x in Below(f, c) { var k := PlaceOf(s, f, c, x); }
  }

  /** Whatever has p among its descendants is not in the subtree of p's child c. */
  lemma AboveOutside(s: Nodes, f: Forest, p: nat, i: nat, c: nat, n: nat)
    requires Wf(s, f) && ListedAt(f, p, i, c) && (n == p || p in Below(f, n))
    ensures n !in Sub(f, c)
  {
    ListedKnown(s, f, p, i, c);
    if n in Below(f, c) { BelowNests(s, f, c, n); }
  }

  lemma DetachKids(s: Nodes, f: Forest, p: nat, i: nat, c: nat, n: nat, j: nat, x: nat)
    requires Wf(s, f) && ListedAt(f, p, i, c) && p in s && c in s && (i > 0 ==> Kids(f, p)[i - 1] in s)
    ensures KidOk(Unlinked(s, f, p, i, c), Unlisted(f, p, i, c), n, j, x)
  {
    var f' := Unlisted(f, p, i, c);
    if ListedAt(f', n, j, x) {
      var o := if n == p && j >= i then j + 1 else j;
      assert ListedAt(f, n, o, x) && KidOk(s, f, n, o, x) && KidOk(s, f, p, i, c);
      ListedKnown(s, f, n, o, x);
      if x == c { SamePlace(s, f, c, p, i, n, o); }
      if i > 0 && x == Kids(f, p)[i - 1] { SamePlace(s, f, x, n, o, p, i - 1); }
      if n == p || p in Below(f, n) {
        AboveOutside(s, f, p, i, c, n);
        KidOutside(s, f, n, o, x, c);
      }
      if p in Below(f, x) { BelowNests(s, f, n, x); }
      DetachNests(s, f, p, i, c, n, o, x);
    }
  }

  lemma DetachNests(s: Nodes, f: Forest, p: nat, i: nat, c: nat, n: nat, j: nat, x: nat)
    requires Wf(s, f) && ListedAt(f, p, i, c) && ListedAt(f, n, j, x) && x != c
    ensures Below(Unlisted(f, p, i, c), x) <= Below(Unlisted(f, p, i, c), n)
  {
    var f' := Unlisted(f, p, i, c);
    assert KidOk(s, f, n, j, x) && NodeOk(s, f, n);
    assert n in f.below && x in f.below;
    forall y | y in Below(f', x) ensures y in Below(f', n) {
      assert y in Below(f, x) && y in Below(f, n);
      if (n == p || p in Below(f, n)) && y in Sub(f, c) {
        assert !(x == p || p in Below(f, x));
        AboveOutside(s, f, p, i, c, n);
        KidOutside(s, f, n, j, x, c);
        MeetsSub(s, f, p, i, c, x, y);
      }
    }
  }

  /** A node with a descendant in the subtree of c is in that subtree or has the
      parent of c for a descendant or for itself. */
  lemma {:induction false} MeetsSub(s: Nodes, f: Forest, p: nat, i: nat, c: nat, x: nat, y: nat)
    requires Wf(s, f) && ListedAt(f, p, i, c) && y in Below(f, x) && y in Sub(f, c)
    ensures x in Sub(f, c) || x == p || p in Below(f, x)
    decreases Below(f, c) + Below(f, x) - Below(f, y)
  {
    assert KidOk(s, f, p, i, c);
    var k := PlaceOf(s, f, x, y);
    if y != c {
      var q := s[y].parent;
      var l := PlaceOf(s, f, c, y);
      assert KidOk(s, f, q, k, y) && BelowOk(s, f, y, y);
      if q != x { MeetsSub(s, f, p, i, c, x, q); }
    }
  }

  lemma DetachBelow(s: Nodes, f: Forest, p: nat, i: nat, c: nat, n: nat, x: nat)
    requires Wf(s, f) && ListedAt(f, p, i, c) && p in s && c in s && (i > 0 ==> Kids(f, p)[i - 1] in s)
    ensures BelowOk(Unlinked(s, f, p, i, c), Unlisted(f, p, i, c), n, x)
  {
    var s', f' := Unlinked(s, f, p, i, c), Unlisted(f, p, i, c);
    if x in Below(f', n) {
      assert NodeOk(s, f, n);
      ListedKnown(s, f, p, i, c);
      var k := PlaceOf(s, f, n, x);
      var q := s[x].parent;
      assert KidOk(s, f, q, k, x);
      if x == c { BelowNests(s, f, n, c); SamePlace(s, f, c, p, i, q, k); }
      assert Kids(f', q) == if q == p then Dropped(Kids(f, p), i) else Kids(f, q);
      if q == p {
        SameOrNot(s, f, p, i, c, k, x);
        assert Dropped(Kids(f, p), i)[if k < i then k else k - 1] == x;
      }
      if (n == p || p in Below(f, n)) && q in Sub(f, c) && q != n {
        if q != c { BelowNests(s, f, c, q); }
      }
    }
  }

  lemma SameOrNot(s: Nodes, f: Forest, p: nat, i: nat, c: nat, k: nat, x: nat)
    requires Wf(s, f) && ListedAt(f, p, i, c) && ListedAt(f, p, k, x) && x != c
    ensures k != i
  {
  }

  /** Unlinking a child keeps the forest well formed, and the child is detached. */
  lemma DetachKeepsWf(s: Nodes, f: Forest, p: nat, i: nat, c: nat)
    requires Wf(s, f) && ListedAt(f, p, i, c)
    ensures Known(s, f, p) && Known(s, f, c) && (i > 0 ==> Kids(f, p)[i - 1] in s)
    ensures Wf(Unlinked(s, f, p, i, c), Unlisted(f, p, i, c)) && Detached(Unlisted(f, p, i, c), c)
    ensures Sub(Unlisted(f, p, i, c), c) == Sub(f, c)
  {
    ListedKnown(s, f, p, i, c);
    var s', f' := Unlinked(s, f, p, i, c), Unlisted(f, p, i, c);
    forall n: nat ensures NodeOk(s', f', n) {
      assert NodeOk(s, f, n) && KidOk(s, f, p, i, c);
      if i > 0 { assert NodeOk(s, f, Kids(f, p)[i - 1]); }
    }
    forall n: nat, j: nat, x: nat ensures KidOk(s', f', n, j, x) { DetachKids(s, f, p, i, c, n, j, x); }
    forall n: nat, j: nat, k: nat ensures KidsApart(f', n, j, k) {
      assert KidsApart(f, n, if n == p && j >= i then j + 1 else j, if n == p && k >= i then k + 1 else k);
    }
    forall n: nat, x: nat ensures BelowOk(s', f', n, x) { DetachBelow(s, f, p, i, c, n, x); }
    forall n: nat, j: nat ensures !ListedAt(f', n, j, c) {
      var o := if n == p && j >= i then j + 1 else j;
      if ListedAt(f, n, o, c) { SamePlace(s, f, c, p, i, n, o); }
    }
  }

  // ---------- Cutting off a subtree ----------

  /** The list without the members of d, in the same order. */
  ghost function Filtered(l: seq<nat>, d: set<nat>): seq<nat> {
    if l == [] then [] else if l[0] in d then Filtered(l[1..], d) else [l[0]] + Filtered(l[1..], d)
  }

  /** The forest without the nodes of d. */
  ghost function Cut(f: Forest, d: set<nat>): Forest {
    Forest(map n | n in f.kids && n !in d :: Filtered(f.kids[n], d), map n | n in f.below && n !in d :: f.below[n] - d)
  }

  lemma {:induction false} FilteredNone(l: seq<nat>, d: set<nat>)
    requires forall i :: 0 <= i < |l| ==> l[i] !in d
    ensures Filtered(l, d) == l
  {
    if l != [] {
      assert l[0] !in d;
      FilteredNone(l[1..], d);
    }
  }

  lemma {:induction false} FilteredTwice(l: seq<nat>, d: set<nat>, e: set<nat>)
    ensures Filtered(Filtered(l, d), e) == Filtered(l, d + e)
  {
    if l != [] {
      FilteredTwice(l[1..], d, e);
      if l[0] !in d { assert Filtered(l, d)[1..] == Filtered(l[1..], d); }
    }
  }

  lemma CutTwice(f: Forest, d: set<nat>, e: set<nat>)
    ensures Cut(Cut(f, d), e) == Cut(f, d + e)
  {
    var g, h := Cut(Cut(f, d), e), Cut(f, d + e);
    forall n | n in h.kids ensures g.kids[n] == h.kids[n] { FilteredTwice(f.kids[n], d, e); }
    forall n | n in h.below ensures g.below[n] == h.below[n] {}
    assert g.kids.Keys == h.kids.Keys && g.below.Keys == h.below.Keys;
  }

  lemma CutNothing(f: Forest)
    ensures Cut(f, {}) == f
  {
    var g := Cut(f, {});
    forall n | n in f.kids ensures g.kids[n] == f.kids[n] { FilteredNone(f.kids[n], {}); }
    assert forall n :: n in f.below ==> g.below[n] == f.below[n];
    assert g.kids.Keys == f.kids.Keys && g.below.Keys == f.below.Keys;
  }

  lemma {:induction false} FilteredSplit(a: seq<nat>, b: seq<nat>, d: set<nat>)
    ensures Filtered(a + b, d) == Filtered(a, d) + Filtered(b, d)
  {
    if a == [] {
      assert a + b == b;
    } else {
      assert (a + b)[1..] == a[1..] + b;
      FilteredSplit(a[1..], b, d);
    }
  }

  lemma {:induction false} FilteredAll(l: seq<nat>, d: set<nat>)
    requires forall i :: 0 <= i < |l| ==> l[i] in d
    ensures Filtered(l, d) == []
  {
    if l != [] {
      assert l[0] in d;
      FilteredAll(l[1..], d);
    }
  }

  /** Only the member at position i is in d. */
  lemma FilteredOne(l: seq<nat>, i: nat, d: set<nat>)
    requires i < |l| && l[i] in d && forall j :: 0 <= j < |l| && j != i ==> l[j] !in d
    ensures Filtered(l, d) == Dropped(l, i)
  {
    assert l == l[..i] + [l[i]] + l[i + 1..];
    FilteredSplit(l[..i] + [l[i]], l[i + 1..], d);
    FilteredSplit(l[..i], [l[i]], d);
    FilteredNone(l[..i], d);
    FilteredNone(l[i + 1..], d);
    FilteredAll([l[i]], d);
  }

  /** Cutting off the subtree of c is the same before and after c was unlinked. */
  lemma CutAfterUnlisting(s: Nodes, f: Forest, p: nat, i: nat, c: nat)
    requires Wf(s, f) && ListedAt(f, p, i, c)
    ensures Cut(Unlisted(f, p, i, c), Sub(f, c)) == Cut(f, Sub(f, c))
  {
    ListedKnown(s, f, p, i, c);
    var d := Sub(f, c);
    var g, h := Cut(Unlisted(f, p, i, c), d), Cut(f, d);
    var l := Kids(f, p);
    forall j | 0 <= j < |l| && j != i ensures l[j] !in d {
      assert ListedAt(f, p, j, l[j]);
      if l[j] == c { SamePlace(s, f, c, p, i, p, j); }
      KidOutside(s, f, p, j, l[j], c);
    }
    FilteredOne(l, i, d);
    FilteredNone(Dropped(l, i), d);
    assert g.kids.Keys == h.kids.Keys && g.below.Keys == h.below.Keys;
    assert forall n :: n in h.kids ==> g.kids[n] == h.kids[n];
    assert forall n :: n in h.below ==> g.below[n] == h.below[n];
  }

  /** A node without children has no descendants. */
  lemma {:induction false} NoKidsNoBelow(s: Nodes, f: Forest, n: nat, x: nat)
    requires Wf(s, f) && Kids(f, n) == []
    ensures x !in Below(f, n)
    decreases Below(f, n) - Below(f, x)
  {
    if x in Below(f, n) {
      var i := PlaceOf(s, f, n, x);
      var p := s[x].parent;
      assert KidOk(s, f, p, i, x) && BelowOk(s, f, x, x);
      NoKidsNoBelow(s, f, n, p);
    }
  }

  /** Freeing a detached node without children keeps the forest well formed. */
  lemma FreeKeepsWf(s: Nodes, f: Forest, c: nat)
    requires Wf(s, f) && Detached(f, c) && Kids(f, c) == []
    ensures Wf(s - {c}, Cut(f, {c}))
    ensures forall n :: n != c ==> Kids(Cut(f, {c}), n) == Kids(f, n) && Below(Cut(f, {c}), n) == Below(f, n)
  {
    var s', f' := s - {c}, Cut(f, {c});
    forall n | n != c ensures Kids(f', n) == Kids(f, n) && Below(f', n) == Below(f, n) {
      var l := Kids(f, n);
      forall j | 0 <= j < |l| ensures l[j] !in {c} { assert !ListedAt(f, n, j, c); }
      FilteredNone(l, {c});
      DetachedIsRoot(s, f, c, n);
    }
    forall n: nat ensures NodeOk(s', f', n) { assert NodeOk(s, f, n); }
    forall n: nat, j: nat, x: nat ensures KidOk(s', f', n, j, x) {
      assert KidOk(s, f, n, j, x) && !ListedAt(f, n, j, c);
    }
    forall n: nat, j: nat, k: nat ensures KidsApart(f', n, j, k) { assert KidsApart(f, n, j, k); }
    forall n: nat, x: nat ensures BelowOk(s', f', n, x) {
      assert BelowOk(s, f, n, x);
      DetachedIsRoot(s, f, c, n);
      if n != c && x in Below(f, n) {
        var j := PlaceOf(s, f, n, x);
        assert s[x].parent == c ==> !ListedAt(f, c, j, x);
      }
    }
  }

  /** Names, kinds and parents of the nodes left are the same. */
  ghost predicate SameNodes(s: Nodes, s': Nodes) {
    forall n :: n in s' ==> n in s && s'[n].name == s[n].name && s'[n].kind == s[n].kind && s'[n].parent == s[n].parent
  }

  /** Cutting off the first child of c. */
  lemma CutFirstKid(s: Nodes, f: Forest, c: nat)
    requires Wf(s, f) && Kids(f, c) != []
    ensures var d := Kids(f, c)[0]; var g := Cut(f, Sub(f, d));
      && ListedAt(f, c, 0, d) && Known(s, f, d) && s[d].next == Nth(Kids(f, c)[1..], 0)
      && Sub(f, d) <= Below(f, c) && Below(f, d) < Below(f, c) && c !in Sub(f, d)
      && Kids(g, c) == Kids(f, c)[1..] && Below(g, c) == Below(f, c) - Sub(f, d) && (c in f.kids ==> c in g.kids)
      && (Detached(f, c) ==> Detached(g, c))
  {
    var l := Kids(f, c);
    var d := l[0];
    var e, g := Sub(f, d), Cut(f, Sub(f, d));
    assert ListedAt(f, c, 0, d) && KidOk(s, f, c, 0, d) && NodeOk(s, f, c);
    BelowNests(s, f, c, d);
    assert BelowOk(s, f, d, d) && c in f.kids && c in f.below;
    forall j | 0 <= j < |l| && j != 0 ensures l[j] !in e {
      assert ListedAt(f, c, j, l[j]);
      if l[j] == d { SamePlace(s, f, d, c, 0, c, j); }
      KidOutside(s, f, c, j, l[j], d);
    }
    FilteredOne(l, 0, e);
    assert Dropped(l, 0) == l[1..];
    if Detached(f, c) { CutKeepsDetached(f, e, c); }
  }

  /** Unlinking c, cutting off its descendants, and freeing it cuts off its subtree. */
  lemma RemovedIsCut(s: Nodes, f: Forest, p: nat, i: nat, c: nat)
    requires Wf(s, f) && ListedAt(f, p, i, c)
    ensures var g := Unlisted(f, p, i, c);
      Below(g, c) == Below(f, c) && Cut(Cut(g, Below(g, c)), {c}) == Cut(f, Sub(f, c))
  {
    var g := Unlisted(f, p, i, c);
    ListedKnown(s, f, p, i, c);
    CutAfterUnlisting(s, f, p, i, c);
    CutTwice(g, Below(f, c), {c});
    assert Below(f, c) + {c} == Sub(f, c);
  }

  lemma {:induction false} FilteredMembers(l: seq<nat>, d: set<nat>, x: nat)
    ensures x in Filtered(l, d) <==> x in l && x !in d
  {
    if l != [] { FilteredMembers(l[1..], d, x); }
  }

  lemma CutKeepsDetached(f: Forest, d: set<nat>, c: nat)
    requires Detached(f, c)
    ensures Detached(Cut(f, d), c)
  {
    forall n: nat, i: nat ensures !ListedAt(Cut(f, d), n, i, c) {
      if ListedAt(Cut(f, d), n, i, c) {
        FilteredMembers(Kids(f, n), d, c);
        var j :| 0 <= j < |Kids(f, n)| && Kids(f, n)[j] == c;
        assert ListedAt(f, n, j, c);
      }
    }
  }
}
