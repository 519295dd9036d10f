/** Paths through the node forest, with mounts in the way. */
module VfsPaths {
  import opened PathText
  import opened VfsTree

  /** What is mounted on a node; the latest mount comes first in the table. */
  datatype Mount = Mount(point: nat, mounted: nat)

  /** The first child in the list with the given name, or 0. */
  ghost function FirstNamed(s: Nodes, l: seq<nat>, name: string): nat {
    if l == [] then 0 else if l[0] in s && s[l[0]].name == name then l[0] else FirstNamed(s, l[1..], name)
  }

  /** The root mounted on a node, or the node itself. */
  ghost function Over(m: seq<Mount>, n: nat): nat {
    if m == [] then n else if m[0].point == n then m[0].mounted else Over(m[1..], n)
  }

  ghost function Step(s: Nodes, f: Forest, m: seq<Mount>, n: nat,
                      name: string): nat
  {
    FirstNamed(s, Kids(f, Over(m, n)), name)
  }

  /** The node a list of names leads to from n, or 0. */
  ghost function Walk(s: Nodes, f: Forest, m: seq<Mount>, n: nat, names: seq<string>): nat
    decreases |names|
  {
    if names == [] then n
    else
      var c := Step(s, f, m, n, names[0]);
      if c == 0 then 0 else Walk(s, f, m, c, names[1..])
  }

  /** What is mounted on a node is one of its children. */
  ghost predicate MountOk(f: Forest, m: seq<Mount>, k: nat) {
    k < |m| ==> m[k].mounted in Kids(f, m[k].point)
  }

  ghost predicate MountsApart(m: seq<Mount>, j: nat, k: nat) { j < k < |m| ==> m[j].mounted != m[k].mounted }

  ghost predicate MountsOk(f: Forest, m: seq<Mount>) {
    (forall k :: MountOk(f, m, k)) && forall j, k :: MountsApart(m, j, k)
  }

  /** c is at position i, behind nodes with other names only. */
  ghost predicate FirstAt(s: Nodes, l: seq<nat>, name: string, i: nat, c: nat) {
    i < |l| && l[i] == c && forall j :: 0 <= j < i ==> l[j] in s && s[l[j]].name != name
  }

  /** The first child of a list that has the name, exactly when there is one. */
  lemma {:induction false} FirstNamedIs(s: Nodes, l: seq<nat>, name: string)
    requires forall i :: 0 <= i < |l| ==> l[i] in s && l[i] != 0
    ensures var c := FirstNamed(s, l, name);
      if c == 0 then forall i :: 0 <= i < |l| ==> s[l[i]].name != name
      else c in l && c in s && s[c].name == name && exists i :: FirstAt(s, l, name, i, c)
  {
    if l != [] {
      assert l[0] in s && l[0] != 0;
      forall i | 0 <= i < |l[1..]| ensures l[1..][i] in s && l[1..][i] != 0 { assert l[1..][i] == l[i + 1]; }
      FirstNamedIs(s, l[1..], name);
      var c := FirstNamed(s, l, name);
      if s[l[0]].name == name {
        assert FirstAt(s, l, name, 0, c);
      } else if c != 0 {
        var i: nat :| FirstAt(s, l[1..], name, i, c);
        assert forall j :: 0 < j < i + 1 ==> l[j] == l[1..][j - 1];
        assert FirstAt(s, l, name, i + 1, c);
      }
      if FirstNamed(s, l, name) == 0 {
        forall i | 0 <= i < |l| ensures s[l[i]].name != name {
          if i > 0 { assert l[1..][i - 1] == l[i]; }
        }
      }
    }
  }

  lemma KidsKnown(s: Nodes, f: Forest, n: nat)
    requires Wf(s, f)
    ensures forall i :: 0 <= i < |Kids(f, n)| ==>
              Kids(f, n)[i] in s && Kids(f, n)[i] != 0 && Kids(f, n)[i] in Below(f, n)
  {
    forall i | 0 <= i < |Kids(f, n)| ensures Kids(f, n)[i] in s && Kids(f, n)[i] != 0 && Kids(f, n)[i] in Below(f, n) {
      assert KidOk(s, f, n, i, Kids(f, n)[i]);
    }
  }

  lemma {:induction false} OverIs(f: Forest, m: seq<Mount>, n: nat)
    requires MountsOk(f, m)
    ensures Over(m, n) == n || Over(m, n) in Kids(f, n)
  {
    if m != [] {
      assert MountOk(f, m, 0);
      forall k: nat ensures MountOk(f, m[1..], k) { assert MountOk(f, m, k + 1); }
      forall j: nat, k: nat ensures MountsApart(m[1..], j, k) { assert MountsApart(m, j + 1, k + 1); }
      OverIs(f, m[1..], n);
    }
  }

  /** A step leads down. */
  lemma StepDescends(s: Nodes, f: Forest, m: seq<Mount>, n: nat, name: string)
    requires Wf(s, f) && MountsOk(f, m) && Step(s, f, m, n, name) != 0
    ensures var c := Step(s, f, m, n, name); c in Below(f, n) && c in s && s[c].name == name && Known(s, f, c)
  {
    OverIs(f, m, n);
    var o, c := Over(m, n), Step(s, f, m, n, name);
    KidsKnown(s, f, n);
    KidsKnown(s, f, o);
    FirstNamedIs(s, Kids(f, o), name);
    if o != n { BelowNests(s, f, n, o); }
    assert BelowOk(s, f, n, c);
  }

  /** So does a walk. */
  lemma {:induction false} WalkDescends(s: Nodes, f: Forest, m: seq<Mount>, n: nat, names: seq<string>)
    requires Wf(s, f) && MountsOk(f, m) && Known(s, f, n) && Walk(s, f, m, n, names) != 0
    ensures var c := Walk(s, f, m, n, names); Known(s, f, c) && c in Sub(f, n) && (names != [] ==> c in Below(f, n))
    decreases |names|
  {
    if names != [] {
      var c := Step(s, f, m, n, names[0]);
      StepDescends(s, f, m, n, names[0]);
      WalkDescends(s, f, m, c, names[1..]);
      BelowNests(s, f, n, c);
    }
  }

  lemma {:induction false} WalkSplit(s: Nodes, f: Forest, m: seq<Mount>, n: nat, a: seq<string>, b: seq<string>)
    ensures Walk(s, f, m, n, a + b) ==
            if Walk(s, f, m, n, a) == 0 then (if a == [] then Walk(s, f, m, n, b) else 0)
            else Walk(s, f, m, Walk(s, f, m, n, a), b)
    decreases |a|
  {
    if a == [] {
      assert a + b == b;
    } else {
      assert (a + b)[1..] == a[1..] + b;
      var c := Step(s, f, m, n, a[0]);
      if c != 0 { WalkSplit(s, f, m, c, a[1..], b); }
    }
  }

  // ---------- A new last child ----------

  /** s' and f' differ from s and f by a new last child c of p; all other nodes
      keep their names. */
  ghost predicate Grown(s: Nodes, f: Forest, s': Nodes, f': Forest, p: nat, c: nat) {
    && c != 0 && c in s'
    && (forall n :: NameKept(s, s', c, n)) && forall n :: KidsKept(f, f', p, c, n)
  }

  ghost predicate NameKept(s: Nodes, s': Nodes, c: nat, n: nat) {
    n in s && n != c ==> n in s' && s'[n].name == s[n].name
  }

  ghost predicate KidsKept(f: Forest, f': Forest, p: nat, c: nat, n: nat) {
    Kids(f', n) == if n == p then Kids(f, n) + [c] else Kids(f, n)
  }

  lemma {:induction false} FirstNamedMore(s: Nodes, s': Nodes, l: seq<nat>, c: nat, name: string)
    requires forall i :: 0 <= i < |l| ==> l[i] in s && l[i] != 0 && l[i] != c
    requires c != 0 && c in s' && forall n :: NameKept(s, s', c, n)
    ensures FirstNamed(s', l, name) == FirstNamed(s, l, name)
    ensures FirstNamed(s', l + [c], name) ==
            if FirstNamed(s, l, name) != 0 then FirstNamed(s, l, name) else if s'[c].name == name then c else 0
  {
    if l == [] {
      assert l + [c] == [c];
      assert [c][1..] == [];
    } else {
      assert NameKept(s, s', c, l[0]);
      assert l[0] in s && l[0] != 0 && l[0] != c;
      assert (l + [c])[1..] == l[1..] + [c];
      forall i | 0 <= i < |l[1..]| ensures l[1..][i] in s && l[1..][i] != 0 && l[1..][i] != c {
        assert l[1..][i] == l[i + 1];
      }
      FirstNamedMore(s, s', l[1..], c, name);
    }
  }

  lemma StepKept(s: Nodes, f: Forest, s': Nodes, f': Forest, m: seq<Mount>, m': seq<Mount>, p: nat, c: nat, n: nat,
                 name: string)
    requires Wf(s, f) && Detached(f, c) && Grown(s, f, s', f', p, c) && Over(m', n) == Over(m, n)
    ensures Step(s', f', m', n, name) ==
            if Step(s, f, m, n, name) != 0 then Step(s, f, m, n, name)
            else if Over(m, n) == p && s'[c].name == name then c else 0
  {
    var o := Over(m, n);
    KidsKnown(s, f, o);
    assert KidsKept(f, f', p, c, o);
    forall i | 0 <= i < |Kids(f, o)| ensures Kids(f, o)[i] != c { assert !ListedAt(f, o, i, c); }
    FirstNamedMore(s, s', Kids(f, o), c, name);
  }

  /** What a walk found before is found still; if something was mounted on p
      meanwhile, this holds of walks to p itself. */
  lemma {:induction false} WalkKept(s: Nodes, f: Forest, s': Nodes, f': Forest, m: seq<Mount>, m': seq<Mount>, p: nat,
                                    c: nat,
                                    n: nat, names: seq<string>)
    requires Wf(s, f) && MountsOk(f, m) && Detached(f, c) && Grown(s, f, s', f', p, c) && Known(s, f, n)
    requires Walk(s, f, m, n, names) != 0
    requires m' == m || (m' == [Mount(p, c)] + m && Walk(s, f, m, n, names) == p)
    ensures Walk(s', f', m', n, names) == Walk(s, f, m, n, names)
    decreases |names|
  {
    if names != [] {
      WalkDescends(s, f, m, n, names);
      assert BelowOk(s, f, n, p);
      assert m' != m ==> m'[1..] == m;
      StepKept(s, f, s', f', m, m', p, c, n, names[0]);
      StepDescends(s, f, m, n, names[0]);
      WalkKept(s, f, s', f', m, m', p, c, Step(s, f, m, n, names[0]), names[1..]);
    }
  }

  // ---------- Creating ----------

  /** The forest with a new node that nothing is linked to yet. */
  ghost function WithRoot(f: Forest, at: nat): Forest { Forest(f.kids[at := []], f.below[at := {}]) }

  lemma NewNodeKeepsWf(s: Nodes, f: Forest, p: nat, at: nat, r: Rec)
    requires Wf(s, f) && Known(s, f, p) && at != 0 && at !in s && NUL !in r.name && r.children == 0 && r.next == 0
    ensures Wf(s[at := r], WithRoot(f, at)) && CanAttach(s[at := r], WithRoot(f, at), p, at)
    ensures Detached(f, at) && forall n :: Kids(WithRoot(f, at), n) == Kids(f, n)
  {
    var s', f' := s[at := r], WithRoot(f, at);
    assert NodeOk(s, f, at);
    assert forall n :: Kids(f', n) == Kids(f, n) && Below(f', n) == Below(f, n);
    forall n: nat, i: nat ensures !ListedAt(f, n, i, at) { assert KidOk(s, f, n, i, at); }
    forall n: nat ensures NodeOk(s', f', n) { assert NodeOk(s, f, n); }
    forall n: nat, i: nat, c: nat ensures KidOk(s', f', n, i, c) { assert KidOk(s, f, n, i, c); }
    forall n: nat, i: nat, j: nat ensures KidsApart(f', n, i, j) { assert KidsApart(f, n, i, j); }
    forall n: nat, x: nat ensures BelowOk(s', f', n, x) { assert BelowOk(s, f, n, x); }
    forall n: nat, i: nat ensures !ListedAt(f', n, i, at) { assert !ListedAt(f, n, i, at); }
  }

  lemma CreatedGrows(s: Nodes, f: Forest, p: nat, at: nat, r: Rec)
    requires Wf(s, f) && Known(s, f, p) && at != 0 && at !in s && NUL !in r.name && r.children == 0 && r.next == 0
    ensures var s1, f1 := s[at := r], WithRoot(f, at);
      && (Kids(f1, p) != [] ==> Kids(f1, p)[|Kids(f1, p)| - 1] in s1) && p in f1.kids
      && Grown(s, f, LinkedLast(s1, f1, p, at), Attached(f1, p, at), p, at)
  {
    var s1, f1 := s[at := r], WithRoot(f, at);
    NewNodeKeepsWf(s, f, p, at, r);
    AttachKeepsWf(s1, f1, p, at);
    var s', f' := LinkedLast(s1, f1, p, at), Attached(f1, p, at);
    forall n: nat ensures NameKept(s, s', at, n) {}
    forall n: nat ensures KidsKept(f, f', p, at, n) {}
  }

  /** Opening the path of a node just created in folder p finds this node,
      exactly when its name is not empty, nothing is mounted on p, and p had no
      child of that name. parent leads to p. */
  lemma CreateThenOpen(s: Nodes, f: Forest, s': Nodes, f': Forest, m: seq<Mount>, root: nat, p: nat, at: nat,
                       parent: string, name: string)
    requires Wf(s, f) && MountsOk(f, m) && Known(s, f, root) && at !in s && Detached(f, at) &&
             Grown(s, f, s', f', p, at)
    requires s'[at].name == name && SLASH !in name && p != 0 && Walk(s, f, m, root, Components(parent)) == p
    ensures Walk(s', f', m, root, Components(parent + "/" + name)) == at
       <==> name != "" && Over(m, p) == p && FirstNamed(s, Kids(f, p), name) == 0
  {
    ComponentsSplit(parent, name);
    WalkDescends(s, f, m, root, Components(parent));
    WalkKept(s, f, s', f', m, m, p, at, root, Components(parent));
    WalkSplit(s', f', m, root, Components(parent), Components(name));
    if name == "" {
      assert Components(name) == [];
    } else {
      ComponentFirst(name, "");
      assert name + "" == name && Components(name) == [name];
      StepKept(s, f, s', f', m, m, p, at, p, name);
      if Step(s, f, m, p, name) != 0 { StepDescends(s, f, m, p, name); }
      var c := Step(s', f', m, p, name);
      assert Walk(s', f', m, p, [name]) == if c == 0 then 0 else Walk(s', f', m, c, []);
      OverIs(f, m, p);
    }
  }

  // ---------- Mounting ----------

  /** The subtree of a root is closed upwards. */
  lemma {:induction false} ClimbsToRoot(s: Nodes, f: Forest, r: nat, n: nat, x: nat)
    requires Wf(s, f) && Detached(f, r) && x in Sub(f, r) && x in Below(f, n)
    ensures n in Sub(f, r)
    decreases Below(f, n) - Below(f, x)
  {
    var i := PlaceOf(s, f, n, x);
    assert !ListedAt(f, s[x].parent, i, r);
    var p := s[x].parent;
    var j := PlaceOf(s, f, r, x);
    assert KidOk(s, f, p, i, x) && BelowOk(s, f, x, x);
    if p != n { ClimbsToRoot(s, f, r, n, p); }
  }

  /** Two roots have no descendant in common. */
  lemma RootsApart(s: Nodes, f: Forest, r: nat, t: nat, x: nat)
    requires Wf(s, f) && Detached(f, r) && Detached(f, t) && x in Sub(f, r) && x in Sub(f, t)
    ensures r == t
  {
    if x == t && x != r {
      DetachedIsRoot(s, f, t, r);
    } else if x != t {
      ClimbsToRoot(s, f, r, t, x);
      if t != r { DetachedIsRoot(s, f, t, r); }
    }
  }

  lemma MountGrows(s: Nodes, f: Forest, p: nat, r: nat)
    requires Wf(s, f) && CanAttach(s, f, p, r)
    ensures (Kids(f, p) != [] ==> Kids(f, p)[|Kids(f, p)| - 1] in s) &&
            Grown(s, f, LinkedLast(s, f, p, r), Attached(f, p, r), p, r)
  {
    if Kids(f, p) != [] { LastKid(s, f, p); }
    var s', f' := LinkedLast(s, f, p, r), Attached(f, p, r);
    forall n: nat ensures NameKept(s, s', r, n) {}
    forall n: nat ensures KidsKept(f, f', p, r, n) {}
  }

  /** A new root with no children changes no child list. */
  lemma GrownMounts(f: Forest, f': Forest, m: seq<Mount>, p: nat, at: nat)
    requires MountsOk(f, m) && f' == WithRoot(f, at) && forall n :: Kids(f', n) == Kids(f, n)
    ensures MountsOk(f', m)
  {
    forall k: nat ensures MountOk(f', m, k) { assert MountOk(f, m, k); }
  }

  lemma MountsKept(f: Forest, m: seq<Mount>, p: nat, r: nat)
    requires MountsOk(f, m) && p in f.kids && Detached(f, r)
    ensures MountsOk(Attached(f, p, r), [Mount(p, r)] + m) && MountsOk(Attached(f, p, r), m)
  {
    var f', m' := Attached(f, p, r), [Mount(p, r)] + m;
    assert Kids(f', p)[|Kids(f, p)|] == r;
    forall k: nat ensures MountOk(f', m', k) {
      if 0 < k < |m'| { assert MountOk(f, m, k - 1); assert m'[k] == m[k - 1]; }
    }
    forall k: nat ensures MountOk(f', m, k) { assert MountOk(f, m, k); }
    forall j: nat, k: nat ensures MountsApart(m', j, k) {
      if j < k < |m'| {
        if j > 0 { assert MountsApart(m, j - 1, k - 1); }
        assert m'[k] == m[k - 1] && MountOk(f, m, k - 1);
        var i :| 0 <= i < |Kids(f, m[k - 1].point)| && Kids(f, m[k - 1].point)[i] == m[k - 1].mounted;
        assert !ListedAt(f, m[k - 1].point, i, r);
      }
    }
  }

  /** The position of the first mount on p, or the length of the table. */
  ghost function MountIndex(m: seq<Mount>, p: nat): (k: nat)
    ensures k <= |m| && (k < |m| ==> m[k].point == p && m[k].mounted == Over(m, p))
  {
    if m == [] || m[0].point == p then 0 else 1 + MountIndex(m[1..], p)
  }

  /** Detaching what was just attached restores the forest and all links; only
      the parent of the detached root is still set. */
  lemma DetachUndoesAttach(s: Nodes, f: Forest, p: nat, r: nat)
    requires Wf(s, f) && CanAttach(s, f, p, r)
    ensures (Kids(f, p) != [] ==> Kids(f, p)[|Kids(f, p)| - 1] in s)
    ensures var s1, f1, i := LinkedLast(s, f, p, r), Attached(f, p, r), |Kids(f, p)|;
      && ListedAt(f1, p, i, r) && p in s1 && r in s1 && (i > 0 ==> Kids(f1, p)[i - 1] in s1)
      && Unlisted(f1, p, i, r) == f && Unlinked(s1, f1, p, i, r) == s[r := s[r].(parent := p)]
  {
    if Kids(f, p) != [] {
      LastKid(s, f, p);
      assert !ListedAt(f, p, |Kids(f, p)| - 1, r);
    }
    assert NodeOk(s, f, p) && NodeOk(s, f, r);
    var s1, f1, i := LinkedLast(s, f, p, r), Attached(f, p, r), |Kids(f, p)|;
    var f2 := Unlisted(f1, p, i, r);
    assert Dropped(Kids(f1, p), i) == Kids(f, p);
    assert f2.kids == f.kids;
    forall n | n in f.below ensures n in f2.below && f2.below[n] == f.below[n] {
      if n == p || p in Below(f, n) {
        forall x | x in Below(f, n) ensures x !in Sub(f, r) {
          if x in Sub(f, r) {
            ClimbsToRoot(s, f, r, n, x);
            if n != p && n != r { BelowNests(s, f, r, n); }
          }
        }
      }
    }
    assert f2.below.Keys == f.below.Keys;
  }

  /** Unmounting undoes mounting, also on a point with earlier mounts, which are
      thus taken off last in, first out. names leads to p. */
  lemma UnmountUndoesMount(s: Nodes, f: Forest, m: seq<Mount>, root: nat, p: nat, r: nat, names: seq<string>)
    requires Wf(s, f) && MountsOk(f, m) && Known(s, f, root) && CanAttach(s, f, p, r) && Walk(s, f, m, root, names) == p
    ensures (Kids(f, p) != [] ==> Kids(f, p)[|Kids(f, p)| - 1] in s)
    ensures var s1, f1, m1, i := LinkedLast(s, f, p, r), Attached(f, p, r), [Mount(p, r)] + m, |Kids(f, p)|;
      && Walk(s1, f1, m1, root, names) == p && Over(m1, p) == r && MountIndex(m1, p) == 0 && m1[0].mounted == r &&
          m1[1..] == m
      && ListedAt(f1, p, i, r) && p in s1 && r in s1 && (i > 0 ==> Kids(f1, p)[i - 1] in s1)
      && Unlisted(f1, p, i, r) == f && Unlinked(s1, f1, p, i, r) == s[r := s[r].(parent := p)]
  {
    MountGrows(s, f, p, r);
    DetachUndoesAttach(s, f, p, r);
    WalkKept(s, f, LinkedLast(s, f, p, r), Attached(f, p, r), m, [Mount(p, r)] + m, p, r, root, names);
  }

  /** What is looked up under the path of a mount is looked up among the children
      of the root mounted there, whatever was mounted or listed there before. */
  lemma MountShows(s: Nodes, f: Forest, m: seq<Mount>, root: nat, p: nat, r: nat, names: seq<string>, name: string)
    requires Wf(s, f) && MountsOk(f, m) && Known(s, f, root) && CanAttach(s, f, p, r) && Walk(s, f, m, root, names) == p
    ensures (Kids(f, p) != [] ==> Kids(f, p)[|Kids(f, p)| - 1] in s)
    ensures var s1, f1, m1 := LinkedLast(s, f, p, r), Attached(f, p, r), [Mount(p, r)] + m;
      Walk(s1, f1, m1, root, names + [name]) == FirstNamed(s1, Kids(f, r), name)
  {
    UnmountUndoesMount(s, f, m, root, p, r, names);
    var s1, f1, m1 := LinkedLast(s, f, p, r), Attached(f, p, r), [Mount(p, r)] + m;
    WalkSplit(s1, f1, m1, root, names, [name]);
    var c := Step(s1, f1, m1, p, name);
    assert Walk(s1, f1, m1, p, [name]) == if c == 0 then 0 else Walk(s1, f1, m1, c, []);
    assert Kids(f1, r) == Kids(f, r);
  }

  /** Taking the mount at position k off, and its root out of the child list. */
  lemma UnmountKeeps(s: Nodes, f: Forest, m: seq<Mount>, k: nat, i: nat)
    requires Wf(s, f) && MountsOk(f, m) && k < |m| && ListedAt(f, m[k].point, i, m[k].mounted)
    ensures MountsOk(Unlisted(f, m[k].point, i, m[k].mounted), m[..k] + m[k + 1..])
  {
    var f', m' := Unlisted(f, m[k].point, i, m[k].mounted), m[..k] + m[k + 1..];
    forall j: nat ensures MountOk(f', m', j) {
      if j < |m'| {
        var o := if j < k then j else j + 1;
        assert m'[j] == m[o] && MountOk(f, m, o) && MountsApart(m, o, k) && MountsApart(m, k, o);
        var l :| 0 <= l < |Kids(f, m[o].point)| && Kids(f, m[o].point)[l] == m[o].mounted;
        if m[o].point == m[k].point {
          assert Dropped(Kids(f, m[k].point), i)[if l < i then l else l - 1] == m[o].mounted;
        }
      }
    }
    forall j: nat, l: nat ensures MountsApart(m', j, l) {
      assert MountsApart(m, if j < k then j else j + 1, if l < k then l else l + 1);
    }
  }

  /** Cutting off the subtree of c leaves the mounts in order exactly when no
      mounted root goes with it. */
  lemma MountsAfterCut(s: Nodes, f: Forest, m: seq<Mount>, c: nat)
    requires Wf(s, f) && MountsOk(f, m)
    ensures MountsOk(Cut(f, Sub(f, c)), m) <==> forall k :: 0 <= k < |m| ==> m[k].mounted !in Sub(f, c)
  {
    var d := Sub(f, c);
    forall k | 0 <= k < |m| ensures MountOk(Cut(f, d), m, k) <==> m[k].mounted !in d {
      assert MountOk(f, m, k);
      FilteredMembers(Kids(f, m[k].point), d, m[k].mounted);
      if m[k].point in d { KidsGoToo(s, f, c, m[k].point, m[k].mounted); }
    }
    if forall k :: 0 <= k < |m| ==> m[k].mounted !in d {
      forall k: nat ensures MountOk(Cut(f, d), m, k) {}
    }
  }

  /** The children of a node of a subtree are in it, too. */
  lemma KidsGoToo(s: Nodes, f: Forest, c: nat, n: nat, x: nat)
    requires Wf(s, f) && n in Sub(f, c) && x in Kids(f, n)
    ensures x in Sub(f, c)
  {
    var i :| 0 <= i < |Kids(f, n)| && Kids(f, n)[i] == x;
    assert KidOk(s, f, n, i, x);
    if n != c { BelowNests(s, f, c, n); }
  }
}
