/** The virtual file system: nodes changed in place, paths, and mounts. */
module Vfs {
  import opened PathText
  import opened CStrings
  import opened VfsTree
  import opened VfsPaths

  datatype Status = Success | Error | NotFound | NotPermitted

  class FileSystem {
    var nodes: Nodes
    var root: nat
    var mounts: seq<Mount>
    ghost var forest: Forest

    /** The nodes, without regard to mounts. */
    ghost predicate TreeOk()
      reads this
    {
      Wf(nodes, forest) && Known(nodes, forest, root) && nodes[root].parent == 0
    }

    ghost predicate Valid()
      reads this
    {
      TreeOk() && MountsOk(forest, mounts)
    }

    constructor (at: nat)
      requires at != 0
      ensures Valid() && root == at && mounts == [] && forest == Forest(map[at := []], map[at := {}])
      ensures nodes == map[at := Rec("/", Folder, 0, 0, 0)]
    {
      nodes := map[at := Rec("/", Folder, 0, 0, 0)];
      root, mounts := at, [];
      forest := Forest(map[at := []], map[at := {}]);
    }

    /** Takes c out of the child list of p. */
    method Unlink(p: nat, c: nat, ghost i: nat)
      requires Wf(nodes, forest) && ListedAt(forest, p, i, c)
      modifies `nodes, `forest
      ensures Wf(nodes, forest) && forest == Unlisted(old(forest), p, i, c) && Detached(forest, c)
      ensures SameNodes(old(nodes), nodes)
      ensures p in old(nodes) && c in old(nodes) && (i > 0 ==> Kids(old(forest), p)[i - 1] in old(nodes))
      ensures nodes == Unlinked(old(nodes), old(forest), p, i, c)
      ensures NodeUnlinked(old(nodes), old(forest), nodes, p, i)
    {
      ghost var l := Kids(forest, p);
      ListedKnown(nodes, forest, p, i, c);
      UnlinkedIs(nodes, forest, p, i, c);
      DetachKeepsWf(nodes, forest, p, i, c);
      assert NodeOk(nodes, forest, p);
      if nodes[p].children == c {
        if i > 0 { assert ListedAt(forest, p, 0, l[0]); SamePlace(nodes, forest, c, p, i, p, 0); }
        nodes := nodes[p := nodes[p].(children := nodes[c].next)];
      } else {
        var prev := nodes[p].children;
        ghost var k := 0;
        assert KidOk(nodes, forest, p, 0, l[0]);
        while prev != 0 && nodes[prev].next != c
          invariant k < i && prev == l[k] && ListedAt(forest, p, k, prev) && Known(nodes, forest, prev)
          decreases i - k
          modifies {}
        {
          assert KidOk(nodes, forest, p, k, prev) && KidOk(nodes, forest, p, k + 1, l[k + 1]);
          prev, k := nodes[prev].next, k + 1;
        }
        assert KidOk(nodes, forest, p, k, prev);
        if k + 1 < i { assert ListedAt(forest, p, k + 1, c); SamePlace(nodes, forest, c, p, i, p, k + 1); }
        if prev != 0 {
          nodes := nodes[prev := nodes[prev].(next := nodes[c].next)];
        }
      }
      forest := Unlisted(forest, p, i, c);
    }

    /** Removes c with everything below it. */
    method RemoveNode(p: nat, c: nat, ghost i: nat)
      requires Wf(nodes, forest) && ListedAt(forest, p, i, c)
      modifies `nodes, `forest
      ensures Wf(nodes, forest) && forest == Cut(old(forest), Sub(old(forest), c)) && SameNodes(old(nodes), nodes)
      decreases Below(forest, c)
    {
      ghost var f := forest;
      DetachKeepsWf(nodes, forest, p, i, c);
      RemovedIsCut(nodes, forest, p, i, c);
      Unlink(p, c, i);
      RemoveKids(c);
      FreeKeepsWf(nodes, forest, c);
      nodes := nodes - {c};
      forest := Cut(forest, {c});
    }

    /** The loop over the children, each of which leaves the list as it is removed. */
    method RemoveKids(c: nat)
      requires Wf(nodes, forest) && Detached(forest, c) && Known(nodes, forest, c)
      modifies `nodes, `forest
      ensures Wf(nodes, forest) && forest == Cut(old(forest), Below(old(forest), c)) && SameNodes(old(nodes), nodes)
      ensures Detached(forest, c) && Kids(forest, c) == [] && Known(nodes, forest, c)
      decreases Below(forest, c), 0
    {
      ghost var f, d := forest, {};
      CutNothing(forest);
      assert NodeOk(nodes, forest, c) && BelowOk(nodes, forest, c, c);
      var child := nodes[c].children;
      while child != 0
        invariant Wf(nodes, forest) && forest == Cut(f, d) && d <= Below(f, c) && SameNodes(old(nodes), nodes)
        invariant Detached(forest, c) && Known(nodes, forest, c) && child == Nth(Kids(forest, c), 0)
        decreases |Kids(forest, c)|
      {
        CutFirstKid(nodes, forest, c);
        var next := nodes[child].next;
        CutTwice(f, d, Sub(forest, child));
        d := d + Sub(forest, child);
        RemoveNode(c, child, 0);
        assert NodeOk(nodes, forest, c);
        child := next;
      }
      if Kids(forest, c) != [] { CutFirstKid(nodes, forest, c); }
      forall x ensures x !in Below(forest, c) { NoKidsNoBelow(nodes, forest, c, x); }
      assert Below(Cut(f, d), c) == Below(f, c) - d;
      assert Below(f, c) - d == {};
      assert d == Below(f, c);
    }

    /** The root is nobody's child. */
    lemma RootDetached()
      requires Valid()
      ensures Detached(forest, root)
    {
      forall n: nat, i: nat ensures !ListedAt(forest, n, i, root) {
        assert KidOk(nodes, forest, n, i, root) && NodeOk(nodes, forest, n);
      }
    }

    // ---------- Looking up ----------

    /** The first child of a node with the name that stands at position t of the buffer b. */
    method SearchNode(n: nat, b: seq<char>, t: nat, ghost name: string) returns (c: nat)
      requires Wf(nodes, forest) && Known(nodes, forest, n) && HasText(b, t, name)
      ensures c == FirstNamed(nodes, Kids(forest, n), name)
    {
      ghost var l := Kids(forest, n);
      assert NodeOk(nodes, forest, n);
      c := nodes[n].children;
      ghost var k := 0;
      if l != [] { assert KidOk(nodes, forest, n, 0, l[0]); }
      assert l[0..] == l;
      while c != 0
        invariant k <= |l| && c == Nth(l, k) && (c == 0 ==> k == |l|)
        invariant FirstNamed(nodes, l, name) == FirstNamed(nodes, l[k..], name)
        decreases |l| - k
      {
        assert KidOk(nodes, forest, n, k, c);
        NameText(nodes[c].name);
        var diff := StrCmp(nodes[c].name + [NUL], 0, b, t, nodes[c].name, name);
        if diff == 0 {
          return;
        }
        assert l[k..][1..] == l[k + 1..];
        c, k := nodes[c].next, k + 1;
        if k < |l| { assert KidOk(nodes, forest, n, k, l[k]); }
      }
    }

    /** What is mounted on a node, if anything. */
    method Crossed(n: nat) returns (o: nat)
      ensures o == Over(mounts, n)
    {
      o := n;
      var k := 0;
      assert mounts[0..] == mounts;
      while k < |mounts|
        invariant k <= |mounts| && Over(mounts, n) == Over(mounts[k..], n) && o == n
      {
        assert mounts[k..][1..] == mounts[k + 1..];
        if mounts[k].point == n {
          o := mounts[k].mounted;
          break;
        }
        k := k + 1;
      }
    }

    method StepDown(n: nat, b: seq<char>, t: nat, ghost name: string) returns (c: nat)
      requires Valid() && Known(nodes, forest, n) && HasText(b, t, name)
      ensures c == Step(nodes, forest, mounts, n, name) && (c != 0 ==> Known(nodes, forest, c))
    {
      var o := Crossed(n);
      OverIs(forest, mounts, n);
      KidsKnown(nodes, forest, n);
      if o != n {
        ghost var i :| 0 <= i < |Kids(forest, n)| && Kids(forest, n)[i] == o;
        assert KidOk(nodes, forest, n, i, o);
      }
      c := SearchNode(o, b, t, name);
      if c != 0 { StepDescends(nodes, forest, mounts, n, name); }
    }

    /** The node a path leads to, or 0; the empty path leads nowhere. */
    method Traverse(path: string) returns (n: nat)
      requires Valid() && NUL !in path
      ensures n == if path == "" then 0 else Walk(nodes, forest, mounts, root, Components(path))
      ensures n != 0 ==> Known(nodes, forest, n)
    {
      if path == "" {
        return 0;
      }
      var buffer := new char[|path| + 1](i requires 0 <= i <= |path| => if i < |path| then path[i] else NUL);
      assert buffer[..|path|] == path;
      assert HasText(buffer[..], 0, path);
      var tok := new Tokenizer();
      ghost var s, p: nat, b := path, 0, buffer[..];
      var t: int;
      ghost var rest;
      t, rest := tok.StrTok(buffer, 0, "/", path);
      TokenIsComponent(b, buffer[..], 0, path, t, tok.last, rest);
      n := root;
      while t >= 0
        invariant if t < 0 then Components(s) == [] else TokenFound(b, buffer[..], p, s, t, tok.last, rest)
        invariant Known(nodes, forest, n)
        invariant Walk(nodes, forest, mounts, n, Components(s)) == Walk(nodes, forest, mounts, root, Components(path))
        decreases |s|
      {
        TokenShrinks(b, buffer[..], p, s, t, tok.last, rest);
        n := StepDown(n, buffer[..], t, Components(s)[0]);
        if n == 0 {
          return;
        }
        s, p, b := rest, if tok.last < 0 then 0 else tok.last, buffer[..];
        ghost var last := tok.last;
        t, rest := tok.StrTok(buffer, -1, "/", s);
        TokenIsComponent(b, buffer[..], last, s, t, tok.last, rest);
      }
    }

    // ---------- Creating and removing ----------

    /** Links c in behind the last child of p. */
    method InsertNode(p: nat, c: nat)
      requires Wf(nodes, forest) && Known(nodes, forest, p) && Known(nodes, forest, c)
      modifies `nodes, `forest
      ensures Wf(nodes, forest) <==> CanAttach(old(nodes), old(forest), p, c)
      ensures forest == Attached(old(forest), p, c)
      ensures (Kids(old(forest), p) != [] ==> Kids(old(forest), p)[|Kids(old(forest), p)| - 1] in old(nodes))
      ensures nodes == LinkedLast(old(nodes), old(forest), p, c)
      ensures NodeAttached(old(nodes), old(forest), nodes, p, c)
    {
      ghost var l := Kids(forest, p);
      AttachedRight(nodes, forest, p, c);
      LinkedLastIs(nodes, forest, p, c);
      assert NodeOk(nodes, forest, p);
      if l != [] { LastKid(nodes, forest, p); assert KidOk(nodes, forest, p, 0, l[0]); }
      ghost var s := nodes;
      var first := nodes[p].children;
      nodes := nodes[c := nodes[c].(parent := p)];
      forall i | 0 <= i < |l| ensures LinkAt(p, i) {
        assert KidOk(s, forest, p, i, l[i]);
      }
      if first == 0 {
        nodes := nodes[p := nodes[p].(children := c)];
      } else {
        var last := LastOf(p, first, c);
        nodes := nodes[last := nodes[last].(next := c)];
      }
      forest := Attached(forest, p, c);
    }

    /** The last child of p, whose first child is first. */
    method LastOf(p: nat, first: nat, ghost c: nat) returns (last: nat)
      requires c in nodes && p in forest.kids && Kids(forest, p) != [] && first == Kids(forest, p)[0]
      requires forall i :: 0 <= i < |Kids(forest, p)| ==> LinkAt(p, i)
      ensures last == Kids(forest, p)[|Kids(forest, p)| - 1]
    {
      last := first;
      ghost var k := 0;
      assert LinkAt(p, 0);
      while nodes[last].next != 0
        invariant k < |Kids(forest, p)| && last == Kids(forest, p)[k] && LinkAt(p, k)
        decreases |Kids(forest, p)| - k
      {
        last, k := nodes[last].next, k + 1;
        assert LinkAt(p, k);
      }
      assert LinkAt(p, k) && LinkAt(p, k + 1);
    }

    ghost predicate LinkAt(p: nat, i: nat)
      reads this
    {
      i < |Kids(forest, p)| ==>
        Kids(forest, p)[i] != 0 && Kids(forest, p)[i] in nodes &&
            nodes[Kids(forest, p)[i]].next == Nth(Kids(forest, p), i + 1)
    }

    /** create: a new node at address at, as last child of the folder that the
        path up to its last slash leads to. */
    method Create(path: string, kind: Kind, at: nat) returns (st: Status, ghost p: nat)
      requires Valid() && NUL !in path && kind != Special && at != 0 && at !in nodes && LastSlash(path) < 256
      modifies `nodes, `forest
      ensures Valid()
      ensures LastSlash(path) >= 0 ==>
                p == Walk(old(nodes), old(forest), mounts, root, Components(path[..LastSlash(path)]))
      ensures st == if LastSlash(path) < 0 then Error else if p == 0 then NotFound
                    else if p in old(nodes) && old(nodes)[p].kind == Folder then Success else NotPermitted
      ensures st != Success ==> nodes == old(nodes) && forest == old(forest)
      ensures st == Success ==>
                && Grown(old(nodes), old(forest), nodes, forest, p, at) && Detached(old(forest), at)
                && NodeAdded(old(nodes), old(forest), nodes, p, at, Rec(path[LastSlash(path) + 1..], kind, p, 0, 0))
    {
      var k := FindLastSlash(path);
      p := 0;
      if k < 0 {
        return Error, 0;
      }
      var parent := Traverse(if k == 0 then "/" else path[..k]);
      p := parent;
      assert Components("/") == Components("") == [];
      if parent == 0 {
        return NotFound, p;
      }
      if nodes[parent].kind != Folder {
        return NotPermitted, p;
      }
      NewNode(parent, path[k + 1..], kind, at);
      st := Success;
    }

    method NewNode(p: nat, name: string, kind: Kind, at: nat)
      requires Valid() && Known(nodes, forest, p) && NUL !in name && at != 0 && at !in nodes
      modifies `nodes, `forest
      ensures Valid() && Grown(old(nodes), old(forest), nodes, forest, p, at) && Detached(old(forest), at)
      ensures NodeAdded(old(nodes), old(forest), nodes, p, at, Rec(name, kind, p, 0, 0))
    {
      ghost var r := Rec(name, kind, p, 0, 0);
      NewNodeKeepsWf(nodes, forest, p, at, r);
      CreatedGrows(nodes, forest, p, at, r);
      ghost var m := mounts;
      nodes := nodes[at := Rec(name, kind, p, 0, 0)];
      forest := WithRoot(forest, at);
      GrownMounts(old(forest), forest, mounts, p, at);
      MountsKept(forest, mounts, p, at);
      if Kids(old(forest), p) != [] { LastKid(old(nodes), old(forest), p); }
      AddedIs(old(nodes), old(forest), p, at, r, forest);
      InsertNode(p, at);
    }

    method FindLastSlash(path: string) returns (k: int)
      ensures k == LastSlash(path)
    {
      k := -1;
      var i := 0;
      while i < |path|
        invariant i <= |path| && k == LastSlash(path[..i])
      {
        assert path[..i + 1][..i] == path[..i];
        if path[i] == SLASH {
          k := i;
        }
        i := i + 1;
      }
      assert path[..i] == path;
    }

    /** remove_p: the node that the path leads to, with everything below it. The
        mounts stay in order exactly when no mounted root is among that. */
    method RemovePath(path: string) returns (st: Status, ghost n: nat)
      requires Valid() && NUL !in path
      modifies `nodes, `forest
      ensures TreeOk()
      ensures Valid() <==> st != Success || forall k :: 0 <= k < |mounts| ==> mounts[k].mounted !in Sub(old(forest), n)
      ensures n == if path == "" then 0 else Walk(old(nodes), old(forest), mounts, root, Components(path))
      ensures st == if n == 0 || n == root then NotFound
                    else if KindOf(old(nodes), ParentOf(old(nodes), n)) == Folder then Success else NotPermitted
      ensures st != Success ==> nodes == old(nodes) && forest == old(forest)
      ensures st == Success ==> forest == Cut(old(forest), Sub(old(forest), n)) && SameNodes(old(nodes), nodes)
    {
      var c := Traverse(path);
      n := c;
      if c == 0 || nodes[c].parent == 0 {
        if c != 0 && c != root { ghost var _ := Above(c, Components(path)); }
        return NotFound, n;
      }
      ghost var i := Above(c, Components(path));
      var p := nodes[c].parent;
      if nodes[p].kind != Folder {
        return NotPermitted, n;
      }
      MountsAfterCut(nodes, forest, mounts, c);
      RemoveNode(p, c, i);
      assert NodeOk(nodes, forest, root);
      st := Success;
    }

    /** A node other than the root that a walk leads to is its parent's child. */
    lemma Above(c: nat, names: seq<string>) returns (i: nat)
      requires Valid() && c != 0 && c != root && c == Walk(nodes, forest, mounts, root, names)
      ensures Known(nodes, forest, c) && ListedAt(forest, nodes[c].parent, i, c) &&
              Known(nodes, forest, nodes[c].parent)
      ensures nodes[c].parent != 0 && root !in Sub(forest, c)
    {
      WalkDescends(nodes, forest, mounts, root, names);
      i := PlaceOf(nodes, forest, root, c);
      BelowNests(nodes, forest, root, c);
      assert NodeOk(nodes, forest, nodes[c].parent);
    }

    // ---------- Mounting ----------

    /** vfs_mount: the root r of another tree becomes the last child of the
        folder that the path leads to, and covers it. The child lists stay in
        order exactly when r has no next sibling left from an earlier mount. */
    method MountAt(path: string, r: nat) returns (st: Status, ghost p: nat)
      requires Valid() && NUL !in path
      requires r != 0 ==> Known(nodes, forest, r)
      modifies `nodes, `forest, `mounts
      ensures Valid() <==>
              st != Success || (NextOf(old(nodes), r) == 0 && Detached(old(forest), r) && r != root)
      ensures p == if path == "" then 0 else Walk(old(nodes), old(forest), old(mounts), root, Components(path))
      ensures st == if r == 0 then Error else if p == 0 then NotFound
                    else if KindOf(old(nodes), p) == Folder then Success else NotPermitted
      ensures st != Success ==> nodes == old(nodes) && forest == old(forest) && mounts == old(mounts)
      ensures st == Success ==>
                && Known(old(nodes), old(forest), p)
                && (Kids(old(forest), p) != [] ==> Kids(old(forest), p)[|Kids(old(forest), p)| - 1] in old(nodes))
                && forest == Attached(old(forest), p, r) && nodes == LinkedLast(old(nodes), old(forest), p, r)
                && NodeAttached(old(nodes), old(forest), nodes, p, r) && mounts == [Mount(p, r)] + old(mounts)
    {
      var point := Traverse(path);
      p := point;
      if r == 0 {
        return Error, p;
      }
      if point == 0 {
        return NotFound, p;
      }
      if nodes[point].kind != Folder {
        return NotPermitted, p;
      }
      CanMount(p, r, Components(path));
      if IsLoose(nodes, forest, p, r) { MountsKept(forest, mounts, p, r); }
      mounts := [Mount(point, r)] + mounts;
      InsertNode(point, r);
      st := Success;
    }

    lemma CanMount(p: nat, r: nat, names: seq<string>)
      requires Valid() && Known(nodes, forest, r)
      requires p != 0 && p == Walk(nodes, forest, mounts, root, names)
      ensures IsLoose(nodes, forest, p, r) <==> Detached(forest, r) && r != root
    {
      RootDetached();
      WalkDescends(nodes, forest, mounts, root, names);
      if Detached(forest, r) && r != root && p in Sub(forest, r) { RootsApart(nodes, forest, root, r, p); }
    }

    /** vfs_unmount: takes the latest mount on the node that the path leads to
        off. i is the position of its root in the child list. */
    method Unmount(path: string) returns (st: Status, ghost p: nat, ghost k: nat, ghost i: nat)
      requires Valid() && NUL !in path
      modifies `nodes, `forest, `mounts
      ensures Valid()
      ensures p == if path == "" then 0 else Walk(old(nodes), old(forest), old(mounts), root, Components(path))
      ensures k == MountIndex(old(mounts), p)
      ensures st == if p == 0 || k == |old(mounts)| then NotFound else Success
      ensures st != Success ==> nodes == old(nodes) && forest == old(forest) && mounts == old(mounts)
      ensures st == Success ==>
                var r := old(mounts)[k].mounted;
                && mounts == old(mounts)[..k] + old(mounts)[k + 1..]
                && ListedAt(old(forest), p, i, r) && forest == Unlisted(old(forest), p, i, r)
                && p in old(nodes) && r in old(nodes) && (i > 0 ==> Kids(old(forest), p)[i - 1] in old(nodes))
                && nodes == Unlinked(old(nodes), old(forest), p, i, r)
                && NodeUnlinked(old(nodes), old(forest), nodes, p, i)
    {
      var point := Traverse(path);
      p, k, i := point, MountIndex(mounts, point), 0;
      if point == 0 {
        return NotFound, p, k, i;
      }
      var j := FindMount(point);
      if j == |mounts| {
        return NotFound, p, k, i;
      }
      assert MountOk(forest, mounts, j);
      i :| 0 <= i < |Kids(forest, p)| && Kids(forest, p)[i] == mounts[j].mounted;
      UnmountKeeps(nodes, forest, mounts, j, i);
      var r := mounts[j].mounted;
      RootAfterUnlink(p, i, r);
      mounts := mounts[..j] + mounts[j + 1..];
      Unlink(point, r, i);
      st := Success;
    }

    lemma RootAfterUnlink(p: nat, i: nat, c: nat)
      requires Valid() && ListedAt(forest, p, i, c)
      ensures Known(nodes, forest, p) && Known(nodes, forest, c) && (i > 0 ==> Kids(forest, p)[i - 1] in nodes)
      ensures var s', f' := Unlinked(nodes, forest, p, i, c), Unlisted(forest, p, i, c);
        Known(s', f', root) && s'[root].parent == 0
    {
      ListedKnown(nodes, forest, p, i, c);
    }

    method FindMount(p: nat) returns (k: nat)
      ensures k == MountIndex(mounts, p)
    {
      k := 0;
      assert mounts[0..] == mounts;
      while k < |mounts| && mounts[k].point != p
        invariant k <= |mounts| && MountIndex(mounts, p) == k + MountIndex(mounts[k..], p)
      {
        assert mounts[k..][1..] == mounts[k + 1..];
        k := k + 1;
      }
    }
  }

  function ParentOf(s: Nodes, n: nat): nat { if n in s then s[n].parent else 0 }

  function NextOf(s: Nodes, n: nat): nat { if n in s then s[n].next else 0 }

  function KindOf(s: Nodes, n: nat): Kind { if n in s then s[n].kind else Special }

  /** The position of the last slash, or -1. */
  function LastSlash(s: string): (k: int)
    ensures -1 <= k < |s| && (k >= 0 ==> s[k] == SLASH && SLASH !in s[k + 1..]) && (k < 0 ==> SLASH !in s)
  {
    if s == "" then -1
    else if s[|s| - 1] == SLASH then |s| - 1
    else
      var k := LastSlash(s[..|s| - 1]);
      assert s == s[..|s| - 1] + [s[|s| - 1]];
      assert k >= 0 ==> s[k + 1..] == s[..|s| - 1][k + 1..] + [s[|s| - 1]];
      k
  }

  lemma NameText(name: string)
    requires NUL !in name
    ensures HasText(name + [NUL], 0, name)
  {
  }

  lemma TokenShrinks(b: seq<char>, b': seq<char>, p: nat, s: string, t: int, last: int, rest: string)
    requires TokenFound(b, b', p, s, t, last, rest)
    ensures |rest| < |s| && (last >= 0 ==> HasText(b', last, rest))
  {
    ComponentsAreNames(s);
    assert Name(Components(s)[0]);
  }
}
