/** The list of blocks of the kernel heap: totals, owned pages, and the list links. */
module HeapBlocks {
  import opened Pmm
  import opened HeapLayout

  // ---------- Totals ----------

  ghost function SumBy(f: Block -> nat, blocks: seq<Block>): nat {
    if blocks == [] then 0 else f(blocks[0]) + SumBy(f, blocks[1..])
  }

  lemma {:induction false} SumSplit(f: Block -> nat, a: seq<Block>, c: seq<Block>)
    ensures SumBy(f, a + c) == SumBy(f, a) + SumBy(f, c)
  {
    if a == [] {
      assert a + c == c;
    } else {
      SumSplit(f, a[1..], c);
      assert (a + c)[1..] == a[1..] + c;
    }
  }

  lemma SumAt(f: Block -> nat, blocks: seq<Block>, i: nat)
    requires i < |blocks|
    ensures SumBy(f, blocks) == SumBy(f, blocks[..i]) + f(blocks[i]) + SumBy(f, blocks[i + 1..])
  {
    assert blocks == blocks[..i] + ([blocks[i]] + blocks[i + 1..]);
    SumSplit(f, blocks[..i], [blocks[i]] + blocks[i + 1..]);
    SumSplit(f, [blocks[i]], blocks[i + 1..]);
  }

  lemma SumUpdated(f: Block -> nat, blocks: seq<Block>, i: nat, b: Block)
    requires i < |blocks|
    ensures SumBy(f, blocks[i := b]) == SumBy(f, blocks) - f(blocks[i]) + f(b)
  {
    SumAt(f, blocks, i);
    SumAt(f, blocks[i := b], i);
    assert blocks[i := b][..i] == blocks[..i] && blocks[i := b][i + 1..] == blocks[i + 1..];
  }

  ghost function Without(blocks: seq<Block>, i: nat): seq<Block>
    requires i < |blocks|
  {
    blocks[..i] + blocks[i + 1..]
  }

  lemma SumWithout(f: Block -> nat, blocks: seq<Block>, i: nat)
    requires i < |blocks|
    ensures SumBy(f, Without(blocks, i)) == SumBy(f, blocks) - f(blocks[i])
  {
    SumAt(f, blocks, i);
    SumSplit(f, blocks[..i], blocks[i + 1..]);
  }

  // ---------- Pages ----------

  ghost function PagesOf(b: Block): set<nat> { PageRange(b.page, b.pages) }

  /** The pages of all listed blocks. */
  ghost function HeapPages(blocks: seq<Block>): set<nat> {
    if blocks == [] then {} else PagesOf(blocks[0]) + HeapPages(blocks[1..])
  }

  lemma {:induction false} PagesSplit(a: seq<Block>, c: seq<Block>)
    ensures HeapPages(a + c) == HeapPages(a) + HeapPages(c)
  {
    if a == [] {
      assert a + c == c;
    } else {
      PagesSplit(a[1..], c);
      assert (a + c)[1..] == a[1..] + c;
    }
  }

  lemma PagesAt(blocks: seq<Block>, i: nat)
    requires i < |blocks|
    ensures HeapPages(blocks) == HeapPages(Without(blocks, i)) + PagesOf(blocks[i])
  {
    assert blocks == blocks[..i] + blocks[i..];
    PagesSplit(blocks[..i], blocks[i..]);
    PagesSplit(blocks[..i], blocks[i + 1..]);
    assert HeapPages(blocks[i..]) == PagesOf(blocks[i]) + HeapPages(blocks[i + 1..]) by {
      assert blocks[i..][1..] == blocks[i + 1..];
    }
  }

  lemma {:induction false} PagesApart(blocks: seq<Block>, pages: set<nat>)
    requires forall i :: 0 <= i < |blocks| ==> PagesOf(blocks[i]) !! pages
    ensures HeapPages(blocks) !! pages
  {
    if blocks != [] {
      assert PagesOf(blocks[0]) !! pages;
      forall i | 0 <= i < |blocks[1..]| ensures PagesOf(blocks[1..][i]) !! pages {
        assert blocks[1..][i] == blocks[i + 1];
        assert PagesOf(blocks[i + 1]) !! pages;
      }
      PagesApart(blocks[1..], pages);
    }
  }

  // ---------- A well formed list of blocks ----------

  ghost predicate CellSizes(b: Block) {
    forall j :: 0 <= j < |b.cells| ==> b.cells[j].req + ALIGNMENT + ALIGN_INFO <= b.cells[j].size
  }

  /** The block is a mapped page range in the address space, well packed. */
  ghost predicate BlockWf(b: Block, base: nat) {
    && b.at == base + b.page * PAGE_SIZE && b.at > 0 && b.pages > 0 && BlockEnd(b) <= LIMIT
    && Packed(b) && CellSizes(b)
  }

  ghost predicate Disjoint(b: Block, c: Block) {
    b.page + b.pages <= c.page || c.page + c.pages <= b.page
  }

  ghost predicate Layout(blocks: seq<Block>, base: nat) {
    && (forall i :: 0 <= i < |blocks| ==> BlockWf(blocks[i], base))
    && forall i, j :: 0 <= i < |blocks| && 0 <= j < |blocks| && i != j ==> Disjoint(blocks[i], blocks[j])
  }

  lemma DisjointExtents(b: Block, c: Block, base: nat)
    requires BlockWf(b, base) && BlockWf(c, base) && Disjoint(b, c)
    ensures BlockEnd(b) <= c.at || BlockEnd(c) <= b.at
    ensures b.at != c.at && PagesOf(b) !! PagesOf(c)
  {
  }

  lemma LayoutUpdated(blocks: seq<Block>, base: nat, i: nat, b: Block)
    requires Layout(blocks, base) && i < |blocks| && BlockWf(b, base) && b.page == blocks[i].page &&
             b.pages == blocks[i].pages
    ensures Layout(blocks[i := b], base) && HeapPages(blocks[i := b]) == HeapPages(blocks)
  {
    PagesAt(blocks, i);
    PagesAt(blocks[i := b], i);
    assert Without(blocks[i := b], i) == Without(blocks, i);
  }

  lemma LayoutAppended(blocks: seq<Block>, base: nat, b: Block)
    requires Layout(blocks, base) && BlockWf(b, base) && PagesOf(b) !! HeapPages(blocks)
    ensures Layout(blocks + [b], base) && HeapPages(blocks + [b]) == HeapPages(blocks) + PagesOf(b)
  {
    PagesSplit(blocks, [b]);
    assert HeapPages([b]) == PagesOf(b);
    forall i | 0 <= i < |blocks| ensures Disjoint(blocks[i], b) && Disjoint(b, blocks[i]) {
      PagesAt(blocks, i);
      RangesApart(blocks[i].page, blocks[i].pages, b.page, b.pages);
    }
  }

  lemma RangesApart(a: nat, n: nat, c: nat, k: nat)
    requires n > 0 && k > 0 && PageRange(a, n) !! PageRange(c, k)
    ensures a + n <= c || c + k <= a
  {
    assert a in PageRange(a, n) && c in PageRange(c, k);
  }

  lemma LayoutWithout(blocks: seq<Block>, base: nat, i: nat)
    requires Layout(blocks, base) && i < |blocks|
    ensures Layout(Without(blocks, i), base)
  {
    var rest := Without(blocks, i);
    forall k, l | 0 <= k < |rest| && 0 <= l < |rest| && k != l ensures Disjoint(rest[k], rest[l]) {
      assert Disjoint(blocks[if k < i then k else k + 1], blocks[if l < i then l else l + 1]);
    }
  }

  lemma PagesWithout(blocks: seq<Block>, base: nat, i: nat)
    requires Layout(blocks, base) && i < |blocks|
    ensures HeapPages(Without(blocks, i)) == HeapPages(blocks) - PagesOf(blocks[i])
  {
    var rest := Without(blocks, i);
    PagesAt(blocks, i);
    forall k | 0 <= k < |rest| ensures PagesOf(rest[k]) !! PagesOf(blocks[i]) {
      var o := if k < i then k else k + 1;
      assert rest[k] == blocks[o] && Disjoint(blocks[o], blocks[i]);
      DisjointExtents(blocks[o], blocks[i], base);
    }
    PagesApart(rest, PagesOf(blocks[i]));
  }

  /** The used pages are those of the listed blocks and those of other owners. */
  ghost predicate Owns(used: set<nat>, reserved: set<nat>, blocks: seq<Block>) {
    used == reserved + HeapPages(blocks) && reserved !! HeapPages(blocks)
  }

  lemma OwnsMore(used: set<nat>, reserved: set<nat>, blocks: seq<Block>, base: nat, b: Block)
    requires Owns(used, reserved, blocks) && Layout(blocks, base) && BlockWf(b, base) && PagesOf(b) !! used
    ensures Owns(used + PagesOf(b), reserved, blocks + [b]) && PagesOf(b) !! HeapPages(blocks)
  {
    LayoutAppended(blocks, base, b);
  }

  lemma OwnsLess(used: set<nat>, reserved: set<nat>, blocks: seq<Block>, base: nat, i: nat)
    requires Owns(used, reserved, blocks) && Layout(blocks, base) && i < |blocks|
    ensures Owns(used - PagesOf(blocks[i]), reserved, Without(blocks, i))
  {
    PagesWithout(blocks, base, i);
    PagesAt(blocks, i);
  }

  lemma OwnsUpdated(used: set<nat>, reserved: set<nat>, blocks: seq<Block>, i: nat, b: Block)
    requires Owns(used, reserved, blocks) && i < |blocks| && b.page == blocks[i].page && b.pages == blocks[i].pages
    ensures Owns(used, reserved, blocks[i := b])
  {
    PagesAt(blocks, i);
    PagesAt(blocks[i := b], i);
    assert Without(blocks[i := b], i) == Without(blocks, i);
  }

  // ---------- The list links ----------

  ghost predicate AllCellsLinked(minors: map<nat, Minor>, blocks: seq<Block>) {
    forall i :: 0 <= i < |blocks| ==> CellsLinked(minors, blocks[i])
  }

  /** A change inside the extent of block i leaves the cells of the others linked. */
  lemma OthersLinked(m: map<nat, Minor>, m': map<nat, Minor>, blocks: seq<Block>, base: nat, i: nat, b: Block)
    requires Layout(blocks, base) && i < |blocks| && AllCellsLinked(m, blocks)
    requires SameOutside(m, m', blocks[i].at, BlockEnd(blocks[i])) && CellsLinked(m', b)
    ensures AllCellsLinked(m', blocks[i := b])
  {
    forall k | 0 <= k < |blocks| && k != i ensures CellsLinked(m', blocks[k]) {
      assert CellsLinked(m, blocks[k]) && BlockWf(blocks[k], base) && BlockWf(blocks[i], base) &&
          Disjoint(blocks[k], blocks[i]);
      DisjointExtents(blocks[k], blocks[i], base);
      CellsFrame(m, m', blocks[k], blocks[i].at, BlockEnd(blocks[i]));
    }
  }

  lemma BlocksApart(blocks: seq<Block>, base: nat, i: nat, j: nat)
    requires Layout(blocks, base) && i < |blocks| && j < |blocks| && i != j
    ensures blocks[i].at != blocks[j].at
  {
    assert BlockWf(blocks[i], base) && BlockWf(blocks[j], base) && Disjoint(blocks[i], blocks[j]);
    DisjointExtents(blocks[i], blocks[j], base);
  }

  /** New usage and first cell in one header. */
  lemma BlockRelinked(m: map<nat, Major>, m': map<nat, Major>, blocks: seq<Block>, base: nat, i: nat, b: Block)
    requires Layout(blocks, base) && i < |blocks| && BlocksLinked(m, blocks)
    requires b.at == blocks[i].at && b.pages == blocks[i].pages
    requires blocks[i].at in m && m' == m[b.at := m[b.at].(usage := Usage(b), first := FirstAt(b.cells))]
    ensures BlocksLinked(m', blocks[i := b])
  {
    var bs := blocks[i := b];
    forall k | 0 <= k < |bs| ensures BlockOk(m', bs, k) {
      assert BlockOk(m, blocks, k);
      if k != i { BlocksApart(blocks, base, i, k); }
    }
  }

  /** A block linked in behind the last one. */
  lemma BlockAppended(m: map<nat, Major>, m': map<nat, Major>, blocks: seq<Block>, base: nat, b: Block)
    requires Layout(blocks + [b], base) && BlocksLinked(m, blocks) && |blocks| > 0
    requires var last := blocks[|blocks| - 1].at;
      && last in m && last in m' && m'[last] == m[last].(next := b.at)
      && b.at in m' && m'[b.at] == Major(last, 0, b.pages, BlockSize(b), Usage(b), FirstAt(b.cells))
      && forall a :: a in m && a != last && a != b.at ==> a in m' && m'[a] == m[a]
    ensures BlocksLinked(m', blocks + [b])
  {
    var bs, n := blocks + [b], |blocks|;
    forall k | 0 <= k < |bs| ensures BlockOk(m', bs, k) {
      if k < n {
        assert BlockOk(m, blocks, k);
        BlocksApart(bs, base, k, n);
        if k != n - 1 { BlocksApart(bs, base, k, n - 1); }
      }
    }
  }

  ghost function NeighboursOf(blocks: seq<Block>, i: nat): set<nat>
    requires i < |blocks|
  {
    (if i > 0 then {blocks[i - 1].at} else {}) + (if i + 1 < |blocks| then {blocks[i + 1].at} else {})
  }

  /** Memory after block i was linked out of the list: its neighbours skip it. */
  ghost predicate SkippedOver(m: map<nat, Major>, m': map<nat, Major>, blocks: seq<Block>, i: nat)
    requires i < |blocks|
  {
    && (i > 0 ==>
          var p := blocks[i - 1].at;
          p in m && p in m' && m'[p] == m[p].(next := if i + 1 < |blocks| then blocks[i + 1].at else 0))
    && (i + 1 < |blocks| ==>
          var n := blocks[i + 1].at;
          n in m && n in m' && m'[n] == m[n].(prev := if i > 0 then blocks[i - 1].at else 0))
    && forall a :: a in m && a != blocks[i].at && a !in NeighboursOf(blocks, i) ==> a in m' && m'[a] == m[a]
  }

  /** Only the headers of the neighbours of block i differ without it. */
  lemma HeaderWithout(blocks: seq<Block>, i: nat, o: nat)
    requires i < |blocks| && o < |blocks| && o != i
    ensures var k := if o < i then o else o - 1;
      && Without(blocks, i)[k] == blocks[o]
      && MajorOf(Without(blocks, i), k) ==
         MajorOf(blocks, o).(prev := if o == i + 1 then MajorOf(blocks, i).prev else MajorOf(blocks, o).prev,
                             next := if o + 1 == i then MajorOf(blocks, i).next else MajorOf(blocks, o).next)
  {
    var rest, k := Without(blocks, i), if o < i then o else o - 1;
    assert k > 0 ==> rest[k - 1] == blocks[if k - 1 < i then k - 1 else k];
    assert k + 1 < |rest| ==> rest[k + 1] == blocks[if k + 1 < i then k + 1 else k + 2];
  }

  lemma RemovedAt(m: map<nat, Major>, m': map<nat, Major>, blocks: seq<Block>, base: nat, i: nat, o: nat)
    requires Layout(blocks, base) && BlocksLinked(m, blocks) && i < |blocks| && SkippedOver(m, m', blocks, i)
    requires o < |blocks| && o != i
    ensures BlockOk(m', Without(blocks, i), if o < i then o else o - 1)
  {
    assert BlockOk(m, blocks, o);
    HeaderWithout(blocks, i, o);
    BlocksApart(blocks, base, o, i);
    if i > 0 && o != i - 1 { BlocksApart(blocks, base, o, i - 1); }
    if i + 1 < |blocks| && o != i + 1 { BlocksApart(blocks, base, o, i + 1); }
  }

  /** Block i linked out of the list. */
  lemma BlockRemoved(m: map<nat, Major>, m': map<nat, Major>, blocks: seq<Block>, base: nat, i: nat)
    requires Layout(blocks, base) && BlocksLinked(m, blocks) && i < |blocks| && SkippedOver(m, m', blocks, i)
    ensures BlocksLinked(m', Without(blocks, i))
  {
    var rest := Without(blocks, i);
    forall k | 0 <= k < |rest| ensures BlockOk(m', rest, k) {
      RemovedAt(m, m', blocks, base, i, if k < i then k else k + 1);
    }
  }

  ghost predicate Listed(blocks: seq<Block>, a: nat) {
    exists i :: 0 <= i < |blocks| && blocks[i].at == a
  }
}
