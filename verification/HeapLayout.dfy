/** The kernel heap as values: blocks of pages, the cells handed out from them,
    the gaps in between, and the header records that describe all this in memory. */
module HeapLayout {
  import opened Pmm

  /** Both header structures take 24 bytes on the 32-bit target. */
  const HEADER: nat := 24
  const ALIGNMENT: nat := 16
  const ALIGN_INFO: nat := 16
  const MAGIC: nat := 0xc001c0de
  const DEAD: nat := 0xdeaddead
  const LIMIT: nat := 0x1_0000_0000

  /** A minor: a header at `at`, followed by `size` bytes, of which the client asked for `req`. */
  datatype Cell = Cell(at: nat, size: nat, req: nat)

  /** A major: `pages` pages from physical page `page`, mapped at `at`. */
  datatype Block = Block(at: nat, page: nat, pages: nat, cells: seq<Cell>)

  function CellEnd(c: Cell): nat { c.at + HEADER + c.size }

  function BlockSize(b: Block): nat { b.pages * PAGE_SIZE }

  function BlockEnd(b: Block): nat { b.at + BlockSize(b) }

  /** Bytes taken by cells with their headers. */
  ghost function Taken(cells: seq<Cell>): nat {
    if cells == [] then 0 else cells[0].size + HEADER + Taken(cells[1..])
  }

  ghost function Usage(b: Block): nat { HEADER + Taken(b.cells) }

  /** Gap g lies in front of cell g; the last gap ends the block. */
  ghost function GapLo(b: Block, g: nat): nat
    requires g <= |b.cells|
  {
    if g == 0 then b.at + HEADER else CellEnd(b.cells[g - 1])
  }

  ghost function GapHi(b: Block, g: nat): nat
    requires g <= |b.cells|
  {
    if g == |b.cells| then BlockEnd(b) else b.cells[g].at
  }

  /** The cells ascend, do not overlap, and lie between the header and the end of the block. */
  ghost predicate Packed(b: Block) {
    forall g :: 0 <= g <= |b.cells| ==> GapLo(b, g) <= GapHi(b, g)
  }

  ghost predicate Fits(b: Block, g: nat, need: nat)
    requires g <= |b.cells|
  {
    GapHi(b, g) - GapLo(b, g) >= need
  }

  ghost predicate HasFit(b: Block, need: nat) {
    exists g :: 0 <= g <= |b.cells| && Fits(b, g, need)
  }

  ghost predicate NoFitBelow(b: Block, n: nat, need: nat)
    requires n <= |b.cells| + 1
  {
    forall k :: 0 <= k < n ==> !Fits(b, k, need)
  }

  lemma NoFitStep(b: Block, n: nat, need: nat)
    requires n <= |b.cells| && NoFitBelow(b, n, need) && !Fits(b, n, need)
    ensures NoFitBelow(b, n + 1, need)
  {
  }

  /** g is the lowest gap of b with room for need bytes. */
  ghost predicate FirstFit(b: Block, g: nat, need: nat) {
    g <= |b.cells| && Fits(b, g, need) && NoFitBelow(b, g, need)
  }

  // ---------- The gaps add up to the free space ----------

  ghost function GapSum(b: Block, g: nat): int
    requires g <= |b.cells| + 1
  {
    if g == 0 then 0 else GapSum(b, g - 1) + GapHi(b, g - 1) - GapLo(b, g - 1)
  }

  lemma {:induction false} TakenSplit(a: seq<Cell>, c: seq<Cell>)
    ensures Taken(a + c) == Taken(a) + Taken(c)
  {
    if a == [] {
      assert a + c == c;
    } else {
      TakenSplit(a[1..], c);
      assert (a + c)[1..] == a[1..] + c;
    }
  }

  lemma {:induction false} GapLoIs(b: Block, g: nat)
    requires g <= |b.cells|
    ensures GapLo(b, g) == b.at + HEADER + GapSum(b, g) + Taken(b.cells[..g])
  {
    if g > 0 {
      GapLoIs(b, g - 1);
      TakenSplit(b.cells[..g - 1], [b.cells[g - 1]]);
      assert b.cells[..g] == b.cells[..g - 1] + [b.cells[g - 1]];
    }
  }

  /** The gaps of a block sum up to its size minus its usage. */
  lemma GapsAreFree(b: Block)
    ensures GapSum(b, |b.cells| + 1) == BlockSize(b) - Usage(b)
  {
    GapLoIs(b, |b.cells|);
    assert b.cells[..|b.cells|] == b.cells;
  }

  lemma {:induction false} GapBelowSum(b: Block, g: nat, n: nat)
    requires Packed(b) && g < n <= |b.cells| + 1
    ensures GapHi(b, g) - GapLo(b, g) <= GapSum(b, n) && 0 <= GapSum(b, g)
  {
    if g > 0 { GapBelowSum(b, 0, g); }
    if g + 1 < n {
      GapBelowSum(b, g, n - 1);
      assert GapLo(b, n - 1) <= GapHi(b, n - 1);
    }
  }

  lemma UsageBounded(b: Block)
    requires Packed(b)
    ensures Usage(b) <= BlockSize(b)
  {
    GapsAreFree(b);
    GapBelowSum(b, 0, |b.cells| + 1);
    assert GapLo(b, 0) <= GapHi(b, 0);
  }

  /** A block with too little free space has no gap that fits: the early skip of
      the search loses nothing. */
  lemma SkipIsSound(b: Block, need: nat)
    requires Packed(b) && BlockSize(b) - Usage(b) < need
    ensures !HasFit(b, need)
  {
    GapsAreFree(b);
    forall g | 0 <= g <= |b.cells| ensures !Fits(b, g, need) {
      GapBelowSum(b, g, |b.cells| + 1);
    }
  }

  // ---------- Order of the cells ----------

  lemma {:induction false} CellsAscend(b: Block, i: nat, j: nat)
    requires Packed(b) && i < j < |b.cells|
    ensures CellEnd(b.cells[i]) <= b.cells[j].at
    decreases j - i
  {
    assert GapLo(b, j) <= GapHi(b, j);
    if i + 1 < j {
      CellsAscend(b, i, j - 1);
    }
  }

  lemma {:induction false} CellInside(b: Block, j: nat)
    requires Packed(b) && j < |b.cells|
    ensures b.at + HEADER <= b.cells[j].at && CellEnd(b.cells[j]) <= BlockEnd(b)
  {
    assert GapLo(b, 0) <= GapHi(b, 0);
    assert GapLo(b, |b.cells|) <= GapHi(b, |b.cells|);
    if j > 0 { CellsAscend(b, 0, j); }
    if j < |b.cells| - 1 { CellsAscend(b, j, |b.cells| - 1); }
  }

  // ---------- Adding and removing one cell ----------

  ghost function WithCell(b: Block, g: nat, c: Cell): Block
    requires g <= |b.cells|
  {
    b.(cells := b.cells[..g] + [c] + b.cells[g..])
  }

  ghost function WithoutCell(b: Block, j: nat): Block
    requires j < |b.cells|
  {
    b.(cells := b.cells[..j] + b.cells[j + 1..])
  }

  lemma AddedIsPacked(b: Block, g: nat, c: Cell)
    requires Packed(b) && g <= |b.cells| && c.at == GapLo(b, g) && Fits(b, g, HEADER + c.size)
    ensures Packed(WithCell(b, g, c)) && Usage(WithCell(b, g, c)) == Usage(b) + c.size + HEADER
  {
    var b' := WithCell(b, g, c);
    forall k | 0 <= k <= |b'.cells| ensures GapLo(b', k) <= GapHi(b', k) {
      if k <= g {
        assert GapLo(b, k) <= GapHi(b, k);
      } else {
        assert GapLo(b, k - 1) <= GapHi(b, k - 1);
      }
    }
    TakenSplit(b.cells[..g], [c]);
    TakenSplit(b.cells[..g] + [c], b.cells[g..]);
    TakenSplit(b.cells[..g], b.cells[g..]);
    assert b.cells == b.cells[..g] + b.cells[g..];
  }

  lemma RemovedIsPacked(b: Block, j: nat)
    requires Packed(b) && j < |b.cells|
    ensures Packed(WithoutCell(b, j)) && Usage(WithoutCell(b, j)) == Usage(b) - (b.cells[j].size + HEADER)
  {
    var b' := WithoutCell(b, j);
    forall k | 0 <= k <= |b'.cells| ensures GapLo(b', k) <= GapHi(b', k) {
      if k < j {
        assert GapLo(b, k) <= GapHi(b, k);
      } else {
        assert GapLo(b, k + 1) <= GapHi(b, k + 1);
        assert GapLo(b, k) <= GapHi(b, k);
      }
    }
    var lo, c, hi := b.cells[..j], b.cells[j], b.cells[j + 1..];
    assert b.cells == lo + ([c] + hi);
    TakenSplit(lo, [c] + hi);
    TakenSplit([c], hi);
    TakenSplit(lo, hi);
  }

  // ---------- Headers in memory ----------

  datatype Major = Major(prev: nat, next: nat, pages: nat, size: nat, usage: nat, first: nat)

  datatype Minor = Minor(prev: nat, next: nat, block: nat, magic: nat, size: nat, req: nat)

  function FirstAt(cells: seq<Cell>): nat { if cells == [] then 0 else cells[0].at }

  /** The header the cell j of block b must have. */
  ghost function MinorOf(b: Block, j: nat): Minor
    requires j < |b.cells|
  {
    Minor(if j == 0 then 0 else b.cells[j - 1].at,
          if j + 1 == |b.cells| then 0 else b.cells[j + 1].at,
          b.at, MAGIC, b.cells[j].size, b.cells[j].req)
  }

  ghost function MajorOf(blocks: seq<Block>, i: nat): Major
    requires i < |blocks|
  {
    Major(if i == 0 then 0 else blocks[i - 1].at,
          if i + 1 == |blocks| then 0 else blocks[i + 1].at,
          blocks[i].pages, BlockSize(blocks[i]), Usage(blocks[i]), FirstAt(blocks[i].cells))
  }

  ghost predicate CellOk(minors: map<nat, Minor>, b: Block, j: nat)
    requires j < |b.cells|
  {
    b.cells[j].at in minors && minors[b.cells[j].at] == MinorOf(b, j)
  }

  ghost predicate CellsLinked(minors: map<nat, Minor>, b: Block) {
    forall j :: 0 <= j < |b.cells| ==> CellOk(minors, b, j)
  }

  ghost predicate BlockOk(majors: map<nat, Major>, blocks: seq<Block>, i: nat)
    requires i < |blocks|
  {
    blocks[i].at in majors && majors[blocks[i].at] == MajorOf(blocks, i)
  }

  ghost predicate BlocksLinked(majors: map<nat, Major>, blocks: seq<Block>) {
    forall i :: 0 <= i < |blocks| ==> BlockOk(majors, blocks, i)
  }

  /** Nothing at an address outside lo..hi differs between the two. */
  ghost predicate SameOutside<T>(m: map<nat, T>, m': map<nat, T>, lo: nat, hi: nat) {
    forall a :: a in m && !(lo <= a < hi) ==> a in m' && m'[a] == m[a]
  }

  lemma CellsFrame(m: map<nat, Minor>, m': map<nat, Minor>, b: Block, lo: nat, hi: nat)
    requires CellsLinked(m, b) && Packed(b) && SameOutside(m, m', lo, hi)
    requires hi <= b.at || BlockEnd(b) <= lo
    ensures CellsLinked(m', b)
  {
    forall j | 0 <= j < |b.cells| ensures CellOk(m', b, j) {
      assert CellOk(m, b, j);
      CellInside(b, j);
    }
  }

  ghost function NextAt(b: Block, g: nat): nat
    requires g <= |b.cells|
  {
    if g == |b.cells| then 0 else b.cells[g].at
  }

  ghost function PrevAt(b: Block, g: nat): nat
    requires g <= |b.cells|
  {
    if g == 0 then 0 else b.cells[g - 1].at
  }

  /** The cells just below index lo and at index hi. */
  ghost function Neighbours(b: Block, lo: nat, hi: nat): set<nat>
    requires lo <= hi <= |b.cells|
  {
    (if lo > 0 then {b.cells[lo - 1].at} else {}) + (if hi < |b.cells| then {b.cells[hi].at} else {})
  }

  lemma NeighboursInside(b: Block, lo: nat, hi: nat)
    requires Packed(b) && lo <= hi <= |b.cells|
    ensures forall a :: a in Neighbours(b, lo, hi) ==> b.at <= a < BlockEnd(b)
  {
    if lo > 0 { CellInside(b, lo - 1); }
    if hi < |b.cells| { CellInside(b, hi); }
  }

  /** Memory after a header for c was linked in at gap g: the new header, and
      the two neighbours' links to it. */
  ghost predicate LinkedIn(m: map<nat, Minor>, m': map<nat, Minor>, b: Block, g: nat, c: Cell)
    requires g <= |b.cells|
  {
    && c.at in m' && m'[c.at] == Minor(PrevAt(b, g), NextAt(b, g), b.at, MAGIC, c.size, c.req)
    && (g > 0 ==> var p := b.cells[g - 1].at; p in m && p in m' && m'[p] == m[p].(next := c.at))
    && (g < |b.cells| ==> var n := b.cells[g].at; n in m && n in m' && m'[n] == m[n].(prev := c.at))
    && forall a :: a in m && a != c.at && a !in Neighbours(b, g, g) ==> a in m' && m'[a] == m[a]
  }

  /** What an insertion at gap g changes in the header of an old cell j. */
  ghost function AfterAdd(b: Block, g: nat, c: Cell, j: nat): Minor
    requires j < |b.cells|
  {
    var r := MinorOf(b, j);
    if j + 1 == g then r.(next := c.at) else if j == g then r.(prev := c.at) else r
  }

  lemma AddedHeaders(b: Block, g: nat, c: Cell, j: nat)
    requires g <= |b.cells| && j < |b.cells|
    ensures var k := if j < g then j else j + 1;
      WithCell(b, g, c).cells[k] == b.cells[j] && MinorOf(WithCell(b, g, c), k) == AfterAdd(b, g, c, j)
    ensures WithCell(b, g, c).cells[g] == c
    ensures MinorOf(WithCell(b, g, c), g) == Minor(PrevAt(b, g), NextAt(b, g), b.at, MAGIC, c.size, c.req)
  {
    var b' := WithCell(b, g, c);
    assert forall k :: 0 <= k < |b'.cells| ==>
      b'.cells[k] == if k < g then b.cells[k] else if k == g then c else b.cells[k - 1];
  }

  /** Cells have different addresses. */
  lemma CellsApart(b: Block, i: nat, j: nat)
    requires Packed(b) && i < |b.cells| && j < |b.cells| && i != j
    ensures b.cells[i].at != b.cells[j].at
  {
    CellsAscend(b, if i < j then i else j, if i < j then j else i);
  }

  lemma LinkedInCell(m: map<nat, Minor>, m': map<nat, Minor>, b: Block, g: nat, c: Cell, j: nat)
    requires CellsLinked(m, b) && g <= |b.cells| && Packed(b) && Packed(WithCell(b, g, c)) && LinkedIn(m, m', b, g, c)
    requires j < |b.cells|
    ensures b.cells[j].at in m' && m'[b.cells[j].at] == AfterAdd(b, g, c, j)
  {
    var a := b.cells[j].at;
    assert CellOk(m, b, j);
    AddedHeaders(b, g, c, j);
    CellsApart(WithCell(b, g, c), g, if j < g then j else j + 1);
    if g > 0 && j != g - 1 { CellsApart(b, g - 1, j); }
    if g < |b.cells| && j != g { CellsApart(b, g, j); }
  }

  lemma LinkedInCells(m: map<nat, Minor>, m': map<nat, Minor>, b: Block, g: nat, c: Cell)
    requires CellsLinked(m, b) && Packed(b) && b.at > 0 && g <= |b.cells|
    requires c.at == GapLo(b, g) && Fits(b, g, HEADER + c.size) && LinkedIn(m, m', b, g, c)
    ensures CellsLinked(m', WithCell(b, g, c))
  {
    var b' := WithCell(b, g, c);
    AddedIsPacked(b, g, c);
    forall j | 0 <= j < |b'.cells| ensures CellOk(m', b', j) {
      if j == g {
        if 0 < |b.cells| { AddedHeaders(b, g, c, 0); }
      } else {
        LinkedInCell(m, m', b, g, c, if j < g then j else j - 1);
        AddedHeaders(b, g, c, if j < g then j else j - 1);
      }
    }
  }

  lemma LinkedInLocal(m: map<nat, Minor>, m': map<nat, Minor>, b: Block, g: nat, c: Cell)
    requires Packed(b) && g <= |b.cells| && c.at == GapLo(b, g) && Fits(b, g, HEADER + c.size) &&
             LinkedIn(m, m', b, g, c)
    ensures SameOutside(m, m', b.at, BlockEnd(b))
  {
    AddedIsPacked(b, g, c);
    CellInside(WithCell(b, g, c), g);
    NeighboursInside(b, g, g);
  }

  lemma LinkedOutLocal(m: map<nat, Minor>, m': map<nat, Minor>, b: Block, j: nat)
    requires Packed(b) && j < |b.cells| && LinkedOut(m, m', b, j)
    ensures SameOutside(m, m', b.at, BlockEnd(b))
  {
    CellInside(b, j);
    NeighboursInside(b, j, j + 1);
  }

  /** Memory after the header of cell j was unlinked and marked dead. */
  ghost predicate LinkedOut(m: map<nat, Minor>, m': map<nat, Minor>, b: Block, j: nat)
    requires j < |b.cells|
  {
    && (j > 0 ==> var p := b.cells[j - 1].at; p in m && p in m' && m'[p] == m[p].(next := NextAt(b, j + 1)))
    && (j + 1 < |b.cells| ==> var n := b.cells[j + 1].at; n in m && n in m' && m'[n] == m[n].(prev := PrevAt(b, j)))
    && forall a :: a in m && a != b.cells[j].at && a !in Neighbours(b, j, j + 1) ==> a in m' && m'[a] == m[a]
  }

  /** What removing cell j changes in the header of another cell k. */
  ghost function AfterRemove(b: Block, j: nat, k: nat): Minor
    requires j < |b.cells| && k < |b.cells|
  {
    var r := MinorOf(b, k);
    if k + 1 == j then r.(next := NextAt(b, j + 1)) else if k == j + 1 then r.(prev := PrevAt(b, j)) else r
  }

  lemma RemovedHeaders(b: Block, j: nat, k: nat)
    requires j < |b.cells| && k < |b.cells| && k != j
    ensures var i := if k < j then k else k - 1;
      WithoutCell(b, j).cells[i] == b.cells[k] && MinorOf(WithoutCell(b, j), i) == AfterRemove(b, j, k)
  {
    var b' := WithoutCell(b, j);
    assert forall i :: 0 <= i < |b'.cells| ==> b'.cells[i] == if i < j then b.cells[i] else b.cells[i + 1];
  }

  lemma LinkedOutCell(m: map<nat, Minor>, m': map<nat, Minor>, b: Block, j: nat, k: nat)
    requires CellsLinked(m, b) && Packed(b) && j < |b.cells| && LinkedOut(m, m', b, j)
    requires k < |b.cells| && k != j
    ensures b.cells[k].at in m' && m'[b.cells[k].at] == AfterRemove(b, j, k)
  {
    var a := b.cells[k].at;
    assert CellOk(m, b, k);
    CellsApart(b, j, k);
    if j > 0 && k != j - 1 { CellsApart(b, j - 1, k); }
    if j + 1 < |b.cells| && k != j + 1 { CellsApart(b, j + 1, k); }
  }

  lemma LinkedOutCells(m: map<nat, Minor>, m': map<nat, Minor>, b: Block, j: nat)
    requires CellsLinked(m, b) && Packed(b) && b.at > 0 && j < |b.cells| && LinkedOut(m, m', b, j)
    ensures CellsLinked(m', WithoutCell(b, j))
  {
    var b' := WithoutCell(b, j);
    forall k | 0 <= k < |b'.cells| ensures CellOk(m', b', k) {
      LinkedOutCell(m, m', b, j, if k < j then k else k + 1);
      RemovedHeaders(b, j, if k < j then k else k + 1);
    }
  }
}
