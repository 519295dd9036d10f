/** What the static variables and the memory of the kernel heap must say about
    the blocks, and what each operation does to that. */
module HeapState {
  import opened Pmm
  import opened HeapLayout
  import opened HeapBlocks

  type Bytes = nat -> nat

  // ---------- Alignment of the returned pointers ----------

  /** The slack that brings the payload of a cell at `at` to the next boundary. */
  function Pad(at: nat): (d: nat)
    ensures d < ALIGNMENT && (at + HEADER + ALIGN_INFO + d) % ALIGNMENT == 0
  {
    var r := (at + HEADER + ALIGN_INFO) % ALIGNMENT;
    if r == 0 then 0 else ALIGNMENT - r
  }

  /** The pointer handed out for a cell. */
  function Pointer(at: nat): nat { at + HEADER + ALIGN_INFO + Pad(at) }

  /** Where the hidden offset byte of a cell is kept. */
  function OffsetAt(at: nat): nat { Pointer(at) - ALIGN_INFO }

  ghost predicate OffsetOk(bytes: Bytes, c: Cell) { bytes(OffsetAt(c.at)) == Pad(c.at) + ALIGN_INFO }

  ghost predicate OffsetsOk(bytes: Bytes, b: Block) {
    forall j :: 0 <= j < |b.cells| ==> OffsetOk(bytes, b.cells[j])
  }

  ghost predicate AllOffsetsOk(bytes: Bytes, blocks: seq<Block>) {
    forall i :: 0 <= i < |blocks| ==> OffsetsOk(bytes, blocks[i])
  }

  /** The offset byte and the payload lie inside the cell, the payload at an
      aligned address behind the offset byte. */
  lemma PayloadInside(c: Cell)
    requires c.req + ALIGNMENT + ALIGN_INFO <= c.size
    ensures Pointer(c.at) % ALIGNMENT == 0
    ensures c.at + HEADER <= OffsetAt(c.at) < Pointer(c.at) && Pointer(c.at) + c.req <= CellEnd(c)
  {
  }

  /** Two different cells of the heap do not overlap. */
  lemma CellsDisjoint(blocks: seq<Block>, base: nat, i: nat, j: nat, k: nat, l: nat)
    requires Layout(blocks, base) && i < |blocks| && j < |blocks[i].cells| && k < |blocks| && l < |blocks[k].cells|
    requires (i, j) != (k, l)
    ensures CellEnd(blocks[i].cells[j]) <= blocks[k].cells[l].at || CellEnd(blocks[k].cells[l]) <= blocks[i].cells[j].at
  {
    assert BlockWf(blocks[i], base) && BlockWf(blocks[k], base);
    if i == k {
      if j < l { CellsAscend(blocks[i], j, l); } else { CellsAscend(blocks[i], l, j); }
    } else {
      assert Disjoint(blocks[i], blocks[k]);
      DisjointExtents(blocks[i], blocks[k], base);
      CellInside(blocks[i], j);
      CellInside(blocks[k], l);
    }
  }

  // ---------- The whole state ----------

  ghost function InUse(cells: seq<Cell>): nat {
    if cells == [] then 0 else cells[0].size + InUse(cells[1..])
  }

  ghost function CellBytes(b: Block): nat { InUse(b.cells) }

  lemma {:induction false} InUseIsTaken(cells: seq<Cell>)
    ensures Taken(cells) == InUse(cells) + HEADER * |cells|
  {
    if cells != [] {
      InUseIsTaken(cells[1..]);
    }
  }

  /** The static variables and the header memory at one moment. */
  datatype State = State(majors: map<nat, Major>, minors: map<nat, Minor>, bytes: Bytes,
                         memRoot: nat, bestBet: nat, allocatedBytes: nat, inuseBytes: nat)

  ghost function RootOf(blocks: seq<Block>): nat { if blocks == [] then 0 else blocks[0].at }

  ghost predicate Consistent(s: State, blocks: seq<Block>, base: nat) {
    && Layout(blocks, base)
    && BlocksLinked(s.majors, blocks) && AllCellsLinked(s.minors, blocks) && AllOffsetsOk(s.bytes, blocks)
    && s.memRoot == RootOf(blocks) && (s.bestBet == 0 || Listed(blocks, s.bestBet))
    && s.allocatedBytes == SumBy(BlockSize, blocks) && s.inuseBytes == SumBy(CellBytes, blocks)
  }

  // ---------- Placing a cell ----------

  /** The state after cell c was written into gap g of block i. */
  ghost predicate Placed(s: State, s': State, blocks: seq<Block>, i: nat, g: nat, c: Cell)
    requires i < |blocks| && g <= |blocks[i].cells|
  {
    var b := blocks[i];
    && LinkedIn(s.minors, s'.minors, b, g, c)
    && b.at in s.majors
    && s'.majors == s.majors[b.at := s.majors[b.at].(usage := s.majors[b.at].usage + c.size + HEADER,
                                                     first := if g == 0 then c.at else s.majors[b.at].first)]
    && (forall a: nat :: s'.bytes(a) == if a == OffsetAt(c.at) then Pad(c.at) + ALIGN_INFO else s.bytes(a))
    && s'.memRoot == s.memRoot && s'.bestBet == s.bestBet && s'.allocatedBytes == s.allocatedBytes &&
        s'.inuseBytes == s.inuseBytes + c.size
  }

  lemma PlacedOffsets(bytes: Bytes, bytes': Bytes, blocks: seq<Block>, base: nat, i: nat, g: nat, c: Cell)
    requires Layout(blocks, base) && i < |blocks| && g <= |blocks[i].cells| && AllOffsetsOk(bytes, blocks)
    requires Layout(blocks[i := WithCell(blocks[i], g, c)], base)
    requires forall a: nat :: bytes'(a) == if a == OffsetAt(c.at) then Pad(c.at) + ALIGN_INFO else bytes(a)
    ensures AllOffsetsOk(bytes', blocks[i := WithCell(blocks[i], g, c)])
  {
    var b' := WithCell(blocks[i], g, c);
    var bs := blocks[i := b'];
    assert bs[i].cells[g] == c && BlockWf(bs[i], base);
    forall k | 0 <= k < |bs| ensures OffsetsOk(bytes', bs[k]) {
      forall l | 0 <= l < |bs[k].cells| ensures OffsetOk(bytes', bs[k].cells[l]) {
        if (k, l) != (i, g) {
          assert OffsetsOk(bytes, blocks[k]) && BlockWf(bs[k], base);
          assert bs[k].cells[l] == if k == i && l > g then blocks[k].cells[l - 1] else blocks[k].cells[l];
          CellsDisjoint(bs, base, i, g, k, l);
          PayloadInside(bs[k].cells[l]);
          PayloadInside(c);
        }
      }
    }
  }

  lemma PlacedWf(b: Block, base: nat, g: nat, c: Cell)
    requires BlockWf(b, base) && g <= |b.cells| && c.at == GapLo(b, g) && Fits(b, g, HEADER + c.size)
    requires c.req + ALIGNMENT + ALIGN_INFO <= c.size
    ensures BlockWf(WithCell(b, g, c), base) && CellBytes(WithCell(b, g, c)) == CellBytes(b) + c.size
    ensures FirstAt(WithCell(b, g, c).cells) == if g == 0 then c.at else FirstAt(b.cells)
  {
    AddedIsPacked(b, g, c);
    InUseIsTaken(b.cells);
    InUseIsTaken(WithCell(b, g, c).cells);
    var cells := WithCell(b, g, c).cells;
    assert forall j :: 0 <= j < |cells| ==> cells[j] == c || cells[j] == b.cells[if j < g then j else j - 1];
  }

  lemma PlacedLinks(s: State, s': State, blocks: seq<Block>, base: nat, i: nat, g: nat, c: Cell)
    requires Layout(blocks, base) && BlocksLinked(s.majors, blocks) && AllCellsLinked(s.minors, blocks)
    requires i < |blocks| && g <= |blocks[i].cells| && Placed(s, s', blocks, i, g, c)
    requires c.at == GapLo(blocks[i], g) && Fits(blocks[i], g, HEADER + c.size) &&
             c.req + ALIGNMENT + ALIGN_INFO <= c.size
    ensures var bs := blocks[i := WithCell(blocks[i], g, c)];
      BlocksLinked(s'.majors, bs) && AllCellsLinked(s'.minors, bs)
  {
    var b, b' := blocks[i], WithCell(blocks[i], g, c);
    assert BlockWf(b, base) && CellsLinked(s.minors, b) && BlockOk(s.majors, blocks, i);
    PlacedWf(b, base, g, c);
    AddedIsPacked(b, g, c);
    BlockRelinked(s.majors, s'.majors, blocks, base, i, b');
    LinkedInCells(s.minors, s'.minors, b, g, c);
    LinkedInLocal(s.minors, s'.minors, b, g, c);
    OthersLinked(s.minors, s'.minors, blocks, base, i, b');
  }

  /** Writing a cell into a gap that holds it keeps the heap consistent. */
  lemma PlacedConsistent(s: State, s': State, blocks: seq<Block>, base: nat, i: nat, g: nat, c: Cell)
    requires Consistent(s, blocks, base) && i < |blocks| && g <= |blocks[i].cells| && Placed(s, s', blocks, i, g, c)
    requires c.at == GapLo(blocks[i], g) && Fits(blocks[i], g, HEADER + c.size) &&
             c.req + ALIGNMENT + ALIGN_INFO <= c.size
    ensures Consistent(s', blocks[i := WithCell(blocks[i], g, c)], base)
    ensures HeapPages(blocks[i := WithCell(blocks[i], g, c)]) == HeapPages(blocks)
  {
    var b, b' := blocks[i], WithCell(blocks[i], g, c);
    assert BlockWf(b, base);
    PlacedLinks(s, s', blocks, base, i, g, c);
    PlacedWf(b, base, g, c);
    LayoutUpdated(blocks, base, i, b');
    PlacedOffsets(s.bytes, s'.bytes, blocks, base, i, g, c);
    SumUpdated(BlockSize, blocks, i, b');
    SumUpdated(CellBytes, blocks, i, b');
    ListedUpdated(blocks, i, b');
  }

  lemma ListedUpdated(blocks: seq<Block>, i: nat, b: Block)
    requires i < |blocks| && b.at == blocks[i].at
    ensures forall a :: Listed(blocks, a) ==> Listed(blocks[i := b], a)
    ensures RootOf(blocks[i := b]) == RootOf(blocks)
  {
    forall a | Listed(blocks, a) ensures Listed(blocks[i := b], a) {
      var k :| 0 <= k < |blocks| && blocks[k].at == a;
      assert blocks[i := b][k].at == a;
    }
  }

  // ---------- What the code reads ----------

  lemma BlockReads(s: State, blocks: seq<Block>, base: nat, i: nat)
    requires Consistent(s, blocks, base) && i < |blocks|
    ensures BlockOk(s.majors, blocks, i) && BlockWf(blocks[i], base)
    ensures FirstAt(blocks[i].cells) == 0 <==> blocks[i].cells == []
    ensures Usage(blocks[i]) <= BlockSize(blocks[i])
  {
    assert BlockOk(s.majors, blocks, i) && BlockWf(blocks[i], base);
    if blocks[i].cells != [] { CellInside(blocks[i], 0); }
    UsageBounded(blocks[i]);
  }

  lemma CellReads(s: State, blocks: seq<Block>, base: nat, i: nat, j: nat)
    requires Consistent(s, blocks, base) && i < |blocks| && j < |blocks[i].cells|
    ensures CellOk(s.minors, blocks[i], j)
    ensures blocks[i].at + HEADER <= blocks[i].cells[j].at && CellEnd(blocks[i].cells[j]) <= BlockEnd(blocks[i])
    ensures j + 1 < |blocks[i].cells| ==> CellEnd(blocks[i].cells[j]) <= blocks[i].cells[j + 1].at
  {
    assert BlockWf(blocks[i], base) && CellsLinked(s.minors, blocks[i]) && CellOk(s.minors, blocks[i], j);
    CellInside(blocks[i], j);
    if j + 1 < |blocks[i].cells| { CellsAscend(blocks[i], j, j + 1); }
  }

  lemma LastCell(b: Block, j: nat)
    requires j < |b.cells| && MinorOf(b, j).next == 0 && (j + 1 < |b.cells| ==> b.cells[j + 1].at > 0)
    ensures j + 1 == |b.cells|
  {
  }

  lemma EmptyBlockFits(b: Block, need: nat)
    requires b.cells == [] && BlockSize(b) - Usage(b) >= need
    ensures FirstFit(b, 0, need)
  {
  }

  // ---------- New blocks ----------

  /** The number of pages requested for a first cell of the given size. */
  function PagesFor(size: nat): (n: nat)
    ensures n > 0 && n * PAGE_SIZE >= size + HEADER + HEADER
  {
    var st := size + HEADER + HEADER;
    var n := if st % PAGE_SIZE == 0 then st / PAGE_SIZE else st / PAGE_SIZE + 1;
    if n < 16 then 16 else n
  }

  /** It is the least number, from 16 on, whose pages hold the cell with its header
      and the header of the block. */
  lemma PagesForIs(size: nat, n: nat)
    ensures PagesFor(size) <= n <==> n >= 16 && n * PAGE_SIZE >= size + HEADER + HEADER
  {
  }

  /** The header of a block that is not yet linked to any other. */
  ghost function FreshMajor(b: Block): Major { Major(0, 0, b.pages, BlockSize(b), HEADER, 0) }

  /** The state after an empty block b was obtained and linked in last. */
  ghost predicate Grown(s: State, s': State, blocks: seq<Block>, b: Block) {
    && s'.minors == s.minors && s'.bytes == s.bytes && s'.bestBet == s.bestBet
    && s'.allocatedBytes == s.allocatedBytes + BlockSize(b) && s'.inuseBytes == s.inuseBytes
    && if blocks == [] then s'.memRoot == b.at && s'.majors == s.majors[b.at := FreshMajor(b)]
       else
         var last := blocks[|blocks| - 1].at;
         && s'.memRoot == s.memRoot && last in s.majors
         && s'.majors == s.majors[b.at := FreshMajor(b).(prev := last)][last := s.majors[last].(next := b.at)]
  }

  lemma EmptyBlockWf(b: Block, base: nat)
    requires b.at == base + b.page * PAGE_SIZE && b.at > 0 && b.pages > 0 && BlockEnd(b) <= LIMIT && b.cells == []
    ensures BlockWf(b, base) && Usage(b) == HEADER && CellBytes(b) == 0
  {
  }

  lemma GrownMajors(s: State, s': State, blocks: seq<Block>, base: nat, b: Block)
    requires Layout(blocks + [b], base) && BlocksLinked(s.majors, blocks) && Grown(s, s', blocks, b) && b.cells == []
    ensures BlocksLinked(s'.majors, blocks + [b])
    ensures RootOf(blocks + [b]) == if blocks == [] then b.at else RootOf(blocks)
  {
    if blocks == [] {
      assert BlockOk(s'.majors, blocks + [b], 0);
    } else {
      assert BlockOk(s.majors, blocks, |blocks| - 1);
      BlocksApart(blocks + [b], base, |blocks| - 1, |blocks|);
      BlockAppended(s.majors, s'.majors, blocks, base, b);
    }
  }

  lemma EmptyBlockLinked(minors: map<nat, Minor>, bytes: Bytes, blocks: seq<Block>, b: Block)
    requires AllCellsLinked(minors, blocks) && AllOffsetsOk(bytes, blocks) && b.cells == []
    ensures AllCellsLinked(minors, blocks + [b]) && AllOffsetsOk(bytes, blocks + [b])
  {
    var bs := blocks + [b];
    forall k | 0 <= k < |bs| ensures CellsLinked(minors, bs[k]) && OffsetsOk(bytes, bs[k]) {
      if k < |blocks| { assert CellsLinked(minors, blocks[k]) && OffsetsOk(bytes, blocks[k]); }
    }
  }

  lemma EmptyBlockSums(blocks: seq<Block>, b: Block)
    requires b.cells == []
    ensures SumBy(BlockSize, blocks + [b]) == SumBy(BlockSize, blocks) + BlockSize(b)
    ensures SumBy(CellBytes, blocks + [b]) == SumBy(CellBytes, blocks)
  {
    SumSplit(BlockSize, blocks, [b]);
    SumSplit(CellBytes, blocks, [b]);
    assert SumBy(BlockSize, [b]) == BlockSize(b) && SumBy(CellBytes, [b]) == CellBytes(b);
  }

  lemma GrownConsistent(s: State, s': State, blocks: seq<Block>, base: nat, b: Block)
    requires Consistent(s, blocks, base) && Grown(s, s', blocks, b)
    requires BlockWf(b, base) && b.cells == [] && PagesOf(b) !! HeapPages(blocks)
    ensures Consistent(s', blocks + [b], base) && HeapPages(blocks + [b]) == HeapPages(blocks) + PagesOf(b)
  {
    LayoutAppended(blocks, base, b);
    GrownMajors(s, s', blocks, base, b);
    EmptyBlockLinked(s.minors, s.bytes, blocks, b);
    EmptyBlockSums(blocks, b);
    ListedAppended(blocks, b);
  }

  lemma ListedAppended(blocks: seq<Block>, b: Block)
    ensures forall a :: Listed(blocks, a) ==> Listed(blocks + [b], a)
    ensures Listed(blocks + [b], b.at)
  {
    assert (blocks + [b])[|blocks|] == b;
    forall a | Listed(blocks, a) ensures Listed(blocks + [b], a) {
      var k :| 0 <= k < |blocks| && blocks[k].at == a;
      assert (blocks + [b])[k].at == a;
    }
  }

  /** blocks' is blocks with one empty block behind it, on the lowest run of free pages. */
  ghost predicate NewBlock(used: set<nat>, total: nat, blocks: seq<Block>, blocks': seq<Block>, pages: nat) {
    && |blocks'| == |blocks| + 1 && blocks' == blocks + [blocks'[|blocks|]]
    && var b := blocks'[|blocks|]; b.cells == [] && b.pages == pages && LowestRun(used, total, b.page, pages)
  }

  lemma NewBlockApart(s: State, blocks: seq<Block>, base: nat, b: Block)
    requires Consistent(s, blocks, base) && BlockWf(b, base) && PagesOf(b) !! HeapPages(blocks)
    ensures forall i :: 0 <= i < |blocks| ==> blocks[i].at != b.at
  {
    LayoutAppended(blocks, base, b);
    var bs := blocks + [b];
    forall i | 0 <= i < |blocks| ensures blocks[i].at != b.at {
      assert bs[i] == blocks[i] && bs[|blocks|] == b;
      BlocksApart(bs, base, i, |blocks|);
    }
  }

  // ---------- Which gap the search settles on ----------

  ghost function FreeBytes(b: Block): int { BlockSize(b) - Usage(b) }

  /** For every block, whether it has a gap with room for need bytes. */
  ghost function Fitting(blocks: seq<Block>, need: nat): (fits: seq<bool>)
    ensures |fits| == |blocks| && forall k :: 0 <= k < |blocks| ==> FitAt(fits, blocks, need, k)
  {
    seq(|blocks|, k requires 0 <= k < |blocks| => HasFit(blocks[k], need))
  }

  ghost predicate FitAt(fits: seq<bool>, blocks: seq<Block>, need: nat, k: nat)
    requires k < |blocks| && k < |fits|
  {
    fits[k] == HasFit(blocks[k], need)
  }

  ghost predicate NoneIn(fits: seq<bool>, lo: nat, hi: nat)
    requires hi <= |fits|
  {
    forall k :: lo <= k < hi ==> !fits[k]
  }

  /** The position of the block at address a, or the length of the list. */
  ghost function IndexOf(blocks: seq<Block>, a: nat): (i: nat)
    ensures i <= |blocks| && (i < |blocks| <==> Listed(blocks, a)) && (i < |blocks| ==> blocks[i].at == a)
  {
    if blocks == [] then 0
    else if blocks[0].at == a then assert blocks[0].at == a; 0
    else
      var i := IndexOf(blocks[1..], a);
      assert i < |blocks[1..]| ==> blocks[1 + i].at == a;
      assert forall k :: 0 < k < |blocks| ==> blocks[1..][k - 1] == blocks[k];
      1 + i
  }

  /** The search starts at the best bet if that looks big enough, else at the first block. */
  ghost function StartIndex(blocks: seq<Block>, bestBet: nat, need: nat): (i: nat)
    ensures i == 0 || i < |blocks|
  {
    var i := IndexOf(blocks, bestBet);
    if bestBet != 0 && i < |blocks| && FreeBytes(blocks[i]) > need then i else 0
  }

  /** Block i is the first fitting one, counting from start and wrapping around
      at the end of the list. */
  ghost predicate Chosen(fits: seq<bool>, start: nat, i: nat) {
    && i < |fits| && start <= |fits| && fits[i]
    && if i >= start then NoneIn(fits, start, i) else NoneIn(fits, start, |fits|) && NoneIn(fits, 0, i)
  }

  /** The blocks after a cell of the given size was put into gap g of block i. */
  ghost function Stored(blocks: seq<Block>, i: nat, g: nat, size: nat, req: nat): seq<Block>
    requires i < |blocks| && g <= |blocks[i].cells|
  {
    blocks[i := WithCell(blocks[i], g, Cell(GapLo(blocks[i], g), size, req))]
  }

  /** The state of the search at block i. Before the list grows, the blocks
      passed since the start (or, after the restart, all from the start on and
      those passed again) hold no fitting gap; when it has grown, no old block does. */
  ghost predicate SearchAt(fits: seq<bool>, start: nat, i: nat, startedBet: bool, grown: bool) {
    && start <= |fits|
    && if grown then i == |fits| && !startedBet && NoneIn(fits, 0, |fits|)
       else
         && i < |fits|
         && if startedBet then start <= i && NoneIn(fits, start, i)
            else NoneIn(fits, 0, i) && (start == 0 || NoneIn(fits, start, |fits|))
  }

  lemma SearchMoves(fits: seq<bool>, start: nat, i: nat, startedBet: bool)
    requires SearchAt(fits, start, i, startedBet, false) && !fits[i]
    ensures i + 1 < |fits| ==> SearchAt(fits, start, i + 1, startedBet, false)
    ensures i + 1 == |fits| && startedBet ==> SearchAt(fits, start, 0, false, false)
    ensures i + 1 == |fits| && !startedBet ==> SearchAt(fits, start, i + 1, false, true) && true !in fits
  {
  }

  lemma SearchEnds(fits: seq<bool>, start: nat, i: nat, startedBet: bool)
    requires SearchAt(fits, start, i, startedBet, false) && fits[i]
    ensures Chosen(fits, start, i) && true in fits
  {
  }

  lemma RootReads(s: State, blocks: seq<Block>, base: nat)
    requires Consistent(s, blocks, base)
    ensures s.memRoot == 0 <==> blocks == []
  {
    if blocks != [] { BlockReads(s, blocks, base, 0); }
  }

  /** The list is the old one, or the old one with a new empty block behind it. */
  ghost predicate ListIs(old_: seq<Block>, used0: set<nat>, total: nat, blocks: seq<Block>, used: set<nat>,
                         pages: nat, grown: bool) {
    if grown then NewBlock(used0, total, old_, blocks, pages) else blocks == old_ && used == used0
  }

  ghost predicate FitsOk(fits: seq<bool>, blocks: seq<Block>, need: nat) {
    |fits| == |blocks| && forall k :: 0 <= k < |fits| ==> FitAt(fits, blocks, need, k)
  }

  lemma GapFits(fits: seq<bool>, blocks: seq<Block>, need: nat, k: nat)
    requires FitsOk(fits, blocks, need) && k < |blocks|
    ensures fits[k] == HasFit(blocks[k], need)
  {
    assert FitAt(fits, blocks, need, k);
  }

  lemma NewBlockFits(old_: seq<Block>, used0: set<nat>, total: nat, blocks: seq<Block>, size: nat)
    requires NewBlock(used0, total, old_, blocks, PagesFor(size))
    ensures HasFit(blocks[|old_|], HEADER + size) && FreeBytes(blocks[|old_|]) >= HEADER + size
  {
    EmptyBlockFits(blocks[|old_|], HEADER + size);
  }

  /** What is known of block i: a new block fits; an old one fits exactly as
      recorded, and not at all with too few free bytes. */
  lemma SearchFacts(old_: seq<Block>, used0: set<nat>, total: nat, blocks: seq<Block>, used: set<nat>, size: nat,
                    fits: seq<bool>, grown: bool, base: nat, i: nat)
    requires ListIs(old_, used0, total, blocks, used, PagesFor(size), grown) && FitsOk(fits, old_, HEADER + size)
    requires Layout(blocks, base) && i < |blocks| && (if grown then i == |old_| else i < |old_|)
    ensures grown ==> HasFit(blocks[i], HEADER + size) && FreeBytes(blocks[i]) >= HEADER + size
    ensures !grown ==> fits[i] == HasFit(blocks[i], HEADER + size)
    ensures FreeBytes(blocks[i]) < HEADER + size ==> !grown && !fits[i]
  {
    if grown {
      NewBlockFits(old_, used0, total, blocks, size);
    } else {
      GapFits(fits, old_, HEADER + size, i);
      assert BlockWf(blocks[i], base);
      if FreeBytes(blocks[i]) < HEADER + size { SkipIsSound(blocks[i], HEADER + size); }
    }
  }

  /** The measure by which the search comes to an end: it grows the list at most
      once, restarts at most once, and otherwise moves forward. */
  ghost predicate Closer(grown: bool, startedBet: bool, i: nat, grown': bool, startedBet': bool, i': nat) {
    !grown && (grown' || (startedBet && !startedBet') || (startedBet' == startedBet && i' > i))
  }

  /** How the search settled: on the first fitting old block, or on a new one when none fits. */
  ghost predicate Settled(old_: seq<Block>, used0: set<nat>, total: nat, fits: seq<bool>, start: nat, bs: seq<Block>,
                          i: nat, pages: nat) {
    || (bs == old_ && Chosen(fits, start, i))
    || (i == |old_| && NewBlock(used0, total, old_, bs, pages) && true !in fits)
  }

  lemma TryOutcome(old_: seq<Block>, used0: set<nat>, total: nat, bs: seq<Block>, used: set<nat>, size: nat,
                   fits: seq<bool>, start: nat, i: nat, startedBet: bool, grown: bool, base: nat)
    requires ListIs(old_, used0, total, bs, used, PagesFor(size), grown) && FitsOk(fits, old_, HEADER + size)
    requires SearchAt(fits, start, i, startedBet, grown) && i < |bs| && (grown ==> true !in fits) && Layout(bs, base)
    ensures HasFit(bs[i], HEADER + size) ==> Settled(old_, used0, total, fits, start, bs, i, PagesFor(size))
    ensures !HasFit(bs[i], HEADER + size) ==> !grown && !fits[i] && bs == old_
  {
    SearchFacts(old_, used0, total, bs, used, size, fits, grown, base, i);
    if !grown && fits[i] { SearchEnds(fits, start, i, startedBet); }
  }

  lemma StoredNonempty(old_: seq<Block>, used0: set<nat>, total: nat, fits: seq<bool>, start: nat, bs: seq<Block>,
                       i: nat, g: nat, size: nat, req: nat)
    requires Settled(old_, used0, total, fits, start, bs, i, PagesFor(size)) && i < |bs| && g <= |bs[i].cells|
    requires forall k :: 0 <= k < |old_| ==> old_[k].cells != []
    ensures forall k :: 0 <= k < |bs| ==> Stored(bs, i, g, size, req)[k].cells != []
  {
    var out := Stored(bs, i, g, size, req);
    forall k | 0 <= k < |bs| ensures out[k].cells != [] {
      if k == i { assert out[i].cells[g].req == req; } else { assert out[k] == old_[k]; }
    }
  }

  // ---------- Taking a cell out ----------

  /** The state after cell j of block i was unlinked. */
  ghost predicate TakenOut(s: State, s': State, blocks: seq<Block>, i: nat, j: nat)
    requires i < |blocks| && j < |blocks[i].cells|
  {
    var b := blocks[i];
    && LinkedOut(s.minors, s'.minors, b, j)
    && b.at in s.majors && s.majors[b.at].usage >= b.cells[j].size + HEADER && s.inuseBytes >= b.cells[j].size
    && s'.majors == s.majors[b.at := s.majors[b.at].(usage := s.majors[b.at].usage - (b.cells[j].size + HEADER),
                                                     first := if j == 0 then NextAt(b, 1) else s.majors[b.at].first)]
    && s'.bytes == s.bytes && s'.memRoot == s.memRoot && s'.bestBet == s.bestBet &&
        s'.allocatedBytes == s.allocatedBytes
    && s'.inuseBytes == s.inuseBytes - b.cells[j].size
  }

  lemma TakenOutWf(b: Block, base: nat, j: nat)
    requires BlockWf(b, base) && j < |b.cells|
    ensures BlockWf(WithoutCell(b, j), base) && CellBytes(WithoutCell(b, j)) == CellBytes(b) - b.cells[j].size
    ensures FirstAt(WithoutCell(b, j).cells) == if j == 0 then NextAt(b, 1) else FirstAt(b.cells)
    ensures Usage(WithoutCell(b, j)) == Usage(b) - (b.cells[j].size + HEADER)
  {
    RemovedIsPacked(b, j);
    InUseIsTaken(b.cells);
    InUseIsTaken(WithoutCell(b, j).cells);
    var cells := WithoutCell(b, j).cells;
    assert forall k :: 0 <= k < |cells| ==> cells[k] == b.cells[if k < j then k else k + 1];
  }

  lemma TakenOutOffsets(bytes: Bytes, blocks: seq<Block>, i: nat, j: nat)
    requires i < |blocks| && j < |blocks[i].cells| && AllOffsetsOk(bytes, blocks)
    ensures AllOffsetsOk(bytes, blocks[i := WithoutCell(blocks[i], j)])
  {
    var bs := blocks[i := WithoutCell(blocks[i], j)];
    forall k | 0 <= k < |bs| ensures OffsetsOk(bytes, bs[k]) {
      assert OffsetsOk(bytes, blocks[k]);
      forall l | 0 <= l < |bs[k].cells| ensures OffsetOk(bytes, bs[k].cells[l]) {
        assert bs[k].cells[l] == if k == i && l >= j then blocks[k].cells[l + 1] else blocks[k].cells[l];
      }
    }
  }

  lemma TakenOutLinks(s: State, s': State, blocks: seq<Block>, base: nat, i: nat, j: nat)
    requires Layout(blocks, base) && BlocksLinked(s.majors, blocks) && AllCellsLinked(s.minors, blocks)
    requires i < |blocks| && j < |blocks[i].cells| && TakenOut(s, s', blocks, i, j)
    ensures var bs := blocks[i := WithoutCell(blocks[i], j)];
      BlocksLinked(s'.majors, bs) && AllCellsLinked(s'.minors, bs)
  {
    var b, b' := blocks[i], WithoutCell(blocks[i], j);
    assert BlockWf(b, base) && CellsLinked(s.minors, b) && BlockOk(s.majors, blocks, i);
    TakenOutWf(b, base, j);
    BlockRelinked(s.majors, s'.majors, blocks, base, i, b');
    LinkedOutCells(s.minors, s'.minors, b, j);
    LinkedOutLocal(s.minors, s'.minors, b, j);
    OthersLinked(s.minors, s'.minors, blocks, base, i, b');
  }

  lemma TakenOutConsistent(s: State, s': State, blocks: seq<Block>, base: nat, i: nat, j: nat)
    requires Consistent(s, blocks, base) && i < |blocks| && j < |blocks[i].cells| && TakenOut(s, s', blocks, i, j)
    ensures Consistent(s', blocks[i := WithoutCell(blocks[i], j)], base)
  {
    var b, b' := blocks[i], WithoutCell(blocks[i], j);
    assert BlockWf(b, base);
    TakenOutLinks(s, s', blocks, base, i, j);
    TakenOutWf(b, base, j);
    LayoutUpdated(blocks, base, i, b');
    TakenOutOffsets(s.bytes, blocks, i, j);
    SumUpdated(BlockSize, blocks, i, b');
    SumUpdated(CellBytes, blocks, i, b');
    ListedUpdated(blocks, i, b');
  }

  // ---------- Giving an empty block back ----------

  ghost function NextBlock(blocks: seq<Block>, i: nat): nat
    requires i < |blocks|
  {
    if i + 1 == |blocks| then 0 else blocks[i + 1].at
  }

  /** The state after block i was unlinked from the list. */
  ghost predicate GivenBack(s: State, s': State, blocks: seq<Block>, i: nat)
    requires i < |blocks|
  {
    var b := blocks[i];
    && s'.minors == s.minors && s'.bytes == s.bytes && s'.inuseBytes == s.inuseBytes
    && s'.memRoot == (if s.memRoot == b.at then NextBlock(blocks, i) else s.memRoot)
    && s'.bestBet == (if s.bestBet == b.at then 0 else s.bestBet)
    && s.allocatedBytes >= BlockSize(b) && s'.allocatedBytes == s.allocatedBytes - BlockSize(b)
    && SkippedOver(s.majors, s'.majors, blocks, i)
  }

  lemma GivenBackRoot(blocks: seq<Block>, base: nat, i: nat)
    requires Layout(blocks, base) && i < |blocks|
    ensures RootOf(Without(blocks, i)) ==
            if RootOf(blocks) == blocks[i].at then NextBlock(blocks, i) else RootOf(blocks)
    ensures forall a :: Listed(blocks, a) && a != blocks[i].at ==> Listed(Without(blocks, i), a)
  {
    if i > 0 { BlocksApart(blocks, base, 0, i); }
    var rest := Without(blocks, i);
    forall a | Listed(blocks, a) && a != blocks[i].at ensures Listed(rest, a) {
      var k :| 0 <= k < |blocks| && blocks[k].at == a;
      assert rest[if k < i then k else k - 1] == blocks[k];
    }
  }

  lemma GivenBackConsistent(s: State, s': State, blocks: seq<Block>, base: nat, i: nat)
    requires Consistent(s, blocks, base) && i < |blocks| && blocks[i].cells == [] && GivenBack(s, s', blocks, i)
    ensures Consistent(s', Without(blocks, i), base)
  {
    LayoutWithout(blocks, base, i);
    BlockRemoved(s.majors, s'.majors, blocks, base, i);
    GivenBackRoot(blocks, base, i);
    SumWithout(BlockSize, blocks, i);
    SumWithout(CellBytes, blocks, i);
    var rest := Without(blocks, i);
    forall k | 0 <= k < |rest| ensures CellsLinked(s'.minors, rest[k]) && OffsetsOk(s'.bytes, rest[k]) {
      var o := if k < i then k else k + 1;
      assert rest[k] == blocks[o] && CellsLinked(s.minors, blocks[o]) && OffsetsOk(s.bytes, blocks[o]);
    }
  }

  /** A 32-bit unsigned value read as a signed one. */
  function ToInt(x: nat): int { if x < LIMIT / 2 then x else x - LIMIT }

  ghost function BetAfterFree(blocks: seq<Block>, bestBet: nat, i: nat): nat
    requires i < |blocks|
  {
    var k := IndexOf(blocks, bestBet);
    if bestBet != 0 && k < |blocks| && 0 <= FreeBytes(blocks[i]) && 0 <= FreeBytes(blocks[k]) &&
        ToInt(FreeBytes(blocks[i])) > ToInt(FreeBytes(blocks[k]))
    then blocks[i].at else bestBet
  }

  lemma NeighbourReads(s: State, blocks: seq<Block>, base: nat, i: nat)
    requires Consistent(s, blocks, base) && i < |blocks|
    ensures BlockOk(s.majors, blocks, i) && blocks[i].at >= base && s.allocatedBytes >= BlockSize(blocks[i])
    ensures i > 0 ==> BlockOk(s.majors, blocks, i - 1) && blocks[i - 1].at > 0 && blocks[i - 1].at != blocks[i].at
    ensures i + 1 < |blocks| ==>
              BlockOk(s.majors, blocks, i + 1) && blocks[i + 1].at > 0 && blocks[i + 1].at != blocks[i].at
    ensures 0 < i && i + 1 < |blocks| ==> blocks[i - 1].at != blocks[i + 1].at
  {
    BlockReads(s, blocks, base, i);
    SumAt(BlockSize, blocks, i);
    if i > 0 { BlockReads(s, blocks, base, i - 1); BlocksApart(blocks, base, i - 1, i); }
    if i + 1 < |blocks| { BlockReads(s, blocks, base, i + 1); BlocksApart(blocks, base, i, i + 1); }
    if 0 < i && i + 1 < |blocks| { BlocksApart(blocks, base, i - 1, i + 1); }
  }

  /** The address of a block, without the mapping offset, leads back to its pages. */
  lemma PageIndex(b: Block, base: nat, used: set<nat>, bits: nat, reserved: set<nat>, blocks: seq<Block>, i: nat)
    requires Owns(used, reserved, blocks) && i < |blocks| && b == blocks[i] && BlockWf(b, base)
    requires forall p :: p in used ==> p < bits
    ensures (b.at - base) / PAGE_SIZE == b.page && b.page + b.pages <= bits
  {
    PagesAt(blocks, i);
    assert b.page + b.pages - 1 in PagesOf(b);
  }

  /** The list after cell j of block i was freed: the last cell takes its block along. */
  ghost predicate Freed(old_: seq<Block>, blocks: seq<Block>, i: nat, j: nat) {
    && i < |old_| && j < |old_[i].cells|
    && blocks == if |old_[i].cells| == 1 then Without(old_, i) else old_[i := WithoutCell(old_[i], j)]
  }

  /** The best bet after that. */
  ghost function BetAfter(old_: seq<Block>, blocks: seq<Block>, bestBet: nat, i: nat, j: nat): nat
    requires Freed(old_, blocks, i, j)
  {
    if |old_[i].cells| > 1 then BetAfterFree(blocks, bestBet, i)
    else if bestBet == old_[i].at then 0 else bestBet
  }

  /** Taking the cell out empties its block exactly when it was the only cell;
      the blocks that stay listed are not empty. */
  lemma FreedFacts(old_: seq<Block>, mid: seq<Block>, i: nat, j: nat)
    requires i < |old_| && j < |old_[i].cells| && mid == old_[i := WithoutCell(old_[i], j)]
    requires forall k :: 0 <= k < |old_| ==> old_[k].cells != []
    ensures mid[i].cells == [] <==> |old_[i].cells| == 1
    ensures Without(mid, i) == Without(old_, i)
    ensures forall k :: 0 <= k < |mid| && k != i ==> mid[k].cells != []
    ensures forall k :: 0 <= k < |Without(old_, i)| ==> Without(old_, i)[k].cells != []
  {
  }

  /** The header of cell j, its neighbours, and the totals it counts in. */
  lemma AroundReads(s: State, blocks: seq<Block>, base: nat, i: nat, j: nat)
    requires Consistent(s, blocks, base) && i < |blocks| && j < |blocks[i].cells|
    ensures CellOk(s.minors, blocks[i], j)
    ensures Usage(blocks[i]) >= blocks[i].cells[j].size + HEADER && s.inuseBytes >= blocks[i].cells[j].size
    ensures j > 0 ==> CellOk(s.minors, blocks[i], j - 1) && 0 < blocks[i].cells[j - 1].at < blocks[i].cells[j].at
    ensures j + 1 < |blocks[i].cells| ==>
              CellOk(s.minors, blocks[i], j + 1) && blocks[i].cells[j].at < blocks[i].cells[j + 1].at
  {
    CellReads(s, blocks, base, i, j);
    if j > 0 { CellReads(s, blocks, base, i, j - 1); }
    if j + 1 < |blocks[i].cells| { CellReads(s, blocks, base, i, j + 1); }
    assert BlockWf(blocks[i], base);
    TakenOutWf(blocks[i], base, j);
    SumAt(CellBytes, blocks, i);
  }

  // ---------- Pointers held by clients ----------

  /** ptr was handed out for cell j of block i. */
  ghost predicate LiveAt(blocks: seq<Block>, ptr: nat, i: nat, j: nat) {
    i < |blocks| && j < |blocks[i].cells| && ptr == Pointer(blocks[i].cells[j].at)
  }

  /** ptr was freed, and its header and offset byte, which still say so, lie in a gap. */
  ghost predicate DeadIn(s: State, blocks: seq<Block>, ptr: nat) {
    && ptr >= ALIGNMENT + ALIGN_INFO + HEADER && ALIGN_INFO <= s.bytes(ptr - ALIGN_INFO) < ALIGNMENT + ALIGN_INFO
    && var h := ptr - s.bytes(ptr - ALIGN_INFO) - HEADER;
       && h in s.minors && s.minors[h].magic == DEAD
       && InSomeGap(blocks, h, ptr - ALIGN_INFO)
  }

  ghost predicate InSomeGap(blocks: seq<Block>, lo: nat, hi: nat) {
    exists i, g :: InGap(blocks, i, g, lo, hi)
  }

  ghost predicate InGap(blocks: seq<Block>, i: nat, g: nat, lo: nat, hi: nat) {
    i < |blocks| && g <= |blocks[i].cells| && GapLo(blocks[i], g) <= lo && hi < GapHi(blocks[i], g)
  }

  /** UNALIGN leads from a live pointer back to its own header. */
  lemma LiveReads(s: State, blocks: seq<Block>, base: nat, ptr: nat, i: nat, j: nat)
    requires Consistent(s, blocks, base) && LiveAt(blocks, ptr, i, j)
    ensures ptr >= ALIGNMENT + ALIGN_INFO + HEADER && s.bytes(ptr - ALIGN_INFO) < ALIGNMENT + ALIGN_INFO
    ensures ptr - s.bytes(ptr - ALIGN_INFO) - HEADER == blocks[i].cells[j].at
    ensures CellOk(s.minors, blocks[i], j) && blocks[i].cells[j].req + ALIGNMENT + ALIGN_INFO <= blocks[i].cells[j].size
    ensures !DeadIn(s, blocks, ptr)
  {
    assert BlockWf(blocks[i], base) && OffsetsOk(s.bytes, blocks[i]) && OffsetOk(s.bytes, blocks[i].cells[j]);
    CellReads(s, blocks, base, i, j);
  }

  /** A pointer belongs to one cell only. */
  lemma LiveUnique(blocks: seq<Block>, base: nat, ptr: nat, i: nat, j: nat, k: nat, l: nat)
    requires Layout(blocks, base) && LiveAt(blocks, ptr, i, j) && LiveAt(blocks, ptr, k, l)
    ensures i == k && j == l
  {
    if (i, j) != (k, l) {
      assert BlockWf(blocks[i], base) && BlockWf(blocks[k], base);
      CellsDisjoint(blocks, base, i, j, k, l);
    }
  }

  /** After a cell was freed and its block stays, the pointer is recognisably dead. */
  lemma FreedIsDead(s: State, blocks: seq<Block>, old_: seq<Block>, base: nat, ptr: nat, i: nat, j: nat)
    requires Layout(old_, base) && LiveAt(old_, ptr, i, j) && Freed(old_, blocks, i, j) && |old_[i].cells| > 1
    requires OffsetOk(s.bytes, old_[i].cells[j]) && old_[i].cells[j].at in s.minors &&
             s.minors[old_[i].cells[j].at].magic == DEAD
    ensures DeadIn(s, blocks, ptr)
  {
    var b, c := old_[i], old_[i].cells[j];
    assert BlockWf(b, base);
    assert GapLo(b, j) <= GapHi(b, j) && GapLo(b, j + 1) <= GapHi(b, j + 1);
    PayloadInside(c);
    assert InGap(blocks, i, j, c.at, ptr - ALIGN_INFO);
  }

  /** Writes inside the payload of a live cell leave all offset bytes alone. */
  lemma PayloadWrites(bytes: Bytes, bytes': Bytes, blocks: seq<Block>, base: nat, ptr: nat, i: nat, j: nat)
    requires Layout(blocks, base) && AllOffsetsOk(bytes, blocks) && LiveAt(blocks, ptr, i, j)
    requires forall a: nat :: !(ptr <= a < ptr + blocks[i].cells[j].req) ==> bytes'(a) == bytes(a)
    ensures AllOffsetsOk(bytes', blocks)
  {
    forall k | 0 <= k < |blocks| ensures OffsetsOk(bytes', blocks[k]) {
      assert OffsetsOk(bytes, blocks[k]) && BlockWf(blocks[k], base) && BlockWf(blocks[i], base);
      forall l | 0 <= l < |blocks[k].cells| ensures OffsetOk(bytes', blocks[k].cells[l]) {
        assert OffsetOk(bytes, blocks[k].cells[l]);
        PayloadInside(blocks[k].cells[l]);
        PayloadInside(blocks[i].cells[j]);
        if (k, l) != (i, j) {
          CellsDisjoint(blocks, base, k, l, i, j);
        }
      }
    }
  }

  /** The main promise to clients: payloads of live pointers are aligned, lie
      inside their block, and meet neither each other nor any header nor any
      offset byte. */
  lemma PayloadsApart(blocks: seq<Block>, base: nat, p: nat, i: nat, j: nat, q: nat, k: nat, l: nat)
    requires Layout(blocks, base) && LiveAt(blocks, p, i, j) && LiveAt(blocks, q, k, l)
    ensures p % ALIGNMENT == 0 && blocks[i].at + HEADER <= p && p + blocks[i].cells[j].req <= BlockEnd(blocks[i])
    ensures p != q ==> p + blocks[i].cells[j].req <= q || q + blocks[k].cells[l].req <= p
    ensures var h := blocks[k].cells[l].at; h + HEADER <= p || p + blocks[i].cells[j].req <= h
    ensures !(p <= q - ALIGN_INFO < p + blocks[i].cells[j].req)
    ensures i != k ==> blocks[k].at + HEADER <= p || p + blocks[i].cells[j].req <= blocks[k].at
  {
    assert BlockWf(blocks[i], base) && BlockWf(blocks[k], base);
    PayloadInside(blocks[i].cells[j]);
    PayloadInside(blocks[k].cells[l]);
    CellInside(blocks[i], j);
    if (i, j) != (k, l) {
      CellsDisjoint(blocks, base, i, j, k, l);
    }
    if i != k {
      assert Disjoint(blocks[i], blocks[k]);
      DisjointExtents(blocks[i], blocks[k], base);
    }
  }

  /** What remains of a state when the n bytes from ptr on are overwritten:
      headers that these bytes touch may hold anything afterwards. */
  ghost predicate WrittenAt(s: State, s': State, ptr: nat, n: nat) {
    && (forall a: nat :: !(ptr <= a < ptr + n) ==> s'.bytes(a) == s.bytes(a))
    && (forall h :: h in s.minors && Spared(h, ptr, n) ==> h in s'.minors && s'.minors[h] == s.minors[h])
    && (forall h :: h in s.majors && Spared(h, ptr, n) ==> h in s'.majors && s'.majors[h] == s.majors[h])
    && s' == s.(bytes := s'.bytes, minors := s'.minors, majors := s'.majors)
  }

  /** The header at h lies beside the n bytes from ptr on. */
  predicate Spared(h: nat, ptr: nat, n: nat) { h + HEADER <= ptr || ptr + n <= h }

  /** Clients may write to the payloads of their live pointers: no header of a
      block or of a cell is touched, and no offset byte. */
  lemma ClientWrites(s: State, s': State, blocks: seq<Block>, base: nat, ptr: nat, i: nat, j: nat)
    requires Consistent(s, blocks, base) && LiveAt(blocks, ptr, i, j)
    requires WrittenAt(s, s', ptr, blocks[i].cells[j].req)
    ensures Consistent(s', blocks, base)
  {
    PayloadWrites(s.bytes, s'.bytes, blocks, base, ptr, i, j);
    forall k | 0 <= k < |blocks| ensures BlockOk(s'.majors, blocks, k) && CellsLinked(s'.minors, blocks[k]) {
      assert BlockOk(s.majors, blocks, k) && CellsLinked(s.minors, blocks[k]);
      BlockSpared(blocks, base, ptr, i, j, k);
      forall l | 0 <= l < |blocks[k].cells| ensures CellOk(s'.minors, blocks[k], l) {
        assert CellOk(s.minors, blocks[k], l);
        PayloadsApart(blocks, base, ptr, i, j, Pointer(blocks[k].cells[l].at), k, l);
      }
    }
  }

  lemma BlockSpared(blocks: seq<Block>, base: nat, ptr: nat, i: nat, j: nat, k: nat)
    requires Layout(blocks, base) && LiveAt(blocks, ptr, i, j) && k < |blocks|
    ensures Spared(blocks[k].at, ptr, blocks[i].cells[j].req)
  {
    PayloadsApart(blocks, base, ptr, i, j, ptr, i, j);
    if k != i {
      assert BlockWf(blocks[k], base) && BlockWf(blocks[i], base) && Disjoint(blocks[k], blocks[i]);
      DisjointExtents(blocks[k], blocks[i], base);
      PayloadInside(blocks[i].cells[j]);
      CellInside(blocks[i], j);
    }
  }

  // ---------- Pointers across a placement ----------

  /** Where a cell of the old list is found after another was stored. */
  ghost function ShiftedIndex(i: nat, g: nat, k: nat, l: nat): nat {
    if k == i && l >= g then l + 1 else l
  }

  /** Storing a cell keeps every live pointer live, with the same cell, and makes
      the new pointer live. */
  lemma StoredKeeps(old_: seq<Block>, used0: set<nat>, total: nat, fits: seq<bool>, start: nat, bs: seq<Block>,
                    i: nat, g: nat, size: nat, req: nat, p: nat, k: nat, l: nat)
    requires Settled(old_, used0, total, fits, start, bs, i, PagesFor(size)) && i < |bs| && g <= |bs[i].cells|
    requires LiveAt(old_, p, k, l)
    ensures var out, l' := Stored(bs, i, g, size, req), ShiftedIndex(i, g, k, l);
      && LiveAt(out, p, k, l') && out[k].cells[l'] == old_[k].cells[l]
      && LiveAt(out, Pointer(GapLo(bs[i], g)), i, g) && out[i].cells[g] == Cell(GapLo(bs[i], g), size, req)
      && (k, l') != (i, g)
  {
    assert bs[k] == old_[k];
  }

  /** What a pointer passed back to the heap may be: null, the pointer of a
      live cell, or one freed before. */
  datatype Held = Nothing | InCell(i: nat, j: nat) | Gone

  ghost predicate HeldIs(s: State, blocks: seq<Block>, ptr: nat, held: Held) {
    match held
    case Nothing => ptr == 0
    case InCell(i, j) => LiveAt(blocks, ptr, i, j)
    case Gone => DeadIn(s, blocks, ptr)
  }

  /** The cell a live pointer belongs to. */
  ghost function CellOf(blocks: seq<Block>, held: Held): Cell {
    if held.InCell? && held.i < |blocks| && held.j < |blocks[held.i].cells| then blocks[held.i].cells[held.j]
    else Cell(0, 0, 0)
  }

  lemma NullIsNothing(s: State, blocks: seq<Block>, ptr: nat, held: Held)
    requires HeldIs(s, blocks, ptr, held)
    ensures ptr == 0 <==> held == Nothing
  {
  }

  lemma HeldReads(s: State, blocks: seq<Block>, base: nat, ptr: nat, held: Held)
    requires Consistent(s, blocks, base) && HeldIs(s, blocks, ptr, held) && held != Nothing
    ensures ptr >= ALIGNMENT + ALIGN_INFO + HEADER && s.bytes(ptr - ALIGN_INFO) < ALIGNMENT + ALIGN_INFO
    ensures var h := ptr - s.bytes(ptr - ALIGN_INFO) - HEADER;
      && h in s.minors && (s.minors[h].magic == if held == Gone then DEAD else MAGIC)
      && (held.InCell? ==> h == blocks[held.i].cells[held.j].at)
  {
    if held.InCell? { LiveReads(s, blocks, base, ptr, held.i, held.j); }
  }

  lemma LiveOffset(s: State, blocks: seq<Block>, i: nat, j: nat)
    requires AllOffsetsOk(s.bytes, blocks) && i < |blocks| && j < |blocks[i].cells|
    ensures OffsetOk(s.bytes, blocks[i].cells[j])
  {
    assert OffsetsOk(s.bytes, blocks[i]);
  }

  /** The lowest byte of the magic number is intact, as after a short overrun. */
  predicate LooksOverrun(magic: nat) { magic % 0x100 == MAGIC % 0x100 }

  lemma DeadIsNoOverrun(magic: nat)
    requires magic == DEAD
    ensures magic != MAGIC && !LooksOverrun(magic)
  {
  }

  /** The outcome of freeing the live pointer of cell j of block i: the cell is
      gone, its block too if that was the only cell, with exactly its pages; and
      otherwise the pointer is recognisably dead. */
  ghost predicate FreedFrom(s: State, s': State, old_: seq<Block>, blocks: seq<Block>, used0: set<nat>, used: set<nat>,
                            ptr: nat, i: nat, j: nat) {
    && Freed(old_, blocks, i, j) && s'.bestBet == BetAfter(old_, blocks, s.bestBet, i, j) && s'.bytes == s.bytes
    && used == (if |old_[i].cells| == 1 then used0 - PagesOf(old_[i]) else used0)
    && (|old_[i].cells| > 1 ==> DeadIn(s', blocks, ptr))
  }
}
