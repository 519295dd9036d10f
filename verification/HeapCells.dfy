/** The heap as its clients see it: a set of cells, each with a payload of bytes. */
module HeapCells {
  import opened Pmm
  import opened HeapLayout
  import opened HeapBlocks
  import opened HeapState

  ghost predicate CellAt(blocks: seq<Block>, i: nat, j: nat, c: Cell) {
    i < |blocks| && j < |blocks[i].cells| && blocks[i].cells[j] == c
  }

  /** The cells handed out and not yet freed. */
  ghost function Cells(blocks: seq<Block>): set<Cell> {
    set i, j | 0 <= i < |blocks| && 0 <= j < |blocks[i].cells| :: blocks[i].cells[j]
  }

  lemma CellFound(blocks: seq<Block>, c: Cell) returns (i: nat, j: nat)
    requires c in Cells(blocks)
    ensures CellAt(blocks, i, j, c)
  {
    i, j :| 0 <= i < |blocks| && 0 <= j < |blocks[i].cells| && blocks[i].cells[j] == c;
  }

  /** Different cells do not overlap, so no two have the same pointer. */
  lemma CellsSeparate(blocks: seq<Block>, base: nat, c: Cell, d: Cell)
    requires Layout(blocks, base) && c in Cells(blocks) && d in Cells(blocks) && c != d
    ensures CellEnd(c) <= d.at || CellEnd(d) <= c.at
  {
    var i, j := CellFound(blocks, c);
    var k, l := CellFound(blocks, d);
    CellsDisjoint(blocks, base, i, j, k, l);
  }

  lemma CellSized(blocks: seq<Block>, base: nat, c: Cell)
    requires Layout(blocks, base) && c in Cells(blocks)
    ensures c.at > 0 && c.req + ALIGNMENT + ALIGN_INFO <= c.size && CellEnd(c) <= LIMIT
  {
    var i, j := CellFound(blocks, c);
    assert BlockWf(blocks[i], base);
    CellInside(blocks[i], j);
  }

  lemma CellsWith(blocks: seq<Block>, i: nat, g: nat, c: Cell)
    requires i < |blocks| && g <= |blocks[i].cells|
    ensures Cells(blocks[i := WithCell(blocks[i], g, c)]) == Cells(blocks) + {c}
  {
    var out := blocks[i := WithCell(blocks[i], g, c)];
    forall d | d in Cells(out) ensures d in Cells(blocks) + {c} {
      var k, l := CellFound(out, d);
      if (k, l) != (i, g) {
        assert CellAt(blocks, k, if k == i && l > g then l - 1 else l, d);
      }
    }
    forall d | d in Cells(blocks) ensures d in Cells(out) {
      var k, l := CellFound(blocks, d);
      assert CellAt(out, k, if k == i && l >= g then l + 1 else l, d);
    }
    assert CellAt(out, i, g, c);
  }

  lemma CellsOut(blocks: seq<Block>, base: nat, i: nat, j: nat)
    requires Layout(blocks, base) && i < |blocks| && j < |blocks[i].cells|
    ensures Cells(blocks[i := WithoutCell(blocks[i], j)]) == Cells(blocks) - {blocks[i].cells[j]}
  {
    var out, c := blocks[i := WithoutCell(blocks[i], j)], blocks[i].cells[j];
    forall d | d in Cells(out) ensures d in Cells(blocks) && d != c {
      var k, l := CellFound(out, d);
      var l' := if k == i && l >= j then l + 1 else l;
      assert CellAt(blocks, k, l', d);
      CellsDisjoint(blocks, base, i, j, k, l');
    }
    forall d | d in Cells(blocks) && d != c ensures d in Cells(out) {
      var k, l := CellFound(blocks, d);
      assert CellAt(out, k, if k == i && l > j then l - 1 else l, d);
    }
  }

  /** An empty block holds no cell. */
  lemma CellsDropped(blocks: seq<Block>, i: nat)
    requires i < |blocks| && blocks[i].cells == []
    ensures Cells(Without(blocks, i)) == Cells(blocks)
  {
    var rest := Without(blocks, i);
    forall d | d in Cells(rest) ensures d in Cells(blocks) {
      var k, l := CellFound(rest, d);
      assert CellAt(blocks, if k < i then k else k + 1, l, d);
    }
    forall d | d in Cells(blocks) ensures d in Cells(rest) {
      var k, l := CellFound(blocks, d);
      assert CellAt(rest, if k < i then k else k - 1, l, d);
    }
  }

  /** Freeing takes exactly one cell out of the set. */
  lemma FreedCells(old_: seq<Block>, blocks: seq<Block>, base: nat, i: nat, j: nat)
    requires Layout(old_, base) && Freed(old_, blocks, i, j)
    ensures Cells(blocks) == Cells(old_) - {old_[i].cells[j]}
  {
    CellsOut(old_, base, i, j);
    if |old_[i].cells| == 1 {
      var mid := old_[i := WithoutCell(old_[i], j)];
      assert Without(mid, i) == Without(old_, i);
      CellsDropped(mid, i);
    }
  }

  /** Allocating adds exactly one cell, which is a new one. */
  lemma StoredCells(old_: seq<Block>, used0: set<nat>, total: nat, fits: seq<bool>, start: nat, bs: seq<Block>,
                    i: nat, g: nat, size: nat, req: nat, base: nat)
    requires Settled(old_, used0, total, fits, start, bs, i, PagesFor(size)) && i < |bs| && g <= |bs[i].cells|
    requires Layout(Stored(bs, i, g, size, req), base)
    ensures Cells(Stored(bs, i, g, size, req)) == Cells(old_) + {Cell(GapLo(bs[i], g), size, req)}
    ensures Cell(GapLo(bs[i], g), size, req) !in Cells(old_)
  {
    var c, out := Cell(GapLo(bs[i], g), size, req), Stored(bs, i, g, size, req);
    CellsWith(bs, i, g, c);
    if bs != old_ {
      assert Without(bs, |old_|) == old_;
      CellsDropped(bs, |old_|);
    }
    if c in Cells(bs) {
      var k, l := CellFound(bs, c);
      var l' := ShiftedIndex(i, g, k, l);
      assert CellAt(out, k, l', c) && CellAt(out, i, g, c);
      CellsDisjoint(out, base, i, g, k, l');
    }
  }

  // ---------- Payload bytes ----------

  ghost predicate InPayload(c: Cell, a: nat) { Pointer(c.at) <= a < Pointer(c.at) + c.req }

  ghost predicate SamePayload(bytes: Bytes, bytes': Bytes, c: Cell) {
    forall a: nat :: InPayload(c, a) ==> bytes'(a) == bytes(a)
  }

  /** The payload of every cell of the set is unchanged. */
  ghost predicate PayloadsKept(bytes: Bytes, bytes': Bytes, cells: set<Cell>) {
    forall c :: c in cells ==> SamePayload(bytes, bytes', c)
  }

  /** bytes' is bytes but for writes inside cell d. */
  ghost predicate WrittenInside(bytes: Bytes, bytes': Bytes, d: Cell) {
    forall a: nat :: !(d.at <= a < CellEnd(d)) ==> bytes'(a) == bytes(a)
  }

  /** What is written inside one cell does not reach the payload of any other. */
  lemma OthersKept(bytes: Bytes, bytes': Bytes, blocks: seq<Block>, base: nat, d: Cell)
    requires Layout(blocks, base) && d in Cells(blocks) && WrittenInside(bytes, bytes', d)
    ensures PayloadsKept(bytes, bytes', Cells(blocks) - {d})
  {
    forall c | c in Cells(blocks) - {d} ensures SamePayload(bytes, bytes', c) {
      CellsSeparate(blocks, base, c, d);
      CellSized(blocks, base, c);
    }
  }

  /** What a client keeps across an allocation: its pointer stays live, for the
      same cell c, now cell l of block i; the new cell d is another one. */
  lemma StoredPointers(old_: seq<Block>, used0: set<nat>, total: nat, fits: seq<bool>, start: nat, bs: seq<Block>,
                       k: nat, g: nat, d: Cell, blocks: seq<Block>, base: nat, ptr: nat, i: nat, j: nat)
    returns (l: nat)
    requires Settled(old_, used0, total, fits, start, bs, k, PagesFor(d.size)) && k < |bs| && g <= |bs[k].cells|
    requires d.at == GapLo(bs[k], g) && blocks == bs[k := WithCell(bs[k], g, d)] && Layout(blocks, base) &&
             LiveAt(old_, ptr, i, j)
    ensures LiveAt(blocks, ptr, i, l) && LiveAt(blocks, Pointer(d.at), k, g) && blocks[k].cells[g] == d
    ensures blocks[i].cells[l] == old_[i].cells[j] && old_[i].cells[j] in Cells(old_)
    ensures Cells(blocks) == Cells(old_) + {d} && d !in Cells(old_)
  {
    assert blocks == Stored(bs, k, g, d.size, d.req);
    StoredKeeps(old_, used0, total, fits, start, bs, k, g, d.size, d.req, ptr, i, j);
    StoredCells(old_, used0, total, fits, start, bs, k, g, d.size, d.req, base);
    l := ShiftedIndex(k, g, i, j);
    assert CellAt(old_, i, j, old_[i].cells[j]);
  }

  lemma PayloadsDisjoint(blocks: seq<Block>, base: nat, c: Cell, d: Cell)
    requires Layout(blocks, base) && c in Cells(blocks) && d in Cells(blocks) && c != d
    ensures Pointer(c.at) + c.req <= d.at || CellEnd(d) <= Pointer(c.at)
    ensures Pointer(d.at) + d.req <= CellEnd(d)
  {
    CellsSeparate(blocks, base, c, d);
    CellSized(blocks, base, c);
    CellSized(blocks, base, d);
  }

  ghost predicate CopiedAt(bytes: Bytes, bytes': Bytes, dst: nat, src: nat, n: nat, a: nat) {
    bytes'(a) == bytes(if dst <= a < dst + n then src + (a - dst) else a)
  }

  /** bytes' is bytes with n bytes from src copied to dst. */
  ghost predicate CopiedTo(bytes: Bytes, bytes': Bytes, dst: nat, src: nat, n: nat) {
    forall a: nat :: CopiedAt(bytes, bytes', dst, src, n, a)
  }

  lemma CopiedNone(bytes: Bytes, dst: nat, src: nat)
    ensures CopiedTo(bytes, bytes, dst, src, 0)
  {
  }

  /** One more byte copied. */
  lemma CopiedMore(bytes: Bytes, before: Bytes, bytes': Bytes, dst: nat, src: nat, n: nat)
    requires CopiedTo(bytes, before, dst, src, n) && (dst + n < src || src + n < dst)
    requires forall a: nat :: bytes'(a) == if a == dst + n then before(src + n) else before(a)
    ensures CopiedTo(bytes, bytes', dst, src, n + 1)
  {
    assert CopiedAt(bytes, before, dst, src, n, src + n);
    var m := n + 1;
    forall a: nat ensures CopiedAt(bytes, bytes', dst, src, m, a) {
      assert CopiedAt(bytes, before, dst, src, n, a);
    }
  }

  /** The n bytes at src in bytes are those at dst in bytes'. */
  ghost predicate Carried(bytes: Bytes, bytes': Bytes, dst: nat, src: nat, n: nat) {
    forall a: nat :: src <= a < src + n ==> bytes'(dst + (a - src)) == bytes(a)
  }

  /** Writing d's offset byte and copying the payload of c to it changes no
      payload but d's own. */
  lemma CopyFacts(blocks: seq<Block>, base: nat, c: Cell, d: Cell, bytes0: Bytes, bytes1: Bytes, bytes2: Bytes)
    requires Layout(blocks, base) && c in Cells(blocks) && d in Cells(blocks) && c != d && c.req <= d.req
    requires forall a: nat :: a != OffsetAt(d.at) ==> bytes1(a) == bytes0(a)
    requires CopiedTo(bytes1, bytes2, Pointer(d.at), Pointer(c.at), c.req)
    ensures PayloadsKept(bytes0, bytes2, Cells(blocks) - {d})
    ensures Carried(bytes0, bytes2, Pointer(d.at), Pointer(c.at), c.req)
  {
    PayloadsDisjoint(blocks, base, c, d);
    CellSized(blocks, base, d);
    PayloadInside(d);
    var dst, src := Pointer(d.at), Pointer(c.at);
    forall a: nat | !(d.at <= a < CellEnd(d)) ensures bytes2(a) == bytes0(a) {
      assert CopiedAt(bytes1, bytes2, dst, src, c.req, a);
    }
    forall a: nat | src <= a < src + c.req ensures bytes2(dst + (a - src)) == bytes0(a) {
      assert CopiedAt(bytes1, bytes2, dst, src, c.req, dst + (a - src));
    }
    OthersKept(bytes0, bytes2, blocks, base, d);
  }

  lemma CopyIsPayloadWrite(bytes: Bytes, bytes': Bytes, blocks: seq<Block>, base: nat, p: nat, ptr: nat, n: nat,
                           k: nat, g: nat)
    requires Layout(blocks, base) && AllOffsetsOk(bytes, blocks) && LiveAt(blocks, p, k, g) &&
             n <= blocks[k].cells[g].req
    requires CopiedTo(bytes, bytes', p, ptr, n)
    ensures AllOffsetsOk(bytes', blocks)
  {
    forall a: nat | !(p <= a < p + blocks[k].cells[g].req) ensures bytes'(a) == bytes(a) {
      assert CopiedAt(bytes, bytes', p, ptr, n, a);
    }
    PayloadWrites(bytes, bytes', blocks, base, p, k, g);
  }

  // ---------- What the calls do to the set of cells ----------

  /** kmalloc: one new cell, and no byte of another's payload is touched. */
  ghost predicate Allocated(old_: seq<Block>, blocks: seq<Block>, bytes: Bytes, bytes': Bytes, d: Cell, p: nat,
                            size: nat) {
    && d.req == size && p == Pointer(d.at)
    && d !in Cells(old_) && Cells(blocks) == Cells(old_) + {d} && PayloadsKept(bytes, bytes', Cells(old_))
  }

  lemma AllocatedCell(old_: seq<Block>, used0: set<nat>, total: nat, fits: seq<bool>, start: nat, bs: seq<Block>,
                      k: nat, g: nat, d: Cell, blocks: seq<Block>, base: nat, bytes: Bytes, bytes': Bytes)
    requires Settled(old_, used0, total, fits, start, bs, k, PagesFor(d.size)) && k < |bs| && g <= |bs[k].cells|
    requires d.at == GapLo(bs[k], g) && blocks == bs[k := WithCell(bs[k], g, d)] && Layout(blocks, base)
    requires forall a: nat :: a != OffsetAt(d.at) ==> bytes'(a) == bytes(a)
    ensures Allocated(old_, blocks, bytes, bytes', d, Pointer(d.at), d.req)
  {
    assert blocks == Stored(bs, k, g, d.size, d.req);
    StoredCells(old_, used0, total, fits, start, bs, k, g, d.size, d.req, base);
    CellSized(blocks, base, d);
    PayloadInside(d);
    assert WrittenInside(bytes, bytes', d);
    OthersKept(bytes, bytes', blocks, base, d);
    assert Cells(blocks) - {d} == Cells(old_);
  }

  /** krealloc of the pointer of cell c: cell d takes its place, which is c
      itself for a request that is not bigger, and a new cell otherwise; the
      bytes up to the smaller of the two requests are the same. */
  ghost predicate MovedTo(old_: seq<Block>, blocks: seq<Block>, bytes: Bytes, bytes': Bytes, c: Cell, d: Cell, p: nat,
                          size: nat) {
    && d.req == size && p == Pointer(d.at)
    && Cells(blocks) == Cells(old_) - {c} + {d} && PayloadsKept(bytes, bytes', Cells(old_) - {c})
    && Carried(bytes, bytes', p, Pointer(c.at), if c.req < size then c.req else size)
    && if size <= c.req then d == c.(req := size) else d !in Cells(old_)
  }

  // ---------- What the calls do to the pages in use ----------

  /** kmalloc takes pages only when no gap of any block holds the cell: then the
      lowest run of free pages that is long enough. */
  ghost predicate PagesAfterMalloc(old_: seq<Block>, used0: set<nat>, used: set<nat>, total: nat, req: nat) {
    var size := req + ALIGNMENT + ALIGN_INFO;
    if true in Fitting(old_, HEADER + size) then used == used0
    else exists q: nat :: LowestRun(used0, total, q, PagesFor(size)) && used == used0 + PageRange(q, PagesFor(size))
  }

  lemma MallocPages(old_: seq<Block>, used0: set<nat>, used: set<nat>, reserved: set<nat>, total: nat,
                    fits: seq<bool>, start: nat,
                    bs: seq<Block>, i: nat, g: nat, d: Cell, blocks: seq<Block>, req: nat)
    requires d.size == req + ALIGNMENT + ALIGN_INFO && fits == Fitting(old_, HEADER + d.size)
    requires Settled(old_, used0, total, fits, start, bs, i, PagesFor(d.size)) && i < |bs| && g <= |bs[i].cells|
    requires blocks == bs[i := WithCell(bs[i], g, d)]
    requires Owns(used0, reserved, old_) && Owns(used, reserved, blocks)
    ensures PagesAfterMalloc(old_, used0, used, total, req)
  {
    PagesAt(bs, i);
    PagesAt(blocks, i);
    assert Without(blocks, i) == Without(bs, i);
    assert HeapPages(blocks) == HeapPages(bs);
    if bs != old_ {
      var b := bs[|old_|];
      PagesSplit(old_, [b]);
      assert HeapPages([b]) == PagesOf(b);
      var n := PagesFor(req + ALIGNMENT + ALIGN_INFO);
      assert bs == old_ + [b] && b.pages == n;
      assert LowestRun(used0, total, b.page, n) && used == used0 + PageRange(b.page, n);
      assert true !in Fitting(old_, HEADER + d.size);
    } else {
      assert fits[i] && true in fits;
    }
  }

  /** The cell lies in the block. */
  ghost predicate InBlock(b: Block, d: Cell) { b.at <= d.at < BlockEnd(b) }

  /** krealloc of a cell of block i that moves to cell d: the pages of the block
      go back if it held nothing else and d is not in it. */
  ghost predicate PagesAfterMove(old_: seq<Block>, used0: set<nat>, used: set<nat>, total: nat, i: nat, d: Cell,
                                 req: nat)
    requires i < |old_|
  {
    exists mid: set<nat> :: PagesAfterMalloc(old_, used0, mid, total, req) && used == mid - PagesLeft(old_[i], d)
  }

  ghost function PagesLeft(b: Block, d: Cell): set<nat> { if |b.cells| == 1 && !InBlock(b, d) then PagesOf(b) else {} }

  /** The pages that go back when a cell of the block is freed. */
  ghost function PagesGone(b: Block): set<nat> { if |b.cells| == 1 then PagesOf(b) else {} }

  /** Block i after cell d was stored: it has one cell more exactly if d lies in it. */
  lemma BlockAfterStore(old_: seq<Block>, used0: set<nat>, total: nat, fits: seq<bool>, start: nat, bs: seq<Block>,
                        k: nat, g: nat, d: Cell, blocks: seq<Block>, base: nat, i: nat)
    requires Settled(old_, used0, total, fits, start, bs, k, PagesFor(d.size)) && k < |bs| && g <= |bs[k].cells|
    requires blocks == bs[k := WithCell(bs[k], g, d)] && Layout(blocks, base) && i < |old_|
    ensures |blocks[i].cells| == |old_[i].cells| + (if InBlock(old_[i], d) then 1 else 0) &&
            PagesOf(blocks[i]) == PagesOf(old_[i])
  {
    assert bs[i] == old_[i] && BlockWf(blocks[k], base) && BlockWf(blocks[i], base);
    assert blocks[k].cells[g] == d;
    CellInside(blocks[k], g);
    if i != k {
      assert Disjoint(blocks[i], blocks[k]);
      DisjointExtents(blocks[i], blocks[k], base);
    }
  }

  // ---------- A smaller request ----------

  ghost function Resized(b: Block, j: nat, req: nat): Block
    requires j < |b.cells|
  {
    b.(cells := b.cells[j := b.cells[j].(req := req)])
  }

  lemma {:induction false} ResizedSums(cells: seq<Cell>, j: nat, req: nat)
    requires j < |cells|
    ensures var c := cells[j := cells[j].(req := req)]; Taken(c) == Taken(cells) && InUse(c) == InUse(cells)
  {
    var c := cells[j := cells[j].(req := req)];
    if j == 0 {
      assert c[1..] == cells[1..];
    } else {
      ResizedSums(cells[1..], j - 1, req);
      assert c[1..] == cells[1..][j - 1 := cells[j].(req := req)];
    }
  }

  lemma ResizedWf(b: Block, base: nat, j: nat, req: nat)
    requires BlockWf(b, base) && j < |b.cells| && req <= b.cells[j].req
    ensures BlockWf(Resized(b, j, req), base) && Usage(Resized(b, j, req)) == Usage(b) &&
            CellBytes(Resized(b, j, req)) == CellBytes(b)
    ensures FirstAt(Resized(b, j, req).cells) == FirstAt(b.cells)
  {
    var r := Resized(b, j, req);
    ResizedSums(b.cells, j, req);
    forall g | 0 <= g <= |r.cells| ensures GapLo(r, g) <= GapHi(r, g) {
      assert GapLo(b, g) <= GapHi(b, g);
    }
  }

  lemma ResizedHeaders(m: map<nat, Minor>, m': map<nat, Minor>, b: Block, j: nat, req: nat)
    requires CellsLinked(m, b) && Packed(b) && j < |b.cells|
    requires b.cells[j].at in m && m' == m[b.cells[j].at := m[b.cells[j].at].(req := req)]
    ensures CellsLinked(m', Resized(b, j, req)) && SameOutside(m, m', b.at, BlockEnd(b))
  {
    var r := Resized(b, j, req);
    CellInside(b, j);
    forall k | 0 <= k < |r.cells| ensures CellOk(m', r, k) {
      assert CellOk(m, b, k);
      if k != j { CellsApart(b, j, k); }
    }
  }

  lemma ResizedOffsets(bytes: Bytes, blocks: seq<Block>, i: nat, j: nat, req: nat)
    requires AllOffsetsOk(bytes, blocks) && i < |blocks| && j < |blocks[i].cells|
    ensures AllOffsetsOk(bytes, blocks[i := Resized(blocks[i], j, req)])
  {
    var bs := blocks[i := Resized(blocks[i], j, req)];
    forall k | 0 <= k < |bs| ensures OffsetsOk(bytes, bs[k]) {
      assert OffsetsOk(bytes, blocks[k]);
      forall l | 0 <= l < |bs[k].cells| ensures OffsetOk(bytes, bs[k].cells[l]) {
        assert OffsetOk(bytes, blocks[k].cells[l]);
      }
    }
  }

  /** Recording a smaller request keeps the heap consistent. */
  lemma ResizedConsistent(s: State, blocks: seq<Block>, base: nat, i: nat, j: nat, req: nat)
    requires Consistent(s, blocks, base) && i < |blocks| && j < |blocks[i].cells| && req <= blocks[i].cells[j].req
    requires var at := blocks[i].cells[j].at; at in s.minors
    ensures var at := blocks[i].cells[j].at;
      Consistent(s.(minors := s.minors[at := s.minors[at].(req := req)]), blocks[i := Resized(blocks[i], j, req)], base)
  {
    var b, b' := blocks[i], Resized(blocks[i], j, req);
    var at := b.cells[j].at;
    var m' := s.minors[at := s.minors[at].(req := req)];
    assert BlockWf(b, base) && CellsLinked(s.minors, b) && BlockOk(s.majors, blocks, i);
    ResizedWf(b, base, j, req);
    ResizedHeaders(s.minors, m', b, j, req);
    OthersLinked(s.minors, m', blocks, base, i, b');
    assert s.majors == s.majors[b'.at := s.majors[b'.at].(usage := Usage(b'), first := FirstAt(b'.cells))];
    BlockRelinked(s.majors, s.majors, blocks, base, i, b');
    LayoutUpdated(blocks, base, i, b');
    ResizedOffsets(s.bytes, blocks, i, j, req);
    SumUpdated(BlockSize, blocks, i, b');
    SumUpdated(CellBytes, blocks, i, b');
    ListedUpdated(blocks, i, b');
  }

  lemma ResizedCells(blocks: seq<Block>, base: nat, i: nat, j: nat, req: nat)
    requires Layout(blocks, base) && i < |blocks| && j < |blocks[i].cells|
    ensures var c := blocks[i].cells[j];
      Cells(blocks[i := Resized(blocks[i], j, req)]) == Cells(blocks) - {c} + {c.(req := req)}
  {
    var bs, c := blocks[i := Resized(blocks[i], j, req)], blocks[i].cells[j];
    assert bs[i].cells[j] == c.(req := req);
    forall d | d in Cells(bs) ensures d in Cells(blocks) - {c} + {c.(req := req)} {
      var k, l := CellFound(bs, d);
      if (k, l) != (i, j) {
        assert CellAt(blocks, k, l, d);
        CellsDisjoint(blocks, base, i, j, k, l);
      }
    }
    forall d | d in Cells(blocks) - {c} ensures d in Cells(bs) {
      var k, l := CellFound(blocks, d);
      assert CellAt(bs, k, l, d);
    }
    assert CellAt(bs, i, j, c.(req := req));
  }
}
