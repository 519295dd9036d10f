/** The kernel heap itself: header records in memory, changed field by field. */
module KernelHeap {
  import opened Pmm
  import opened HeapLayout
  import opened HeapBlocks
  import opened HeapState
  import opened HeapCells
  import opened HeapBet

  class Heap {
    const base: nat
    const pmm: PageMap
    var majors: map<nat, Major>
    var minors: map<nat, Minor>
    var bytes: Bytes
    var memRoot: nat
    var bestBet: nat
    var allocatedBytes: nat
    var inuseBytes: nat
    var warnings: nat
    var errors: nat
    var overruns: nat

    ghost var blocks: seq<Block>
    ghost var reserved: set<nat>

    ghost function Now(): State
      reads `majors, `minors, `bytes, `memRoot, `bestBet, `allocatedBytes, `inuseBytes
    {
      State(majors, minors, bytes, memRoot, bestBet, allocatedBytes, inuseBytes)
    }

    /** The pages in use are those of the listed blocks and those of other owners. */
    ghost predicate OwnsPages()
      reads `blocks, `reserved, pmm, pmm.bitmap
    {
      && pmm.Valid() && base > 0 && base + pmm.totalPages * PAGE_SIZE <= LIMIT
      && Owns(pmm.Used(), reserved, blocks)
    }

    ghost predicate Rep()
      reads `majors, `minors, `bytes, `memRoot, `bestBet, `allocatedBytes, `inuseBytes, `blocks, `reserved, pmm,
            pmm.bitmap
    {
      Consistent(Now(), blocks, base) && OwnsPages()
    }

    /** Between calls no listed block is empty. */
    ghost predicate Valid()
      reads `majors, `minors, `bytes, `memRoot, `bestBet, `allocatedBytes, `inuseBytes, `blocks, `reserved, pmm,
            pmm.bitmap
    {
      Rep() && forall i :: 0 <= i < |blocks| ==> blocks[i].cells != []
    }

    constructor (base: nat, pmm: PageMap)
      requires pmm.Valid() && base > 0 && base + pmm.totalPages * PAGE_SIZE <= LIMIT
      ensures Valid() && blocks == [] && reserved == pmm.Used() && this.base == base && this.pmm == pmm
    {
      this.base := base;
      this.pmm := pmm;
      majors, minors, bytes := map[], map[], a => 0;
      memRoot, bestBet, allocatedBytes, inuseBytes := 0, 0, 0, 0;
      warnings, errors, overruns := 0, 0, 0;
      blocks, reserved := [], pmm.Used();
    }

    /** The ALIGN macro: moves p to the next boundary and hides the distance in front of it. */
    method Align(p0: nat) returns (p: nat)
      requires p0 >= HEADER
      modifies this`bytes
      ensures p == Pointer(p0 - HEADER)
      ensures forall a: nat ::
                bytes(a) == if a == OffsetAt(p0 - HEADER) then Pad(p0 - HEADER) + ALIGN_INFO else old(bytes)(a)
    {
      p := p0 + ALIGN_INFO;
      var diff := p % ALIGNMENT;
      if diff != 0 {
        diff := ALIGNMENT - diff;
        p := p + diff;
      }
      var before, slot := bytes, p - ALIGN_INFO;
      bytes := (a: nat) => if a == slot then diff + ALIGN_INFO else before(a);
    }

    /** CASE 2: the first cell of an empty block. */
    method PlaceFirst(maj: nat, size: nat, req: nat, ghost i: nat) returns (p: nat)
      requires i < |blocks| && maj == blocks[i].at && BlockOk(majors, blocks, i) && blocks[i].cells == []
      modifies this`majors, this`minors, this`bytes, this`inuseBytes
      ensures Placed(old(Now()), Now(), blocks, i, 0, Cell(GapLo(blocks[i], 0), size, req))
      ensures p == Pointer(GapLo(blocks[i], 0))
    {
      assert BlockOk(majors, blocks, i);
      var first := maj + HEADER;
      majors := majors[maj := majors[maj].(first := first)];
      minors := minors[first := Minor(0, 0, maj, MAGIC, size, req)];
      majors := majors[maj := majors[maj].(usage := majors[maj].usage + size + HEADER)];
      inuseBytes := inuseBytes + size;
      p := Align(first + HEADER);
    }

    /** CASE 3: room in front of the first cell. */
    method PlaceFront(maj: nat, size: nat, req: nat, ghost i: nat) returns (p: nat)
      requires i < |blocks| && maj == blocks[i].at && BlockOk(majors, blocks, i) && blocks[i].cells != []
      requires CellOk(minors, blocks[i], 0) && Fits(blocks[i], 0, HEADER + size)
      modifies this`majors, this`minors, this`bytes, this`inuseBytes
      ensures Placed(old(Now()), Now(), blocks, i, 0, Cell(GapLo(blocks[i], 0), size, req))
      ensures p == Pointer(GapLo(blocks[i], 0))
    {
      var old1 := majors[maj].first;
      var n := maj + HEADER;
      minors := minors[old1 := minors[old1].(prev := n)];
      majors := majors[maj := majors[maj].(first := n)];
      minors := minors[n := Minor(0, old1, maj, MAGIC, size, req)];
      majors := majors[maj := majors[maj].(usage := majors[maj].usage + size + HEADER)];
      inuseBytes := inuseBytes + size;
      p := Align(n + HEADER);
    }

    /** CASE 4.1: room behind the last cell. */
    method PlaceBehind(maj: nat, min: nat, size: nat, req: nat, ghost i: nat) returns (p: nat)
      requires i < |blocks| && maj == blocks[i].at && BlockOk(majors, blocks, i) && blocks[i].cells != []
      requires CellOk(minors, blocks[i], |blocks[i].cells| - 1)
      requires min == blocks[i].cells[|blocks[i].cells| - 1].at
      modifies this`majors, this`minors, this`bytes, this`inuseBytes
      ensures Placed(old(Now()), Now(), blocks, i, |blocks[i].cells|,
                     Cell(GapLo(blocks[i], |blocks[i].cells|), size, req))
      ensures p == Pointer(GapLo(blocks[i], |blocks[i].cells|))
    {
      var n := min + HEADER + minors[min].size;
      minors := minors[min := minors[min].(next := n)];
      minors := minors[n := Minor(min, 0, maj, MAGIC, size, req)];
      majors := majors[maj := majors[maj].(usage := majors[maj].usage + size + HEADER)];
      inuseBytes := inuseBytes + size;
      p := Align(n + HEADER);
    }

    /** A new header n between those of min and next. */
    method LinkBetween(n: nat, min: nat, next: nat, header: Minor)
      requires min in minors && next in minors && min < n < next
      modifies this`minors
      ensures var m := old(minors);
        minors == m[n := header][next := m[next].(prev := n)][min := m[min].(next := n)]
    {
      minors := minors[n := header];
      minors := minors[next := minors[next].(prev := n)];
      minors := minors[min := minors[min].(next := n)];
    }

    /** CASE 4.2: room between two cells. */
    method PlaceBetween(maj: nat, min: nat, size: nat, req: nat, ghost i: nat, ghost j: nat) returns (p: nat)
      requires i < |blocks| && maj == blocks[i].at && BlockOk(majors, blocks, i) && j + 1 < |blocks[i].cells|
      requires CellOk(minors, blocks[i], j) && CellOk(minors, blocks[i], j + 1) &&
               blocks[i].cells[j].at < blocks[i].cells[j + 1].at
      requires min == blocks[i].cells[j].at && Fits(blocks[i], j + 1, HEADER + size)
      modifies this`majors, this`minors, this`bytes, this`inuseBytes
      ensures Placed(old(Now()), Now(), blocks, i, j + 1, Cell(GapLo(blocks[i], j + 1), size, req))
      ensures p == Pointer(GapLo(blocks[i], j + 1))
    {
      var n := min + HEADER + minors[min].size;
      var next := minors[min].next;
      LinkBetween(n, min, next, Minor(min, next, maj, MAGIC, size, req));
      majors := majors[maj := majors[maj].(usage := majors[maj].usage + size + HEADER)];
      inuseBytes := inuseBytes + size;
      p := Align(n + HEADER);
    }

    /** CASES 4.1 and 4.2: the gap behind cell j, if it has room. */
    method PlaceAfter(maj: nat, min: nat, size: nat, req: nat, ghost i: nat, ghost j: nat) returns (p: nat)
      requires Consistent(Now(), blocks, base) && i < |blocks| && maj == blocks[i].at
      requires j < |blocks[i].cells| && min == blocks[i].cells[j].at
      modifies this`majors, this`minors, this`bytes, this`inuseBytes
      ensures p == 0 ==> Now() == old(Now()) && !Fits(blocks[i], j + 1, HEADER + size)
      ensures p != 0 ==>
                && Fits(blocks[i], j + 1, HEADER + size) && p == Pointer(GapLo(blocks[i], j + 1))
                && Placed(old(Now()), Now(), blocks, i, j + 1, Cell(GapLo(blocks[i], j + 1), size, req))
    {
      BlockReads(Now(), blocks, base, i);
      CellReads(Now(), blocks, base, i, j);
      p := 0;
      if minors[min].next == 0 {
        LastCell(blocks[i], j);
        var diff := maj + majors[maj].size - min - HEADER - minors[min].size;
        if diff >= size + HEADER {
          p := PlaceBehind(maj, min, size, req, i);
          return;
        }
      }
      if minors[min].next != 0 {
        CellReads(Now(), blocks, base, i, j + 1);
        var diff := minors[min].next - min - HEADER - minors[min].size;
        if diff >= size + HEADER {
          p := PlaceBetween(maj, min, size, req, i, j);
        }
      }
    }

    /** CASE 4: looks behind every cell for room, in address order. */
    method PlaceAmong(maj: nat, size: nat, req: nat, ghost i: nat) returns (p: nat, ghost g: nat)
      requires Consistent(Now(), blocks, base) && i < |blocks| && maj == blocks[i].at && blocks[i].cells != []
      requires !Fits(blocks[i], 0, HEADER + size)
      modifies this`majors, this`minors, this`bytes, this`inuseBytes
      ensures p == 0 ==> Now() == old(Now()) && !HasFit(blocks[i], HEADER + size)
      ensures p != 0 ==>
                && FirstFit(blocks[i], g, HEADER + size) && p == Pointer(GapLo(blocks[i], g))
                && Placed(old(Now()), Now(), blocks, i, g, Cell(GapLo(blocks[i], g), size, req))
    {
      ghost var b := blocks[i];
      g := 0;
      BlockReads(Now(), blocks, base, i);
      var min := majors[maj].first;
      while min != 0
        invariant g <= |b.cells| && min == NextAt(b, g) && NoFitBelow(b, g + 1, HEADER + size)
        invariant Now() == old(Now()) && (min == 0 ==> g == |b.cells|)
        decreases |b.cells| - g
      {
        CellReads(Now(), blocks, base, i, g);
        p := PlaceAfter(maj, min, size, req, i, g);
        g := g + 1;
        if p != 0 {
          return;
        }
        NoFitStep(b, g, HEADER + size);
        min := minors[min].next;
        if g < |b.cells| { CellReads(Now(), blocks, base, i, g); }
      }
      p := 0;
    }

    /** CASES 2 to 4 for one block with enough free bytes: the lowest gap that
        holds the cell gets it; the result is 0 when there is none. */
    method PlaceInBlock(maj: nat, size: nat, req: nat, ghost i: nat) returns (p: nat, ghost g: nat)
      requires Consistent(Now(), blocks, base) && i < |blocks| && maj == blocks[i].at
      requires BlockSize(blocks[i]) - Usage(blocks[i]) >= HEADER + size
      modifies this`majors, this`minors, this`bytes, this`inuseBytes
      ensures p == 0 ==> Now() == old(Now()) && !HasFit(blocks[i], HEADER + size)
      ensures p != 0 ==>
                && FirstFit(blocks[i], g, HEADER + size) && p == Pointer(GapLo(blocks[i], g))
                && Placed(old(Now()), Now(), blocks, i, g, Cell(GapLo(blocks[i], g), size, req))
    {
      BlockReads(Now(), blocks, base, i);
      g := 0;
      if majors[maj].first == 0 {
        EmptyBlockFits(blocks[i], HEADER + size);
        p := PlaceFirst(maj, size, req, i);
        return;
      }
      CellReads(Now(), blocks, base, i, 0);
      var diff := majors[maj].first - maj - HEADER;
      if diff >= size + HEADER {
        p := PlaceFront(maj, size, req, i);
        return;
      }
      p, g := PlaceAmong(maj, size, req, i);
    }

    // ---------- New blocks ----------

    /** Obtains a run of pages that is big enough for a cell, and writes its header.
        The test for a null result is left out: the mapping offset is added
        before it, so it never fires. */
    method AllocateNewPage(size: nat) returns (maj: nat, ghost b: Block)
      requires OwnsPages() && HasRun(pmm.Used(), pmm.totalPages, PagesFor(size))
      modifies this`majors, this`allocatedBytes, pmm.bitmap
      ensures b == Block(maj, b.page, PagesFor(size), []) && BlockWf(b, base)
      ensures LowestRun(old(pmm.Used()), pmm.totalPages, b.page, b.pages) && PagesOf(b) !! old(pmm.Used())
      ensures pmm.Used() == old(pmm.Used()) + PagesOf(b)
      ensures majors == old(majors)[maj := FreshMajor(b)] && allocatedBytes == old(allocatedBytes) + BlockSize(b)
    {
      var st := size + HEADER;
      st := st + HEADER;
      if st % PAGE_SIZE == 0 {
        st := st / PAGE_SIZE;
      } else {
        st := st / PAGE_SIZE + 1;
      }
      if st < 16 {
        st := 16;
      }
      var address, first := pmm.AllocPages(st);
      maj := address + base;
      b := Block(maj, first, st, []);
      EmptyBlockWf(b, base);
      majors := majors[maj := Major(0, 0, st, st * PAGE_SIZE, HEADER, 0)];
      allocatedBytes := allocatedBytes + st * PAGE_SIZE;
    }

    /** Links the new block n behind the last block maj; s is the state before n was obtained. */
    method LinkLast(maj: nat, n: nat, ghost s: State, ghost b: Block)
      requires Consistent(s, blocks, base) && |blocks| > 0 && maj == blocks[|blocks| - 1].at
      requires BlockWf(b, base) && b.cells == [] && n == b.at && PagesOf(b) !! HeapPages(blocks)
      requires Now() == s.(majors := s.majors[n := FreshMajor(b)], allocatedBytes := s.allocatedBytes + BlockSize(b))
      modifies this`majors
      ensures Grown(s, Now(), blocks, b) && Consistent(Now(), blocks + [b], base)
    {
      BlockReads(s, blocks, base, |blocks| - 1);
      NewBlockApart(s, blocks, base, b);
      majors := majors[maj := majors[maj].(next := n)];
      majors := majors[n := majors[n].(prev := maj)];
      assert Grown(s, Now(), blocks, b);
      GrownConsistent(s, Now(), blocks, base, b);
    }

    /** Links a new block behind the last one. */
    method Grow(maj: nat, size: nat) returns (n: nat)
      requires Rep() && HasRun(pmm.Used(), pmm.totalPages, PagesFor(size))
      requires |blocks| > 0 && maj == blocks[|blocks| - 1].at
      modifies this`majors, this`allocatedBytes, this`blocks, pmm.bitmap
      ensures NewBlock(old(pmm.Used()), pmm.totalPages, old(blocks), blocks, PagesFor(size)) &&
              n == blocks[|old(blocks)|].at
      ensures Rep() && Grown(old(Now()), Now(), old(blocks), blocks[|old(blocks)|])
    {
      ghost var s, b := Now(), blocks[0];
      n, b := AllocateNewPage(size);
      OwnsMore(old(pmm.Used()), reserved, blocks, base, b);
      LinkLast(maj, n, s, b);
      blocks := blocks + [b];
    }

    /** The first block of all. */
    method GrowFirst(size: nat)
      requires Rep() && HasRun(pmm.Used(), pmm.totalPages, PagesFor(size)) && blocks == []
      modifies this`majors, this`allocatedBytes, this`memRoot, this`blocks, pmm.bitmap
      ensures NewBlock(old(pmm.Used()), pmm.totalPages, [], blocks, PagesFor(size))
      ensures Rep() && Grown(old(Now()), Now(), [], blocks[0])
    {
      ghost var s := Now();
      var n, b := AllocateNewPage(size);
      memRoot := n;
      OwnsMore(old(pmm.Used()), reserved, blocks, base, b);
      GrownConsistent(s, Now(), blocks, base, b);
      blocks := blocks + [b];
    }

    /** CASES 2 to 4, with the cell entered in the list. */
    method TryBlock(maj: nat, size: nat, req: nat, ghost i: nat) returns (p: nat, ghost g: nat)
      requires Rep() && i < |blocks| && maj == blocks[i].at
      requires size == req + ALIGNMENT + ALIGN_INFO && FreeBytes(blocks[i]) >= HEADER + size
      modifies this`majors, this`minors, this`bytes, this`inuseBytes, this`blocks
      ensures Rep() && g <= |old(blocks)[i].cells|
      ensures p == 0 ==> Now() == old(Now()) && blocks == old(blocks) && !HasFit(blocks[i], HEADER + size)
      ensures p != 0 ==>
                && FirstFit(old(blocks)[i], g, HEADER + size) && p == Pointer(GapLo(old(blocks)[i], g))
                && blocks == Stored(old(blocks), i, g, size, req)
                && Placed(old(Now()), Now(), old(blocks), i, g, Cell(GapLo(old(blocks)[i], g), size, req))
    {
      p, g := PlaceInBlock(maj, size, req, i);
      if p == 0 {
        g := 0;
      } else {
        ghost var c := Cell(GapLo(blocks[i], g), size, req);
        PlacedConsistent(old(Now()), Now(), blocks, base, i, g, c);
        OwnsUpdated(pmm.Used(), reserved, blocks, i, WithCell(blocks[i], g, c));
        blocks := Stored(blocks, i, g, size, req);
      }
    }

    /** Remembers the block when it has more free bytes than the best bet. */
    method NoteBest(maj: nat, bestSize: nat, ghost i: nat) returns (newSize: nat)
      requires Rep() && i < |blocks| && maj == blocks[i].at && bestSize == FreeAt(blocks, bestBet)
      modifies this`bestBet
      ensures Rep() && Now() == old(Now()).(bestBet := bestBet)
      ensures bestBet == Noted(blocks, old(bestBet), i) && newSize == FreeAt(blocks, bestBet)
    {
      BlockReads(Now(), blocks, base, i);
      var diff := majors[maj].size - majors[maj].usage;
      newSize := bestSize;
      if bestSize < diff {
        bestBet := maj;
        newSize := diff;
      }
      FreeAtBlock(blocks, base, i);
    }

    /** Reads of the list at block i, as the search makes them. */
    lemma ListReads(i: nat)
      requires Rep() && i < |blocks|
      ensures BlockOk(majors, blocks, i) && blocks[i].at > 0 && memRoot == blocks[0].at && blocks[0].at > 0
      ensures majors[blocks[i].at].size - majors[blocks[i].at].usage == FreeBytes(blocks[i]) >= 0
      ensures majors[blocks[i].at].next == (if i + 1 < |blocks| then blocks[i + 1].at else 0)
      ensures i + 1 < |blocks| ==> blocks[i + 1].at > 0
    {
      BlockReads(Now(), blocks, base, i);
      BlockReads(Now(), blocks, base, 0);
      if i + 1 < |blocks| { BlockReads(Now(), blocks, base, i + 1); }
    }

    /** On to the next block; at the end of the list back to its start when the
        search began at the best bet, and to a new block otherwise. */
    method Hop(maj0: nat, startedBet0: bool, size: nat, ghost bestSize: nat, ghost fits: seq<bool>, ghost start: nat,
               ghost i0: nat)
      returns (maj: nat, startedBet: bool, grew: bool, ghost i: nat)
      requires Rep() && |blocks| == |fits| && SearchAt(fits, start, i0, startedBet0, false) && !fits[i0]
      requires maj0 == blocks[i0].at && bestSize == FreeAt(blocks, bestBet)
      requires true in fits || HasRun(pmm.Used(), pmm.totalPages, PagesFor(size))
      modifies this`majors, this`allocatedBytes, this`blocks, pmm.bitmap
      ensures Rep() && SearchAt(fits, start, i, startedBet, grew) && i < |blocks| && maj == blocks[i].at
      ensures bestSize == FreeAt(blocks, bestBet)
      ensures !grew ==> blocks == old(blocks) && pmm.Used() == old(pmm.Used())
      ensures Moved(|fits|, startedBet0, i0, startedBet, i) && (grew ==> i == |fits| && !startedBet0)
      ensures grew ==> NewBlock(old(pmm.Used()), pmm.totalPages, old(blocks), blocks, PagesFor(size)) && true !in fits
    {
      ListReads(i0);
      SearchMoves(fits, start, i0, startedBet0);
      startedBet, grew := startedBet0, false;
      if majors[maj0].next != 0 {
        maj, i := majors[maj0].next, i0 + 1;
      } else if startedBet {
        maj, startedBet, i := memRoot, false, 0;
      } else {
        maj := Grow(maj0, size);
        grew, i := true, i0 + 1;
        FreeAtGrows(old(blocks), blocks, bestBet);
      }
    }

    /** The state of the search loop at a block. */
    ghost predicate Searching(maj: nat, startedBet: bool, bestSize: nat, size: nat,
                              old_: seq<Block>, used0: set<nat>, fits: seq<bool>, start: nat, i: nat, grown: bool)
      reads this, pmm, pmm.bitmap
    {
      && Rep() && SearchAt(fits, start, i, startedBet, grown) && i < |blocks| && maj == blocks[i].at
      && ListIs(old_, used0, pmm.totalPages, blocks, pmm.Used(), PagesFor(size), grown)
      && bestSize == FreeAt(blocks, bestBet)
    }

    /** The request can be served: fits says which blocks have a gap for it, and
        if none has, there are pages for a new block. */
    ghost predicate Servable(size: nat, old_: seq<Block>, used0: set<nat>, fits: seq<bool>)
      reads pmm`totalPages
    {
      FitsOk(fits, old_, HEADER + size) && (true in fits || HasRun(used0, pmm.totalPages, PagesFor(size)))
    }

    /** The head of a search round: the best bet is updated, and a block with too
        few free bytes is left (CASE 1). ready says whether the round goes on. */
    method RoundHead(maj0: nat, startedBet0: bool, bestSize0: nat, size: nat,
                     ghost old_: seq<Block>, ghost used0: set<nat>, ghost fits: seq<bool>, ghost start: nat,
                     ghost i0: nat, ghost grown0: bool)
      returns (ready: bool, maj: nat, startedBet: bool, bestSize: nat, ghost i: nat, ghost grown: bool)
      requires Servable(size, old_, used0, fits)
      requires Searching(maj0, startedBet0, bestSize0, size, old_, used0, fits, start, i0, grown0)
      modifies this`majors, this`bestBet, this`allocatedBytes, this`blocks, pmm.bitmap
      ensures Searching(maj, startedBet, bestSize, size, old_, used0, fits, start, i, grown) && bytes == old(bytes)
      ensures ready ==> FreeBytes(blocks[i]) >= HEADER + size
      ensures i <= |old_|
      ensures ready ==> (grown && !grown0) || (grown == grown0 && startedBet == startedBet0 && i == i0)
      ensures grown0 ==> ready
      ensures !ready ==> Closer(grown0, startedBet0, i0, grown, startedBet, i)
      ensures bestBet == Noted(if grown0 then blocks else old_, old(bestBet), i0)
      ensures !ready || grown != grown0 ==>
                Moved(|old_|, startedBet0, i0, startedBet, i) && !grown0 && i0 < |old_| && !fits[i0]
      ensures if ready && grown != grown0 then !startedBet0 && i == |old_| && !LastInPieces(old_, HEADER + size)
              else grown == grown0
    {
      maj, startedBet, i, grown := maj0, startedBet0, i0, grown0;
      bestSize := NoteBest(maj, bestSize0, i);
      ListReads(i);
      SearchFacts(old_, used0, pmm.totalPages, blocks, pmm.Used(), size, fits, grown, base, i);
      var diff := majors[maj].size - majors[maj].usage;
      ready := diff >= size + HEADER;
      if !ready {
        maj, startedBet, ready, i := Hop(maj, startedBet, size, bestSize, fits, start, i);
        grown := ready;
        SearchFacts(old_, used0, pmm.totalPages, blocks, pmm.Used(), size, fits, grown, base, i);
      }
    }

    /** The rest of a search round: the block is tried (CASES 2 to 4) and, when
        it is too fragmented, left (CASE 5). bs is the list before the cell was stored. */
    method RoundTail(maj0: nat, startedBet0: bool, bestSize: nat, size: nat, req: nat,
                     ghost old_: seq<Block>, ghost used0: set<nat>, ghost fits: seq<bool>, ghost start: nat,
                     ghost i0: nat, ghost grown0: bool)
      returns (p: nat, maj: nat, startedBet: bool, ghost bs: seq<Block>, ghost i: nat, ghost g: nat, ghost grown: bool)
      requires Servable(size, old_, used0, fits)
      requires Searching(maj0, startedBet0, bestSize, size, old_, used0, fits, start, i0, grown0)
      requires size == req + ALIGNMENT + ALIGN_INFO && FreeBytes(blocks[i0]) >= HEADER + size
      modifies this`majors, this`minors, this`bytes, this`allocatedBytes, this`inuseBytes, this`blocks, pmm.bitmap
      ensures p != 0 ==>
                && Rep() && i < |bs| && FirstFit(bs[i], g, HEADER + size) && blocks == Stored(bs, i, g, size, req)
                && p == Pointer(GapLo(bs[i], g))
                && Settled(old_, used0, pmm.totalPages, fits, start, bs, i, PagesFor(size))
                && forall a: nat :: a != OffsetAt(GapLo(bs[i], g)) ==> bytes(a) == old(bytes)(a)
      ensures p == 0 ==>
                && Searching(maj, startedBet, bestSize, size, old_, used0, fits, start, i, grown)
                && bytes == old(bytes) && Closer(grown0, startedBet0, i0, grown, startedBet, i) && i <= |old_|
                && Moved(|old_|, startedBet0, i0, startedBet, i) && !grown0 && i0 < |old_| && !fits[i0]
                && (grown ==> LastInPieces(old_, HEADER + size))
      ensures p != 0 ==> i == i0 && grown == grown0 && bs == old(blocks) && (!grown ==> fits[i0])
    {
      maj, startedBet, i, grown := maj0, startedBet0, i0, grown0;
      bs := blocks;
      p, g := TryBlock(maj, size, req, i);
      TryOutcome(old_, used0, pmm.totalPages, bs, old(pmm.Used()), size, fits, start, i, startedBet, grown, base);
      if p == 0 {
        var grew;
        maj, startedBet, grew, i := Hop(maj, startedBet, size, bestSize, fits, start, i);
        grown := grew;
      }
    }

    /** One round of the search loop. */
    method Round(maj0: nat, startedBet0: bool, bestSize0: nat, size: nat, req: nat,
                 ghost old_: seq<Block>, ghost used0: set<nat>, ghost fits: seq<bool>, ghost start: nat,
                 ghost i0: nat, ghost grown0: bool, ghost bet0: nat, ghost atBet: bool)
      returns (p: nat, maj: nat, startedBet: bool, bestSize: nat, ghost bs: seq<Block>, ghost i: nat, ghost g: nat,
               ghost grown: bool)
      requires Servable(size, old_, used0, fits) && size == req + ALIGNMENT + ALIGN_INFO
      requires Searching(maj0, startedBet0, bestSize0, size, old_, used0, fits, start, i0, grown0)
      requires OnTheWay(fits, old_, bet0, atBet, start, startedBet0, i0, bestBet)
      requires grown0 ==> LastInPieces(old_, HEADER + size)
      modifies this`majors, this`minors, this`bytes, this`bestBet, this`allocatedBytes, this`inuseBytes, this`blocks,
               pmm.bitmap
      ensures p != 0 ==>
                && Rep() && i < |bs| && FirstFit(bs[i], g, HEADER + size) && blocks == Stored(bs, i, g, size, req)
                && p == Pointer(GapLo(bs[i], g))
                && Settled(old_, used0, pmm.totalPages, fits, start, bs, i, PagesFor(size))
                && (forall a: nat :: a != OffsetAt(GapLo(bs[i], g)) ==> bytes(a) == old(bytes)(a))
                && bestBet == BetFound(old_, bs, bet0, atBet, start, LastInPieces(old_, HEADER + size), i)
      ensures p == 0 ==>
                && Searching(maj, startedBet, bestSize, size, old_, used0, fits, start, i, grown)
                && OnTheWay(fits, old_, bet0, atBet, start, startedBet, i, bestBet)
                && (grown ==> LastInPieces(old_, HEADER + size))
                && bytes == old(bytes) && Closer(grown0, startedBet0, i0, grown, startedBet, i) && i <= |old_|
    {
      var ready;
      p, bs, g := 0, [], 0;
      ready, maj, startedBet, bestSize, i, grown := RoundHead(maj0, startedBet0, bestSize0, size, old_, used0, fits,
          start, i0, grown0);
      if !ready {
        StillOnTheWay(fits, old_, bet0, atBet, start, startedBet0, i0, old(bestBet), startedBet, i);
        return;
      }
      p, maj, startedBet, bs, i, g, grown := RoundTail(maj, startedBet, bestSize, size, req, old_, used0, fits,
                                                       start, i, grown);
      if p == 0 {
        StillOnTheWay(fits, old_, bet0, atBet, start, startedBet0, i0, old(bestBet), startedBet, i);
      } else {
        SettledThere(fits, old_, bs, bet0, atBet, start, LastInPieces(old_, HEADER + size), startedBet0, i0, grown0,
                     old(bestBet), i, bestBet);
      }
    }

    /** The search loop: block by block from maj0 on, growing the list when no
        block fits; bs is the list just before the cell was stored. */
    method FindAndPlace(maj0: nat, startedBet0: bool, bestSize0: nat, size: nat, req: nat,
                        ghost old_: seq<Block>, ghost used0: set<nat>, ghost fits: seq<bool>, ghost start: nat,
                        ghost i0: nat, ghost grown0: bool, ghost atBet: bool)
      returns (p: nat, ghost bs: seq<Block>, ghost i: nat, ghost g: nat)
      requires Servable(size, old_, used0, fits) && size == req + ALIGNMENT + ALIGN_INFO
      requires Searching(maj0, startedBet0, bestSize0, size, old_, used0, fits, start, i0, grown0)
      requires OnTheWay(fits, old_, bestBet, atBet, start, startedBet0, i0, bestBet)
      requires grown0 ==> LastInPieces(old_, HEADER + size)
      modifies this`majors, this`minors, this`bytes, this`bestBet, this`allocatedBytes, this`inuseBytes, this`blocks,
               pmm.bitmap
      ensures Rep() && i < |bs| && FirstFit(bs[i], g, HEADER + size) && blocks == Stored(bs, i, g, size, req)
      ensures p == Pointer(GapLo(bs[i], g))
      ensures Settled(old_, used0, pmm.totalPages, fits, start, bs, i, PagesFor(size))
      ensures forall a: nat :: a != OffsetAt(GapLo(bs[i], g)) ==> bytes(a) == old(bytes)(a)
      ensures bestBet == BetFound(old_, bs, old(bestBet), atBet, start, LastInPieces(old_, HEADER + size), i)
    {
      var maj, startedBet, bestSize := maj0, startedBet0, bestSize0;
      ghost var grown := grown0;
      i := i0;
      while true
        invariant Searching(maj, startedBet, bestSize, size, old_, used0, fits, start, i, grown) && bytes == old(bytes)
        invariant OnTheWay(fits, old_, old(bestBet), atBet, start, startedBet, i, bestBet)
        invariant i <= |old_| && (grown ==> LastInPieces(old_, HEADER + size))
        decreases if grown then 0 else 1, if startedBet then 1 else 0, |old_| - i
      {
        p, maj, startedBet, bestSize, bs, i, g, grown := Round(maj, startedBet, bestSize, size, req, old_, used0, fits,
                                                               start, i, grown, old(bestBet), atBet);
        if p != 0 {
          return;
        }
      }
    }

    /** Where the search starts: at the best bet if it has more free bytes than
        needed, else at the first block, which is created if there is none. */
    method Start(size: nat) returns (maj: nat, startedBet: bool, bestSize: nat, ghost i: nat, ghost grown: bool)
      requires Rep()
      requires true in Fitting(blocks, HEADER + size) || HasRun(pmm.Used(), pmm.totalPages, PagesFor(size))
      modifies this`majors, this`allocatedBytes, this`memRoot, this`blocks, pmm.bitmap
      ensures Searching(maj, startedBet, bestSize, size, old(blocks), old(pmm.Used()),
                        Fitting(old(blocks), HEADER + size),
                        StartIndex(old(blocks), old(bestBet), HEADER + size), i, grown)
      ensures bestBet == old(bestBet) && (grown ==> old(blocks) == [])
      ensures OnTheWay(Fitting(old(blocks), HEADER + size), old(blocks), bestBet,
                       StartsAtBet(old(blocks), bestBet, HEADER + size),
                       StartIndex(old(blocks), bestBet, HEADER + size), startedBet, i, bestBet)
    {
      RootReads(Now(), blocks, base);
      i, grown := 0, false;
      if memRoot == 0 {
        GrowFirst(size);
        grown := true;
      }
      ListReads(0);
      maj, startedBet, bestSize := memRoot, false, 0;
      if bestBet != 0 {
        ghost var k := IndexOf(blocks, bestBet);
        ListReads(k);
        bestSize := majors[bestBet].size - majors[bestBet].usage;
        if bestSize > size + HEADER {
          maj, startedBet, i := bestBet, true, k;
        }
      }
    }

    /** The request does not wrap around, and some block has a gap for it or
        the page allocator a run of pages for a new block. */
    ghost predicate CanServe(req: nat)
      reads `blocks, pmm, pmm.bitmap
    {
      var size := req + ALIGNMENT + ALIGN_INFO;
      && size + HEADER + HEADER + PAGE_SIZE <= LIMIT && pmm.Valid()
      && (true in Fitting(blocks, HEADER + size) || HasRun(pmm.Used(), pmm.totalPages, PagesFor(size)))
    }

    /** bs is the list just before the cell d was stored in gap g of block i. */
    method Malloc(req: nat) returns (p: nat, ghost d: Cell, ghost bs: seq<Block>, ghost i: nat, ghost g: nat)
      requires Valid() && CanServe(req)
      modifies this`majors, this`minors, this`bytes, this`memRoot, this`bestBet, this`allocatedBytes, this`inuseBytes,
               this`blocks, pmm.bitmap
      ensures Valid()
      ensures var size := req + ALIGNMENT + ALIGN_INFO;
        && Settled(old(blocks), old(pmm.Used()), pmm.totalPages, Fitting(old(blocks), HEADER + size),
                   StartIndex(old(blocks), old(bestBet), HEADER + size), bs, i, PagesFor(size))
        && i < |bs| && FirstFit(bs[i], g, HEADER + size)
        && bestBet == BetFound(old(blocks), bs, old(bestBet), StartsAtBet(old(blocks), old(bestBet), HEADER + size),
                               StartIndex(old(blocks), old(bestBet), HEADER + size),
                               LastInPieces(old(blocks), HEADER + size), i)
      ensures d == Cell(GapLo(bs[i], g), req + ALIGNMENT + ALIGN_INFO, req) && p == Pointer(d.at)
      ensures blocks == bs[i := WithCell(bs[i], g, d)]
      ensures forall a: nat :: a != OffsetAt(d.at) ==> bytes(a) == old(bytes)(a)
      ensures Allocated(old(blocks), blocks, old(bytes), bytes, d, p, req)
      ensures PagesAfterMalloc(old(blocks), old(pmm.Used()), pmm.Used(), pmm.totalPages, req)
    {
      var size := req;
      size := size + ALIGNMENT + ALIGN_INFO;
      ghost var old_, fits, start := blocks, Fitting(blocks, HEADER + size), StartIndex(blocks, bestBet, HEADER + size);
      ghost var atBet := StartsAtBet(blocks, bestBet, HEADER + size);
      var maj, startedBet, bestSize, i0, grown := Start(size);
      p, bs, i, g := FindAndPlace(maj, startedBet, bestSize, size, req, old_, old(pmm.Used()), fits, start, i0, grown,
                                  atBet);
      d := Cell(GapLo(bs[i], g), size, req);
      StoredNonempty(old_, old(pmm.Used()), pmm.totalPages, fits, start, bs, i, g, size, req);
      AllocatedCell(old_, old(pmm.Used()), pmm.totalPages, fits, start, bs, i, g, d, blocks, base, old(bytes), bytes);
      MallocPages(old_, old(pmm.Used()), pmm.Used(), reserved, pmm.totalPages, fits, start, bs, i, g, d, blocks, req);
    }

    // ---------- Freeing ----------

    /** The UNALIGN macro: from a payload pointer back to the end of the header. */
    method Unalign(ptr: nat) returns (q: nat)
      requires ptr >= ALIGNMENT + ALIGN_INFO
      ensures q == if bytes(ptr - ALIGN_INFO) < ALIGNMENT + ALIGN_INFO then ptr - bytes(ptr - ALIGN_INFO) else ptr
    {
      q := ptr;
      var diff := bytes(q - ALIGN_INFO);
      if diff < ALIGNMENT + ALIGN_INFO {
        q := q - diff;
      }
    }

    /** The cell is marked dead and its neighbours are linked to each other. */
    method UnlinkCell(min: nat, ghost b: Block, ghost j: nat) returns (prev: nat, next: nat)
      requires j < |b.cells| && min == b.cells[j].at && CellOk(minors, b, j)
      requires j > 0 ==> CellOk(minors, b, j - 1) && 0 < b.cells[j - 1].at < min
      requires j + 1 < |b.cells| ==> CellOk(minors, b, j + 1) && min < b.cells[j + 1].at
      modifies this`minors
      ensures LinkedOut(old(minors), minors, b, j) && min in minors && minors[min].magic == DEAD
      ensures prev == (if j == 0 then 0 else b.cells[j - 1].at) && next == NextAt(b, j + 1)
    {
      minors := minors[min := minors[min].(magic := DEAD)];
      next, prev := minors[min].next, minors[min].prev;
      if next != 0 {
        minors := minors[next := minors[next].(prev := prev)];
      }
      if prev != 0 {
        minors := minors[prev := minors[prev].(next := next)];
      }
    }

    /** Unlinks the header min, marks it dead, and adjusts the totals. */
    method TakeOut(min: nat, ghost i: nat, ghost j: nat)
      requires i < |blocks| && j < |blocks[i].cells| && min == blocks[i].cells[j].at
      requires BlockOk(majors, blocks, i) && CellOk(minors, blocks[i], j)
      requires Usage(blocks[i]) >= blocks[i].cells[j].size + HEADER && inuseBytes >= blocks[i].cells[j].size
      requires j > 0 ==> CellOk(minors, blocks[i], j - 1) && 0 < blocks[i].cells[j - 1].at < min
      requires j + 1 < |blocks[i].cells| ==> CellOk(minors, blocks[i], j + 1) && min < blocks[i].cells[j + 1].at
      modifies this`majors, this`minors, this`inuseBytes
      ensures TakenOut(old(Now()), Now(), blocks, i, j)
      ensures min in minors && minors[min].magic == DEAD
    {
      var maj := minors[min].block;
      inuseBytes := inuseBytes - minors[min].size;
      majors := majors[maj := majors[maj].(usage := majors[maj].usage - (minors[min].size + HEADER))];
      var prev, next := UnlinkCell(min, blocks[i], j);
      if prev == 0 {
        majors := majors[maj := majors[maj].(first := next)];
      }
    }

    /** Unlinks the empty block maj from the list. */
    method DropBlock(maj: nat, ghost i: nat)
      requires i < |blocks| && maj == blocks[i].at && BlockOk(majors, blocks, i) &&
               allocatedBytes >= BlockSize(blocks[i])
      requires i > 0 ==> BlockOk(majors, blocks, i - 1) && blocks[i - 1].at > 0 && blocks[i - 1].at != maj
      requires i + 1 < |blocks| ==> BlockOk(majors, blocks, i + 1) && blocks[i + 1].at > 0 && blocks[i + 1].at != maj
      requires 0 < i && i + 1 < |blocks| ==> blocks[i - 1].at != blocks[i + 1].at
      modifies this`majors, this`memRoot, this`bestBet, this`allocatedBytes
      ensures GivenBack(old(Now()), Now(), blocks, i)
      ensures maj in majors && majors[maj] == old(majors)[maj]
    {
      if memRoot == maj {
        memRoot := majors[maj].next;
      }
      if bestBet == maj {
        bestBet := 0;
      }
      var prev, next := majors[maj].prev, majors[maj].next;
      if prev != 0 {
        majors := majors[prev := majors[prev].(next := next)];
      }
      if next != 0 {
        majors := majors[next := majors[next].(prev := prev)];
      }
      allocatedBytes := allocatedBytes - majors[maj].size;
    }

    /** The pages of block i go back to the page allocator. */
    method GivePages(maj: nat, ghost i: nat)
      requires OwnsPages() && Layout(blocks, base) && i < |blocks| && maj == blocks[i].at
      requires maj in majors && majors[maj].pages == blocks[i].pages
      modifies pmm.bitmap
      ensures pmm.Used() == old(pmm.Used()) - PagesOf(blocks[i]) && Owns(pmm.Used(), reserved, Without(blocks, i))
    {
      assert BlockWf(blocks[i], base);
      OwnsLess(pmm.Used(), reserved, blocks, base, i);
      PageIndex(blocks[i], base, pmm.Used(), 8 * pmm.bitmap.Length, reserved, blocks, i);
      pmm.FreePages(maj - base, majors[maj].pages);
    }

    /** Removes the empty block maj from the list and gives its pages back. */
    method Release(maj: nat, ghost i: nat)
      requires Rep() && i < |blocks| && maj == blocks[i].at && blocks[i].cells == []
      modifies this`majors, this`memRoot, this`bestBet, this`allocatedBytes, this`blocks, pmm.bitmap
      ensures Rep() && blocks == Without(old(blocks), i)
      ensures bestBet == (if old(bestBet) == maj then 0 else old(bestBet))
      ensures pmm.Used() == old(pmm.Used()) - PagesOf(old(blocks)[i])
    {
      ghost var s := Now();
      NeighbourReads(s, blocks, base, i);
      DropBlock(maj, i);
      GivenBackConsistent(s, Now(), blocks, base, i);
      GivePages(maj, i);
      blocks := Without(blocks, i);
    }

    /** A freed block with more free bytes becomes the best bet, if there is one. */
    method Rebet(maj: nat, ghost i: nat)
      requires Rep() && i < |blocks| && maj == blocks[i].at
      modifies this`bestBet
      ensures Rep()
      ensures bestBet == BetAfterFree(blocks, old(bestBet), i)
    {
      BlockReads(Now(), blocks, base, i);
      if bestBet != 0 {
        ghost var k := IndexOf(blocks, bestBet);
        BlockReads(Now(), blocks, base, k);
        var bestSize := ToInt(majors[bestBet].size - majors[bestBet].usage);
        var majSize := ToInt(majors[maj].size - majors[maj].usage);
        if majSize > bestSize {
          bestBet := maj;
        }
      }
    }

    /** Takes the cell with header min out of its block, which may become empty. */
    method RemoveCell(min: nat, ghost i: nat, ghost j: nat) returns (maj: nat)
      requires Rep() && i < |blocks| && j < |blocks[i].cells| && min == blocks[i].cells[j].at
      modifies this`majors, this`minors, this`inuseBytes, this`blocks
      ensures Rep() && blocks == old(blocks)[i := WithoutCell(old(blocks)[i], j)] && maj == blocks[i].at
      ensures min in minors && minors[min].magic == DEAD
    {
      ghost var s, b := Now(), blocks[i];
      BlockReads(s, blocks, base, i);
      AroundReads(s, blocks, base, i, j);
      maj := minors[min].block;
      TakeOut(min, i, j);
      TakenOutConsistent(s, Now(), blocks, base, i, j);
      OwnsUpdated(pmm.Used(), reserved, blocks, i, WithoutCell(b, j));
      blocks := blocks[i := WithoutCell(b, j)];
    }

    ghost predicate OthersNonempty(i: nat)
      reads this
    {
      forall k :: 0 <= k < |blocks| && k != i ==> blocks[k].cells != []
    }

    /** Gives an empty block back; otherwise looks whether it is the new best bet. */
    method CleanUp(maj: nat, ghost i: nat)
      requires Rep() && i < |blocks| && maj == blocks[i].at && OthersNonempty(i)
      modifies this`majors, this`memRoot, this`bestBet, this`allocatedBytes, this`blocks, pmm.bitmap
      ensures Valid()
      ensures if old(blocks)[i].cells == []
              then blocks == Without(old(blocks), i) && pmm.Used() == old(pmm.Used()) - PagesOf(old(blocks)[i]) &&
                   bestBet == if old(bestBet) == maj then 0 else old(bestBet)
              else blocks == old(blocks) && pmm.Used() == old(pmm.Used()) &&
                   bestBet == BetAfterFree(blocks, old(bestBet), i)
    {
      BlockReads(Now(), blocks, base, i);
      if majors[maj].first == 0 {
        Release(maj, i);
      } else {
        Rebet(maj, i);
      }
    }

    /** Frees the cell whose header is at min. */
    method FreeCell(min: nat, ghost i: nat, ghost j: nat)
      requires Valid() && i < |blocks| && j < |blocks[i].cells| && min == blocks[i].cells[j].at
      modifies this`majors, this`minors, this`memRoot, this`bestBet, this`allocatedBytes, this`inuseBytes,
               this`blocks, pmm.bitmap
      ensures Valid() && Freed(old(blocks), blocks, i, j)
      ensures bestBet == BetAfter(old(blocks), blocks, old(bestBet), i, j)
      ensures pmm.Used() ==
              if |old(blocks)[i].cells| == 1 then old(pmm.Used()) - PagesOf(old(blocks)[i]) else old(pmm.Used())
      ensures min in minors && minors[min].magic == DEAD
    {
      var maj := RemoveCell(min, i, j);
      FreedFacts(old(blocks), blocks, i, j);
      CleanUp(maj, i);
    }

    // ---------- The calls of the clients ----------

    /** From a client's pointer to the header in front of it. */
    method HeaderOf(ptr: nat, ghost held: Held) returns (min: nat)
      requires Consistent(Now(), blocks, base) && HeldIs(Now(), blocks, ptr, held) && held != Nothing
      ensures min in minors && (minors[min].magic == MAGIC <==> held.InCell?) &&
              (held == Gone ==> minors[min].magic == DEAD)
      ensures held.InCell? ==> min == CellOf(blocks, held).at
    {
      HeldReads(Now(), blocks, base, ptr, held);
      var q := Unalign(ptr);
      min := q - HEADER;
    }

    /** The magic number is wrong: counted as an error, and as a possible overrun
        when only its upper bytes are. */
    method CountBadMagic(min: nat)
      requires Valid() && min in minors
      modifies this`errors, this`overruns
      ensures Valid() && Now() == old(Now()) && blocks == old(blocks) && pmm.Used() == old(pmm.Used())
      ensures errors == old(errors) + 1
      ensures overruns == old(overruns) + if LooksOverrun(minors[min].magic) then 1 else 0
    {
      errors := errors + 1;
      if minors[min].magic % 0x1000000 == MAGIC % 0x1000000 || minors[min].magic % 0x10000 == MAGIC % 0x10000 ||
         minors[min].magic % 0x100 == MAGIC % 0x100 {
        overruns := overruns + 1;
      }
    }

    /** Frees a live pointer; when its block stays, the pointer is then recognisably dead. */
    method FreeLive(ptr: nat, min: nat, ghost i: nat, ghost j: nat)
      requires Valid() && LiveAt(blocks, ptr, i, j) && min == blocks[i].cells[j].at
      modifies this`majors, this`minors, this`memRoot, this`bestBet, this`allocatedBytes, this`inuseBytes,
               this`blocks, pmm.bitmap
      ensures Valid() && FreedFrom(old(Now()), Now(), old(blocks), blocks, old(pmm.Used()), pmm.Used(), ptr, i, j)
    {
      LiveOffset(Now(), blocks, i, j);
      FreeCell(min, i, j);
      if |old(blocks)[i].cells| > 1 {
        FreedIsDead(Now(), blocks, old(blocks), base, ptr, i, j);
      }
    }

    /** Frees a pointer that is not null; one freed before is only counted as an error. */
    method FreeNonNull(ptr: nat, ghost held: Held)
      requires Valid() && HeldIs(Now(), blocks, ptr, held) && held != Nothing
      modifies this`majors, this`minors, this`memRoot, this`bestBet, this`allocatedBytes, this`inuseBytes, this`blocks,
               this`errors, this`overruns, pmm.bitmap
      ensures Valid() && overruns == old(overruns) && errors == old(errors) + if held == Gone then 1 else 0
      ensures held == Gone ==> Now() == old(Now()) && blocks == old(blocks) && pmm.Used() == old(pmm.Used())
      ensures held.InCell? ==>
                FreedFrom(old(Now()), Now(), old(blocks), blocks, old(pmm.Used()), pmm.Used(), ptr, held.i, held.j)
    {
      var min := HeaderOf(ptr, held);
      if minors[min].magic != MAGIC {
        DeadIsNoOverrun(minors[min].magic);
        CountBadMagic(min);
      } else {
        FreeLive(ptr, min, held.i, held.j);
      }
    }

    /** Null is counted and ignored; a pointer that was freed before is counted
        as an error and ignored; a live pointer is freed. held says which it is. */
    method Free(ptr: nat, ghost held: Held)
      requires Valid() && HeldIs(Now(), blocks, ptr, held)
      modifies this`majors, this`minors, this`memRoot, this`bestBet, this`allocatedBytes, this`inuseBytes, this`blocks,
               this`warnings, this`errors, this`overruns, pmm.bitmap
      ensures Valid() && overruns == old(overruns)
      ensures warnings == old(warnings) + if held == Nothing then 1 else 0
      ensures errors == old(errors) + if held == Gone then 1 else 0
      ensures !held.InCell? ==> Now() == old(Now()) && blocks == old(blocks) && pmm.Used() == old(pmm.Used())
      ensures held.InCell? ==>
                FreedFrom(old(Now()), Now(), old(blocks), blocks, old(pmm.Used()), pmm.Used(), ptr, held.i, held.j)
      ensures held.InCell? ==> Cells(blocks) == Cells(old(blocks)) - {old(blocks)[held.i].cells[held.j]}
    {
      NullIsNothing(Now(), blocks, ptr, held);
      if ptr == 0 {
        warnings := warnings + 1;
      } else {
        FreeNonNull(ptr, held);
        if held.InCell? { FreedCells(old(blocks), blocks, base, held.i, held.j); }
      }
    }

    // ---------- Resizing ----------

    /** The smaller request fits where the cell is. */
    method Shrink(min: nat, size: nat, ghost i: nat, ghost j: nat)
      requires Valid() && i < |blocks| && j < |blocks[i].cells| && min == blocks[i].cells[j].at
      requires min in minors && size <= blocks[i].cells[j].req
      modifies this`minors, this`blocks
      ensures Valid() && blocks == old(blocks)[i := Resized(old(blocks)[i], j, size)]
    {
      ResizedConsistent(Now(), blocks, base, i, j, size);
      OwnsUpdated(pmm.Used(), reserved, blocks, i, Resized(blocks[i], j, size));
      minors := minors[min := minors[min].(req := size)];
      blocks := blocks[i := Resized(blocks[i], j, size)];
    }

    /** memcpy, for ranges that do not overlap. */
    method CopyBytes(dst: nat, src: nat, n: nat)
      requires dst + n <= src || src + n <= dst
      modifies this`bytes
      ensures CopiedTo(old(bytes), bytes, dst, src, n)
    {
      var k := 0;
      CopiedNone(bytes, dst, src);
      while k < n
        invariant k <= n
        invariant CopiedTo(old(bytes), bytes, dst, src, k)
      {
        var before, at, v := bytes, dst + k, bytes(src + k);
        bytes := (a: nat) => if a == at then v else before(a);
        CopiedMore(old(bytes), before, bytes, dst, src, k);
        k := k + 1;
      }
    }

    /** Copies the payload of cell l of block i to that of cell g of block k. */
    method CopyPayload(p: nat, ptr: nat, count: nat, ghost i: nat, ghost l: nat, ghost k: nat, ghost g: nat)
      requires Valid() && LiveAt(blocks, ptr, i, l) && LiveAt(blocks, p, k, g) &&
               blocks[i].cells[l] != blocks[k].cells[g]
      requires count == blocks[i].cells[l].req <= blocks[k].cells[g].req
      modifies this`bytes
      ensures Valid() && CopiedTo(old(bytes), bytes, p, ptr, count)
    {
      assert CellAt(blocks, i, l, blocks[i].cells[l]) && CellAt(blocks, k, g, blocks[k].cells[g]);
      PayloadsDisjoint(blocks, base, blocks[i].cells[l], blocks[k].cells[g]);
      CopyBytes(p, ptr, count);
      CopyIsPayloadWrite(old(bytes), bytes, blocks, base, p, ptr, count, k, g);
    }

    /** A new cell d with a copy of the first bytes of the live pointer ptr,
        which afterwards is cell l of block i. */
    method MallocCopy(ptr: nat, size: nat, count: nat, ghost i: nat, ghost j: nat)
      returns (p: nat, ghost d: Cell, ghost l: nat)
      requires Valid() && CanServe(size) && LiveAt(blocks, ptr, i, j) && count == blocks[i].cells[j].req <= size
      modifies this`majors, this`minors, this`bytes, this`memRoot, this`bestBet, this`allocatedBytes, this`inuseBytes,
               this`blocks, pmm.bitmap
      ensures Valid() && LiveAt(blocks, ptr, i, l) && blocks[i].cells[l] == old(blocks)[i].cells[j]
      ensures d.req == size && p == Pointer(d.at)
      ensures Cells(blocks) == Cells(old(blocks)) + {d} && d !in Cells(old(blocks))
      ensures PayloadsKept(old(bytes), bytes, Cells(old(blocks)))
      ensures Carried(old(bytes), bytes, p, ptr, count)
      ensures PagesAfterMalloc(old(blocks), old(pmm.Used()), pmm.Used(), pmm.totalPages, size)
      ensures PagesOf(blocks[i]) == PagesOf(old(blocks)[i])
      ensures |blocks[i].cells| == |old(blocks)[i].cells| + if InBlock(old(blocks)[i], d) then 1 else 0
    {
      ghost var old_, c := blocks, blocks[i].cells[j];
      ghost var bs, k, g;
      p, d, bs, k, g := Malloc(size);
      l := StoredPointers(old_, old(pmm.Used()), pmm.totalPages, Fitting(old_, HEADER + d.size),
                          StartIndex(old_, old(bestBet), HEADER + d.size), bs, k, g, d, blocks, base, ptr, i, j);
      BlockAfterStore(old_, old(pmm.Used()), pmm.totalPages, Fitting(old_, HEADER + d.size),
                      StartIndex(old_, old(bestBet), HEADER + d.size), bs, k, g, d, blocks, base, i);
      ghost var bytes1 := bytes;
      CopyPayload(p, ptr, count, i, l, k, g);
      CopyFacts(blocks, base, c, d, old(bytes), bytes1, bytes);
    }

    /** Moves a live pointer to a bigger cell. */
    method Move(ptr: nat, size: nat, count: nat, ghost i: nat, ghost j: nat) returns (p: nat, ghost d: Cell)
      requires Valid() && CanServe(size) && LiveAt(blocks, ptr, i, j) && count == blocks[i].cells[j].req <= size
      modifies this`majors, this`minors, this`bytes, this`memRoot, this`bestBet, this`allocatedBytes, this`inuseBytes,
               this`blocks, this`warnings, this`errors, this`overruns, pmm.bitmap
      ensures Valid() && d.req == size && p == Pointer(d.at)
      ensures Cells(blocks) == Cells(old(blocks)) - {old(blocks)[i].cells[j]} + {d} && d !in Cells(old(blocks))
      ensures PayloadsKept(old(bytes), bytes, Cells(old(blocks)))
      ensures Carried(old(bytes), bytes, p, ptr, count)
      ensures PagesAfterMove(old(blocks), old(pmm.Used()), pmm.Used(), pmm.totalPages, i, d, size)
    {
      ghost var l;
      p, d, l := MallocCopy(ptr, size, count, i, j);
      ghost var mid := pmm.Used();
      Free(ptr, InCell(i, l));
      assert pmm.Used() == mid - PagesLeft(old(blocks)[i], d);
    }

    /** krealloc of a live pointer. */
    method ReallocLive(ptr: nat, min: nat, size: nat, ghost held: Held) returns (p: nat, ghost d: Cell)
      requires Valid() && HeldIs(Now(), blocks, ptr, held) && held.InCell? && min == CellOf(blocks, held).at
      requires CellOf(blocks, held).req < size ==> CanServe(size)
      modifies this`majors, this`minors, this`bytes, this`memRoot, this`bestBet, this`allocatedBytes, this`inuseBytes,
               this`blocks, this`warnings, this`errors, this`overruns, pmm.bitmap
      ensures Valid() && MovedTo(old(blocks), blocks, old(bytes), bytes, CellOf(old(blocks), held), d, p, size)
      ensures if size <= CellOf(old(blocks), held).req then pmm.Used() == old(pmm.Used())
              else PagesAfterMove(old(blocks), old(pmm.Used()), pmm.Used(), pmm.totalPages, held.i, d, size)
    {
      ghost var i, j, c := held.i, held.j, CellOf(blocks, held);
      CellReads(Now(), blocks, base, i, j);
      var count := minors[min].req;
      if count >= size {
        p, d := ptr, c.(req := size);
        ResizedCells(blocks, base, i, j, size);
        Shrink(min, size, i, j);
      } else {
        p, d := Move(ptr, size, count, i, j);
      }
    }

    /** krealloc of a pointer that is not null. */
    method ReallocNonNull(ptr: nat, size: nat, ghost held: Held) returns (p: nat, ghost d: Cell)
      requires Valid() && HeldIs(Now(), blocks, ptr, held) && held != Nothing
      requires held.InCell? && CellOf(blocks, held).req < size ==> CanServe(size)
      modifies this`majors, this`minors, this`bytes, this`memRoot, this`bestBet, this`allocatedBytes, this`inuseBytes,
               this`blocks, this`warnings, this`errors, this`overruns, pmm.bitmap
      ensures Valid()
      ensures held == Gone ==>
                p == 0 && Now() == old(Now()) && blocks == old(blocks) && pmm.Used() == old(pmm.Used()) &&
                    errors == old(errors) + 1
      ensures held.InCell? ==>
                && MovedTo(old(blocks), blocks, old(bytes), bytes, CellOf(old(blocks), held), d, p, size)
                && if size <= CellOf(old(blocks), held).req then pmm.Used() == old(pmm.Used())
                   else PagesAfterMove(old(blocks), old(pmm.Used()), pmm.Used(), pmm.totalPages, held.i, d, size)
    {
      var min := HeaderOf(ptr, held);
      if minors[min].magic != MAGIC {
        CountBadMagic(min);
        p, d := 0, Cell(0, 0, 0);
      } else {
        p, d := ReallocLive(ptr, min, size, held);
      }
    }

    /** Size 0 frees and gives null; a null pointer makes it kmalloc; a pointer
        freed before gives null and counts an error. */
    method Realloc(ptr: nat, size: nat, ghost held: Held) returns (p: nat, ghost d: Cell)
      requires Valid() && HeldIs(Now(), blocks, ptr, held)
      requires size > 0 && held == Nothing ==> CanServe(size)
      requires held.InCell? && CellOf(blocks, held).req < size ==> CanServe(size)
      modifies this`majors, this`minors, this`bytes, this`memRoot, this`bestBet, this`allocatedBytes, this`inuseBytes,
               this`blocks, this`warnings, this`errors, this`overruns, pmm.bitmap
      ensures Valid()
      ensures size == 0 && held.InCell? ==>
                && p == 0 && Cells(blocks) == Cells(old(blocks)) - {CellOf(old(blocks), held)} && bytes == old(bytes)
                && pmm.Used() == old(pmm.Used()) - PagesGone(old(blocks)[held.i])
      ensures (size == 0 && held == Nothing) || held == Gone ==>
                p == 0 && Now() == old(Now()) && blocks == old(blocks) && pmm.Used() == old(pmm.Used())
      ensures size > 0 && held == Nothing ==>
                && Allocated(old(blocks), blocks, old(bytes), bytes, d, p, size)
                && PagesAfterMalloc(old(blocks), old(pmm.Used()), pmm.Used(), pmm.totalPages, size)
      ensures size > 0 && held.InCell? ==>
                && MovedTo(old(blocks), blocks, old(bytes), bytes, CellOf(old(blocks), held), d, p, size)
                && if size <= CellOf(old(blocks), held).req then pmm.Used() == old(pmm.Used())
                   else PagesAfterMove(old(blocks), old(pmm.Used()), pmm.Used(), pmm.totalPages, held.i, d, size)
    {
      NullIsNothing(Now(), blocks, ptr, held);
      if size == 0 {
        Free(ptr, held);
        p, d := 0, Cell(0, 0, 0);
      } else if ptr == 0 {
        ghost var bs, k, g;
        p, d, bs, k, g := Malloc(size);
      } else {
        p, d := ReallocNonNull(ptr, size, held);
      }
    }
  }
}
