/** The start-up code of the page allocator, on the boot memory map and in the
    code's own 32-bit arithmetic, and which maps it handles right. */
module PmmBoot {
  import opened Bits
  import opened Pmm

  /** The width of an address and of a size_t. */
  const WORD: nat := 0x1_0000_0000

  /** More cells than any page number of the start-up code can reach. */
  const CELLS: nat := 0x4_0000

  /** One entry of the memory map, with 64-bit bounds; usable stands for the
      types FREE and RECLAIMABLE. */
  datatype Region = Region(address: nat, size: nat, usable: bool)

  function AlignUp(x: nat): nat { (x + (PAGE_SIZE - 1)) / PAGE_SIZE * PAGE_SIZE }

  /** The number of usable pages, as the code counts them. */
  function PageTotal(map_: seq<Region>): (n: nat)
    ensures n < WORD
  {
    if map_ == [] then 0
    else
      var r := map_[|map_| - 1];
      (PageTotal(map_[..|map_| - 1]) + if r.usable then r.size / PAGE_SIZE else 0) % WORD
  }

  /** The size of the bitmap: the product wraps around at 4 GiB, and the last
      division rounds down. */
  function BitmapBytes(total: nat): (n: nat)
    ensures 8 * n < 0x10_0000
  {
    total * PAGE_SIZE % WORD / PAGE_SIZE / 8
  }

  /** The first page of a region, in 32-bit arithmetic. */
  function FirstPage(r: Region): (p: nat)
    ensures p < 0x10_0000
  {
    AlignUp(r.address) % WORD / PAGE_SIZE
  }

  /** The number of pages a region gives, in 32-bit arithmetic. */
  function PagesGiven(r: Region): (n: nat)
    ensures n < 0x10_0000
  {
    ((r.address + r.size) % WORD - AlignUp(r.address) % WORD) % WORD / PAGE_SIZE
  }

  ghost function PagesOfRegion(r: Region): set<nat> { PageRange(FirstPage(r), PagesGiven(r)) }

  /** All pages the map hands to the allocator. */
  ghost function Usable(map_: seq<Region>): set<nat> {
    if map_ == [] then {}
    else
      var r := map_[|map_| - 1];
      Usable(map_[..|map_| - 1]) + if r.usable then PagesOfRegion(r) else {}
  }

  predicate Holds(r: Region, bytes: nat) { r.usable && r.size / PAGE_SIZE % WORD * PAGE_SIZE % WORD >= bytes }

  /** The index of the first usable region that can hold the bitmap. */
  function Placement(map_: seq<Region>, bytes: nat): (i: nat)
    ensures i <= |map_| && (i < |map_| ==> Holds(map_[i], bytes))
  {
    if map_ == [] || Holds(map_[0], bytes) then 0 else 1 + Placement(map_[1..], bytes)
  }

  /** The page behind the last one under a bitmap in region r. */
  function LastPage(r: Region, bytes: nat): (p: nat)
    ensures p < 0x10_0000
  {
    (AlignUp(r.address) % WORD + bytes + (PAGE_SIZE - 1)) % WORD / PAGE_SIZE
  }

  /** The pages first, ..., last - 1. */
  ghost function PagesFrom(first: nat, last: nat): (s: set<nat>)
    ensures forall p: nat :: p in s <==> first <= p < last
  {
    if first < last then PageRange(first, last - first) else {}
  }

  /** The pages under the bitmap; none if no region holds it. */
  ghost function BitmapPages(map_: seq<Region>, bytes: nat): set<nat> {
    var i := Placement(map_, bytes);
    if i == |map_| then {} else PagesFrom(FirstPage(map_[i]), LastPage(map_[i], bytes))
  }

  /** The bits that are set in memory. */
  ghost function BitsOf(m: seq<bv8>): set<nat> {
    set p: nat | p < 8 * |m| && Bit(m[p / 8], p % 8)
  }

  /** The bits that are set after the start-up code has run, in terms of those
      that were set in the memory behind the bitmap pointer before. */
  ghost function Booted(used: set<nat>, map_: seq<Region>): set<nat> {
    var bytes := BitmapBytes(PageTotal(map_));
    var cleared := if Placement(map_, bytes) < |map_| then PageRange(0, 8 * bytes) else {};
    used + cleared + BitmapPages(map_, bytes) + {0} - (Usable(map_) - BitmapPages(map_, bytes))
  }

  method CountPages(map_: seq<Region>) returns (total: nat)
    ensures total == PageTotal(map_)
  {
    total := 0;
    var i := 0;
    while i < |map_|
      invariant i <= |map_| && total == PageTotal(map_[..i])
    {
      assert map_[..i + 1][..i] == map_[..i];
      if map_[i].usable {
        total := (total + map_[i].size / PAGE_SIZE) % WORD;
      }
      i := i + 1;
    }
    assert map_[..i] == map_;
  }

  /** memset of the first cells to 0xFF. */
  method FillCells(pm: PageMap, bytes: nat)
    requires bytes <= pm.bitmap.Length
    modifies pm.bitmap
    ensures pm.Used() == old(pm.Used()) + PageRange(0, 8 * bytes)
  {
    var i := 0;
    while i < bytes
      invariant i <= bytes && pm.Used() == old(pm.Used()) + PageRange(0, 8 * i)
    {
      pm.FillCell(i);
      i := i + 1;
    }
  }

  /** Finds the first region that holds the bitmap, fills the bitmap, and marks
      the pages under it. */
  method PlaceBitmap(map_: seq<Region>, bytes: nat, pm: PageMap) returns (first: nat, last: nat, placed: bool)
    requires pm.bitmap.Length >= CELLS && 8 * bytes < 0x10_0000
    modifies pm.bitmap
    ensures placed <==> Placement(map_, bytes) < |map_|
    ensures PagesFrom(first, last) == BitmapPages(map_, bytes)
    ensures pm.Used() == old(pm.Used()) + (if placed then PageRange(0, 8 * bytes) else {}) + BitmapPages(map_, bytes)
  {
    first, last, placed := 0, 0, false;
    var i := FindPlace(map_, bytes);
    if i < |map_| {
      var start := AlignUp(map_[i].address) % WORD;
      FillCells(pm, bytes);
      first, last, placed := start / PAGE_SIZE, (start + bytes + (PAGE_SIZE - 1)) % WORD / PAGE_SIZE, true;
      MarkPages(pm, first, last);
    }
  }

  method MarkPages(pm: PageMap, first: nat, last: nat)
    requires last <= 8 * pm.bitmap.Length
    modifies pm.bitmap
    ensures pm.Used() == old(pm.Used()) + PagesFrom(first, last)
  {
    if first < last {
      pm.SetRange(first, last - first);
    }
  }

  method FindPlace(map_: seq<Region>, bytes: nat) returns (i: nat)
    ensures i == Placement(map_, bytes)
  {
    i := 0;
    assert map_[0..] == map_;
    while i < |map_| && !Holds(map_[i], bytes)
      invariant i <= |map_| && Placement(map_, bytes) == i + Placement(map_[i..], bytes)
    {
      assert map_[i..][1..] == map_[i + 1..];
      i := i + 1;
    }
  }

  /** Clears the pages of one region, except those under the bitmap. */
  method Release(r: Region, pm: PageMap, first: nat, last: nat)
    requires pm.bitmap.Length >= CELLS
    modifies pm.bitmap
    ensures pm.Used() == old(pm.Used()) - (PagesOfRegion(r) - PagesFrom(first, last))
  {
    var aligned, end := AlignUp(r.address) % WORD, (r.address + r.size) % WORD;
    var n, j := (end - aligned) % WORD / PAGE_SIZE, 0;
    while j < n
      invariant 0 <= j <= n
      invariant pm.Used() == old(pm.Used()) - (PageRange(FirstPage(r), j) - PagesFrom(first, last))
    {
      var page := aligned / PAGE_SIZE + j;
      if !(first <= page < last) {
        pm.ClearBit(page);
      }
      j := j + 1;
    }
  }

  method ReleaseAll(map_: seq<Region>, pm: PageMap, first: nat, last: nat)
    requires pm.bitmap.Length >= CELLS
    modifies pm.bitmap
    ensures pm.Used() == old(pm.Used()) - (Usable(map_) - PagesFrom(first, last))
  {
    var i := 0;
    while i < |map_|
      invariant i <= |map_|
      invariant pm.Used() == old(pm.Used()) - (Usable(map_[..i]) - PagesFrom(first, last))
    {
      assert map_[..i + 1][..i] == map_[..i];
      if map_[i].usable {
        Release(map_[i], pm, first, last);
      }
      i := i + 1;
    }
    assert map_[..i] == map_;
  }

  /** The start-up scan of the memory map: counts pages, places the bitmap in
      the first usable region that holds it, and releases the usable pages.
      memory is what lies behind the bitmap pointer; only its first bytes cells
      belong to the bitmap. */
  method Init(map_: seq<Region>, memory: array<bv8>) returns (pm: PageMap, bytes: nat, placed: bool)
    requires memory.Length >= CELLS
    modifies memory
    ensures fresh(pm) && pm.bitmap == memory && pm.totalPages == PageTotal(map_)
    ensures bytes == BitmapBytes(PageTotal(map_)) && (placed <==> Placement(map_, bytes) < |map_|)
    ensures pm.Used() == Booted(BitsOf(old(memory[..])), map_)
  {
    var total := CountPages(map_);
    bytes := total * PAGE_SIZE % WORD / PAGE_SIZE / 8;
    pm := new PageMap(memory, total);
    assert pm.Used() == BitsOf(memory[..]);
    var first, last;
    first, last, placed := PlaceBitmap(map_, bytes, pm);
    pm.SetBit(0);
    ReleaseAll(map_, pm, first, last);
  }

  // ---------- What the start-up code achieves ----------

  /** Within the bitmap a page is free exactly when the map hands it out and it
      does not lie under the bitmap, whatever the memory held before. */
  lemma FreeIsUsable(used: set<nat>, map_: seq<Region>, p: nat)
    requires var bytes := BitmapBytes(PageTotal(map_)); Placement(map_, bytes) < |map_| && p < 8 * bytes
    ensures p !in Booted(used, map_) <==> p in Usable(map_) && p !in BitmapPages(map_, BitmapBytes(PageTotal(map_)))
  {
  }

  /** Every page number the map gives rise to has its bit in the bitmap. */
  predicate Contained(map_: seq<Region>, bytes: nat) {
    && bytes > 0
    && (var i := Placement(map_, bytes);
        i < |map_| ==> PagesWithin(FirstPage(map_[i]), LastPage(map_[i], bytes), 8 * bytes))
    && AllWithin(map_, 8 * bytes)
  }

  predicate AllWithin(map_: seq<Region>, limit: nat) { forall i :: 0 <= i < |map_| ==> GivesWithin(map_[i], limit) }

  predicate PagesWithin(first: nat, last: nat, limit: nat) { last <= first || last <= limit }

  predicate GivesWithin(r: Region, limit: nat) {
    !r.usable || PagesGiven(r) == 0 || FirstPage(r) + PagesGiven(r) <= limit
  }

  ghost predicate Below(s: set<nat>, limit: nat) { forall p :: p in s ==> p < limit }

  lemma BelowBoth(s: set<nat>, t: set<nat>, limit: nat)
    ensures Below(s + t, limit) <==> Below(s, limit) && Below(t, limit)
  {
    assert forall p :: p in s || p in t <==> p in s + t;
  }

  lemma {:induction false} UsableWithin(map_: seq<Region>, limit: nat)
    ensures Below(Usable(map_), limit) <==> AllWithin(map_, limit)
  {
    if map_ != [] {
      var n := |map_| - 1;
      UsableWithin(map_[..n], limit);
      RangeWithin(map_[n], limit);
      BelowBoth(Usable(map_[..n]), if map_[n].usable then PagesOfRegion(map_[n]) else {}, limit);
      AllWithinSplit(map_, limit);
    }
  }

  lemma AllWithinSplit(map_: seq<Region>, limit: nat)
    requires map_ != []
    ensures AllWithin(map_, limit) <==> AllWithin(map_[..|map_| - 1], limit) && GivesWithin(map_[|map_| - 1], limit)
  {
    assert forall i :: 0 <= i < |map_| - 1 ==> map_[..|map_| - 1][i] == map_[i];
  }

  lemma RangeWithin(r: Region, limit: nat)
    ensures Below(PagesOfRegion(r), limit) <==> PagesGiven(r) == 0 || FirstPage(r) + PagesGiven(r) <= limit
  {
    if PagesGiven(r) > 0 {
      assert FirstPage(r) + PagesGiven(r) - 1 in PagesOfRegion(r);
    }
  }

  lemma PagesFromWithin(first: nat, last: nat, limit: nat)
    ensures Below(PagesFrom(first, last), limit) <==> PagesWithin(first, last, limit)
  {
    if first < last { assert last - 1 in PagesFrom(first, last); }
  }

  /** The bits that the code writes, besides those of the bitmap's own cells. */
  ghost function Written(map_: seq<Region>): set<nat> {
    Usable(map_) + BitmapPages(map_, BitmapBytes(PageTotal(map_))) + {0}
  }

  lemma WrittenWithin(map_: seq<Region>)
    ensures var bytes := BitmapBytes(PageTotal(map_)); Below(Written(map_), 8 * bytes) <==> Contained(map_, bytes)
  {
    var bytes := BitmapBytes(PageTotal(map_));
    var i := Placement(map_, bytes);
    UsableWithin(map_, 8 * bytes);
    BelowBoth(Usable(map_), BitmapPages(map_, bytes), 8 * bytes);
    BelowBoth(Usable(map_) + BitmapPages(map_, bytes), {0}, 8 * bytes);
    if i < |map_| { PagesFromWithin(FirstPage(map_[i]), LastPage(map_[i], bytes), 8 * bytes); }
    assert 0 in {0};
  }

  ghost predicate KeepsBeyond(used: set<nat>, used': set<nat>, limit: nat) {
    forall p: nat :: p >= limit ==> (p in used <==> p in used')
  }

  lemma WrittenChanges(map_: seq<Region>, p: nat)
    requires p in Written(map_)
    ensures p in Booted({p}, map_) <==> p in Booted({}, map_)
  {
  }

  /** The memory behind the bitmap is left alone, whatever it holds, exactly when
      the map gives rise to no page number beyond the bitmap. */
  lemma LeavesRestAlone(map_: seq<Region>)
    requires Placement(map_, BitmapBytes(PageTotal(map_))) < |map_|
    ensures var bytes := BitmapBytes(PageTotal(map_));
      (forall used :: KeepsBeyond(used, Booted(used, map_), 8 * bytes)) <==> Contained(map_, bytes)
  {
    var bytes := BitmapBytes(PageTotal(map_));
    WrittenWithin(map_);
    if Contained(map_, bytes) {
      forall used: set<nat> ensures KeepsBeyond(used, Booted(used, map_), 8 * bytes) { UnwrittenStays(used, map_); }
    } else {
      var p :| p in Written(map_) && p >= 8 * bytes;
      WrittenChanges(map_, p);
      assert p in {p} && p !in {};
      assert !KeepsBeyond({p}, Booted({p}, map_), 8 * bytes) || !KeepsBeyond({}, Booted({}, map_), 8 * bytes);
    }
  }

  lemma UnwrittenStays(used: set<nat>, map_: seq<Region>)
    requires Below(Written(map_), 8 * BitmapBytes(PageTotal(map_)))
    ensures KeepsBeyond(used, Booted(used, map_), 8 * BitmapBytes(PageTotal(map_)))
  {
    forall p: nat | p >= 8 * BitmapBytes(PageTotal(map_)) ensures p in used <==> p in Booted(used, map_) {
      assert p !in Written(map_);
    }
  }

  // ---------- Which maps are handled right ----------

  /** The whole of page p lies in the region. */
  ghost predicate WholePage(r: Region, p: nat) {
    r.address <= p * PAGE_SIZE && (p + 1) * PAGE_SIZE <= r.address + r.size
  }

  ghost predicate GivesWholePages(r: Region) {
    forall p: nat :: p in PagesOfRegion(r) <==> WholePage(r, p)
  }

  /** What the 32-bit subtraction needs: a page boundary inside the region, and
      then either no whole page or a start below 4 GiB and less than 4 GiB. */
  predicate Measurable(r: Region) {
    var first, end := AlignUp(r.address), r.address + r.size;
    first <= end && (end < first + PAGE_SIZE || (first < WORD && end - first < WORD))
  }

  lemma GivenIs(r: Region)
    ensures PagesGiven(r) == (r.address + r.size - AlignUp(r.address)) % WORD / PAGE_SIZE
  {
    var a, b := r.address + r.size, AlignUp(r.address);
    assert a == a / WORD * WORD + a % WORD && b == b / WORD * WORD + b % WORD;
    SameMod(a % WORD - b % WORD, a - b, a / WORD - b / WORD);
  }

  lemma SameMod(x: int, y: int, k: int)
    requires y == x + k * WORD
    ensures x % WORD == y % WORD
  {
  }

  lemma WholePagesAre(r: Region, p: nat)
    ensures WholePage(r, p) <==> AlignUp(r.address) / PAGE_SIZE <= p && (p + 1) * PAGE_SIZE <= r.address + r.size
  {
  }

  /** A region gives exactly its whole pages, exactly when it can be measured in
      32-bit arithmetic. */
  lemma RegionGives(r: Region)
    ensures GivesWholePages(r) <==> Measurable(r)
  {
    GivenIs(r);
    if Measurable(r) {
      MeasuredRight(r);
    } else {
      MeasuredWrong(r);
    }
  }

  lemma Small(x: int)
    requires 0 <= x < WORD
    ensures x % WORD == x
  {
  }

  lemma Aligned(x: nat)
    ensures AlignUp(x) == AlignUp(x) / PAGE_SIZE * PAGE_SIZE
  {
  }

  /** The pages behind page q that fit d bytes. */
  lemma PagesFit(q: nat, d: nat, p: nat)
    ensures p < q + d / PAGE_SIZE <==> (p + 1) * PAGE_SIZE <= q * PAGE_SIZE + d
  {
  }

  lemma MeasuredRight(r: Region)
    requires Measurable(r) && PagesGiven(r) == (r.address + r.size - AlignUp(r.address)) % WORD / PAGE_SIZE
    ensures GivesWholePages(r)
  {
    var first := AlignUp(r.address);
    var d := r.address + r.size - first;
    Aligned(r.address);
    Small(d);
    if d >= PAGE_SIZE { Small(first); }
    forall p: nat ensures p in PagesOfRegion(r) <==> WholePage(r, p) {
      WholePagesAre(r, p);
      PagesFit(first / PAGE_SIZE, d, p);
    }
  }

  lemma MeasuredWrong(r: Region)
    requires !Measurable(r) && PagesGiven(r) == (r.address + r.size - AlignUp(r.address)) % WORD / PAGE_SIZE
    ensures !GivesWholePages(r)
  {
    var first, end := AlignUp(r.address), r.address + r.size;
    var p, q := FirstPage(r), first / PAGE_SIZE;
    WholePagesAre(r, p);
    WholePagesAre(r, q);
    if end < first {
      assert (end - first) % WORD == end - first + WORD;
      assert p in PagesOfRegion(r);
    } else if first >= WORD {
      assert p < q;
      assert PagesGiven(r) > 0 ==> p in PagesOfRegion(r);
    } else {
      var l := q + PagesGiven(r);
      WholePagesAre(r, l);
      assert p == q && l !in PagesOfRegion(r);
    }
  }

  /** A usable region of whole pages below 4 GiB. */
  predicate Plain(r: Region) { r.address % PAGE_SIZE == 0 && r.size % PAGE_SIZE == 0 && r.address + r.size < WORD }

  predicate Separate(a: Region, b: Region) { a.address + a.size <= b.address || b.address + b.size <= a.address }

  predicate PlainMap(map_: seq<Region>) {
    && (forall i :: 0 <= i < |map_| && map_[i].usable ==> Plain(map_[i]))
    && forall i, j :: 0 <= i < j < |map_| && map_[i].usable && map_[j].usable ==> Separate(map_[i], map_[j])
  }

  lemma PlainGives(r: Region)
    requires Plain(r)
    ensures FirstPage(r) == r.address / PAGE_SIZE && PagesGiven(r) == r.size / PAGE_SIZE
    ensures FirstPage(r) + PagesGiven(r) < 0x10_0000
  {
    GivenIs(r);
    assert AlignUp(r.address) == r.address;
    Small(r.address);
    Small(r.size);
  }

  lemma {:induction false} RangeSize(start: nat, n: nat)
    ensures |PageRange(start, n)| == n
  {
    if n > 0 {
      RangeSize(start, n - 1);
      assert PageRange(start, n) == PageRange(start, n - 1) + {start + n - 1};
    }
  }

  lemma SubsetSize(a: set<nat>, b: set<nat>)
    requires a <= b
    ensures |a| <= |b| && (|a| == |b| ==> a == b)
  {
    assert b == a + (b - a);
  }

  lemma SizesAdd(a: set<nat>, b: set<nat>)
    requires a !! b
    ensures |a + b| == |a| + |b|
  {
  }

  lemma PlainFront(map_: seq<Region>)
    requires PlainMap(map_) && map_ != []
    ensures PlainMap(map_[..|map_| - 1])
  {
  }

  lemma PlainBelow(map_: seq<Region>)
    requires PlainMap(map_)
    ensures Below(Usable(map_), 0x10_0000 - 1) && |Usable(map_)| < 0x10_0000
  {
    forall i | 0 <= i < |map_| ensures GivesWithin(map_[i], 0x10_0000 - 1) {
      if map_[i].usable { PlainGives(map_[i]); }
    }
    UsableWithin(map_, 0x10_0000 - 1);
    FewPages(Usable(map_));
  }

  /** The pages of a plain map are as many as the code counts. */
  lemma {:induction false} PlainCount(map_: seq<Region>)
    requires PlainMap(map_)
    ensures |Usable(map_)| == PageTotal(map_) < 0x10_0000
  {
    PlainBelow(map_);
    if map_ != [] {
      var n := |map_| - 1;
      PlainFront(map_);
      PlainCount(map_[..n]);
      if map_[n].usable {
        PlainGives(map_[n]);
        LastApart(map_, n);
        RangeSize(FirstPage(map_[n]), PagesGiven(map_[n]));
        SizesAdd(Usable(map_[..n]), PagesOfRegion(map_[n]));
        CountStep(map_);
      } else {
        assert Usable(map_) == Usable(map_[..n]) + {};
      }
    }
  }

  lemma CountStep(map_: seq<Region>)
    requires map_ != [] && map_[|map_| - 1].usable
    requires PageTotal(map_[..|map_| - 1]) + map_[|map_| - 1].size / PAGE_SIZE < WORD
    ensures PageTotal(map_) == PageTotal(map_[..|map_| - 1]) + map_[|map_| - 1].size / PAGE_SIZE
  {
  }

  lemma FewPages(s: set<nat>)
    requires Below(s, 0x10_0000 - 1)
    ensures |s| < 0x10_0000
  {
    RangeSize(0, 0x10_0000 - 1);
    assert s <= PageRange(0, 0x10_0000 - 1);
    SubsetSize(s, PageRange(0, 0x10_0000 - 1));
  }

  /** The last region gives no page that an earlier one gives. */
  lemma {:induction false} LastApart(map_: seq<Region>, n: nat)
    requires n < |map_| && PlainMap(map_) && map_[|map_| - 1].usable
    ensures Usable(map_[..n]) !! PagesOfRegion(map_[|map_| - 1])
  {
    if n > 0 {
      LastApart(map_, n - 1);
      assert map_[..n][..n - 1] == map_[..n - 1];
      var r, l := map_[n - 1], map_[|map_| - 1];
      if r.usable {
        PlainGives(r);
        PlainGives(l);
        assert Separate(r, l);
      }
    }
  }

  lemma BytesOf(total: nat)
    requires total < 0x10_0000
    ensures BitmapBytes(total) == total / 8 && 8 * BitmapBytes(total) <= total
    ensures 8 * BitmapBytes(total) == total <==> total % 8 == 0
  {
  }

  /** The bitmap has a bit for every page counted, exactly when their number fills
      whole cells and does not reach 4 GiB. */
  lemma CoversAll(total: nat)
    requires total < WORD
    ensures total <= 8 * BitmapBytes(total) <==> total % 8 == 0 && total < 0x10_0000
  {
    if total < 0x10_0000 { BytesOf(total); }
  }

  /** A plain map is handled without a write outside of the bitmap exactly when
      memory is one piece from page 0 on, and its pages fill whole cells. */
  lemma OnePieceOnly(map_: seq<Region>)
    requires PlainMap(map_) && Placement(map_, BitmapBytes(PageTotal(map_))) < |map_|
    ensures var total := PageTotal(map_);
      Contained(map_, BitmapBytes(total)) <==> total > 0 && total % 8 == 0 && Usable(map_) == PageRange(0, total)
  {
    var total := PageTotal(map_);
    PlainCount(map_);
    PlainBelow(map_);
    BytesOf(total);
    UsableWithin(map_, 8 * BitmapBytes(total));
    RangeSize(0, 8 * BitmapBytes(total));
    if Contained(map_, BitmapBytes(total)) {
      assert Usable(map_) <= PageRange(0, 8 * BitmapBytes(total));
      SubsetSize(Usable(map_), PageRange(0, 8 * BitmapBytes(total)));
    } else if total > 0 && total % 8 == 0 && Usable(map_) == PageRange(0, total) {
      PlacedWithin(map_, total / 8);
    }
  }

  /** A plain region that holds the bitmap has the pages under it. */
  lemma PlacedWithin(map_: seq<Region>, bytes: nat)
    requires PlainMap(map_) && Placement(map_, bytes) < |map_| && AllWithin(map_, 8 * bytes) && 0 < bytes
    ensures Contained(map_, bytes)
  {
    var r := map_[Placement(map_, bytes)];
    PlainGives(r);
    assert GivesWithin(r, 8 * bytes);
    PlacedInside(r, bytes);
  }

  lemma PlacedInside(r: Region, bytes: nat)
    requires Plain(r) && Holds(r, bytes) && 0 < bytes
    ensures LastPage(r, bytes) <= r.address / PAGE_SIZE + r.size / PAGE_SIZE && r.size / PAGE_SIZE > 0
  {
    var q, n := r.address / PAGE_SIZE, r.size / PAGE_SIZE;
    assert r.address == q * PAGE_SIZE && r.size == n * PAGE_SIZE && AlignUp(r.address) == r.address;
    Small(r.address);
    Small(n);
    Small(r.size);
    var last := r.address + bytes + (PAGE_SIZE - 1);
    assert last < (q + n + 1) * PAGE_SIZE;
    if last < WORD { Small(last); }
  }

  /** The usual memory map of a PC has a hole below 1 MiB: 32671 pages are
      counted, the bitmap has 4083 cells, and page 0x7FFF lies beyond it. */
  lemma HoleExample(used: set<nat>)
    ensures var map_ := [Region(0, 0x9_F000, true), Region(0x9_F000, 0x6_1000, false),
                         Region(0x10_0000, 0x7F0_0000, true)];
      && PageTotal(map_) == 32671 && BitmapBytes(32671) == 4083 && Placement(map_, 4083) == 0 && !Contained(map_, 4083)
      && 8 * 4083 <= 0x7FFF && 0x7FFF !in Booted(used, map_)
  {
    var a, b, c := Region(0, 0x9_F000, true), Region(0x9_F000, 0x6_1000, false), Region(0x10_0000, 0x7F0_0000, true);
    var map_ := [a, b, c];
    assert map_[..2] == [a, b] && [a, b][..1] == [a] && [a][..0] == [];
    assert PageTotal([a]) == 0x9F && PageTotal([a, b]) == 0x9F;
    assert Holds(a, 4083);
    assert !GivesWithin(map_[2], 8 * 4083);
    assert 0x7FFF in PagesOfRegion(c);
    assert LastPage(a, 4083) == 1;
  }

  /** A usable region of 4 GiB gives a bitmap of no cells, and not one page is
      released or cleared: what the memory behind the bitmap pointer happens to
      hold decides which of the 0x10_0000 pages counted are handed out. */
  lemma FourGigabytes(used: set<nat>)
    ensures var map_ := [Region(0, 0x1_0000_0000, true)];
      && PageTotal(map_) == 0x10_0000 && BitmapBytes(PageTotal(map_)) == 0 && Usable(map_) == {}
      && Booted(used, map_) == used + {0}
  {
    var r := Region(0, 0x1_0000_0000, true);
    var map_ := [r];
    assert map_[..0] == [];
    assert PagesGiven(r) == 0;
    assert Usable(map_) == {};
    assert LastPage(r, 0) == 0;
  }

  /** The reservation of page 0 survives exactly when no usable region hands the
      page out, or the bitmap lies over it. */
  lemma PageZeroKept(used: set<nat>, map_: seq<Region>)
    ensures 0 in Booted(used, map_) <==> 0 !in Usable(map_) || 0 in BitmapPages(map_, BitmapBytes(PageTotal(map_)))
  {
  }

  /** A map whose first region, page 0 alone, is too small for the bitmap: page 0
      ends up free. */
  lemma PageZeroFreed(used: set<nat>)
    ensures var map_ := [Region(0, 0x1000, true), Region(0x10_0000, 0x1000_0000, true)];
      Placement(map_, BitmapBytes(PageTotal(map_))) == 1 && 0 !in Booted(used, map_)
  {
    var a, b := Region(0, 0x1000, true), Region(0x10_0000, 0x1000_0000, true);
    var map_ := [a, b];
    assert map_[..1] == [a] && [a][..0] == [] && map_[1..] == [b];
    assert PageTotal([a]) == 1 && PageTotal(map_) == 0x1_0001;
    assert BitmapBytes(0x1_0001) == 0x2000;
    assert Placement([b], 0x2000) == 0;
    assert 0 in PagesOfRegion(a) && Usable([a]) == Usable([]) + PagesOfRegion(a);
    assert FirstPage(b) == 0x100;
  }

  /** The cell that holds the bit of a frame is one of the bitmap's own exactly
      for the frames below the number of pages counted, taken below 4 GiB and
      rounded down to whole cells. */
  lemma OwnCell(total: nat, frame: nat)
    ensures frame / 8 < BitmapBytes(total) <==> frame < total % 0x10_0000 - total % 8
  {
    var x := total % 0x10_0000;
    var y := total * PAGE_SIZE;
    assert y == x * PAGE_SIZE + total / 0x10_0000 * WORD;
    SameMod(x * PAGE_SIZE, y, total / 0x10_0000);
    Small(x * PAGE_SIZE);
    WholeCells(x, frame);
    LowBits(total);
  }

  lemma WholeCells(n: nat, frame: nat)
    ensures n * PAGE_SIZE / PAGE_SIZE == n && (frame / 8 < n / 8 <==> frame < n - n % 8)
  {
  }

  lemma LowBits(n: nat)
    ensures n % 8 == n % 0x10_0000 % 8
  {
  }

  // ---------- The pages under the bitmap ----------

  /** The bitmap goes to the first usable region whose whole pages hold it. */
  lemma PlacementIs(map_: seq<Region>, bytes: nat, i: nat)
    requires i < |map_| && forall r :: r in map_ ==> r.size < WORD
    ensures Placement(map_, bytes) == i <==>
            Roomy(map_[i], bytes) && forall k :: 0 <= k < i ==> !Roomy(map_[k], bytes)
  {
    if i == 0 {
      RoomyIs(map_[0], bytes);
    } else {
      assert map_[0] in map_;
      RoomyIs(map_[0], bytes);
      forall r | r in map_[1..] ensures r.size < WORD { assert r in map_; }
      PlacementIs(map_[1..], bytes, i - 1);
      assert forall k :: 0 < k < i ==> map_[k] == map_[1..][k - 1];
    }
  }

  ghost predicate Roomy(r: Region, bytes: nat) { r.usable && bytes <= r.size - r.size % PAGE_SIZE }

  lemma RoomyIs(r: Region, bytes: nat)
    requires r.size < WORD
    ensures Holds(r, bytes) <==> Roomy(r, bytes)
  {
    Small(r.size / PAGE_SIZE);
    Small(r.size / PAGE_SIZE * PAGE_SIZE);
  }

  /** Page p and the n bytes from start on have a byte in common. */
  ghost predicate Overlaps(p: nat, start: nat, n: nat) { p * PAGE_SIZE < start + n && start < (p + 1) * PAGE_SIZE }

  lemma LastPageIs(r: Region, start: nat, bytes: nat, p: nat)
    requires start % PAGE_SIZE == 0 && r.address <= start < r.address + PAGE_SIZE && start + bytes + PAGE_SIZE <= WORD
    ensures p in PagesFrom(FirstPage(r), LastPage(r, bytes)) <==> Overlaps(p, start, bytes)
  {
    StartIs(r.address, start);
    Small(start);
    Small(start + bytes + (PAGE_SIZE - 1));
    UnderIs(start / PAGE_SIZE, bytes, p);
    assert start == start / PAGE_SIZE * PAGE_SIZE;
  }

  lemma StartIs(address: nat, start: nat)
    requires start % PAGE_SIZE == 0 && address <= start < address + PAGE_SIZE
    ensures AlignUp(address) == start
  {
  }

  lemma UnderIs(q: nat, n: nat, p: nat)
    ensures q <= p < (q * PAGE_SIZE + n + (PAGE_SIZE - 1)) / PAGE_SIZE <==> Overlaps(p, q * PAGE_SIZE, n)
  {
  }

  /** The bitmap lies at the first page boundary of its region, if it does not wrap
      around there: every page that shares a byte with it is reserved, and of the
      usable pages no other one is. */
  lemma BitmapReserved(used: set<nat>, map_: seq<Region>, start: nat, p: nat)
    requires var bytes := BitmapBytes(PageTotal(map_)); var i := Placement(map_, bytes);
      && i < |map_| && start % PAGE_SIZE == 0 && map_[i].address <= start < map_[i].address + PAGE_SIZE
      && start + bytes + PAGE_SIZE <= WORD
    ensures var bytes := BitmapBytes(PageTotal(map_));
      && (Overlaps(p, start, bytes) ==> p in Booted(used, map_))
      && (p in Usable(map_) ==> (p in Booted(used, map_) <==> Overlaps(p, start, bytes)))
  {
    var bytes := BitmapBytes(PageTotal(map_));
    LastPageIs(map_[Placement(map_, bytes)], start, bytes, p);
  }
}
