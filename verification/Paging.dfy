/** Two-level page tables as values, and the flat map from pages to frames they stand for. */
module Paging {

  const PAGES: nat := 0x10_0000
  const ENTRIES: nat := 1024

  const PRESENT: nat := 1
  const RW: nat := 2
  const USER: nat := 4

  /** An entry of a directory or a table; rest stands for the bits the code never writes. */
  datatype Entry = Entry(present: bool, rw: bool, user: bool, address: nat, rest: nat)

  predicate HasFlag(flags: nat, flag: nat)
    requires flag > 0
  {
    flags / flag % 2 == 1
  }

  /** The entry after set_page_entry. */
  function Written(e: Entry, address: nat, flags: nat): Entry {
    Entry(HasFlag(flags, PRESENT), HasFlag(flags, RW), HasFlag(flags, USER), address / 0x1000, e.rest)
  }

  /** Physical memory, seen as frames of 1024 entries. */
  type Ram = (nat, nat) -> Entry

  function Stored(ram: Ram, f: nat, k: nat, e: Entry): Ram {
    (g: nat, l: nat) => if g == f && l == k then e else ram(g, l)
  }

  /** The frame of the directory, and the memory it lies in. */
  datatype Tables = Tables(pd: nat, ram: Ram)

  function Slot(page: nat): nat { page / ENTRIES }

  function Index(page: nat): nat { page % ENTRIES }

  datatype Mapping = Unmapped | Mapped(frame: nat, rw: bool, user: bool)

  /** How the processor reads a table entry through a directory entry (section
      4.3 of the Intel SDM, volume 3A): both must be present, and access is
      granted only as far as both grant it. */
  function Through(pde: Entry, pte: Entry): Mapping {
    if pde.present && pte.present then Mapped(pte.address, pde.rw && pte.rw, pde.user && pte.user) else Unmapped
  }

  /** The flat map: what a virtual page translates to. */
  function Translate(t: Tables, page: nat): Mapping {
    var pde := t.ram(t.pd, Slot(page));
    Through(pde, t.ram(pde.address, Index(page)))
  }

  ghost predicate PresentAt(t: Tables, i: nat) { i < ENTRIES && t.ram(t.pd, i).present }

  ghost function TableAt(t: Tables, i: nat): nat { t.ram(t.pd, i).address }

  /** A present slot grants writing but no user access, and holds a frame in use. */
  ghost predicate SlotOk(t: Tables, used: set<nat>, i: nat) {
    var e := t.ram(t.pd, i);
    e.rw && !e.user && e.address in used && e.address != t.pd
  }

  ghost predicate SlotFine(t: Tables, used: set<nat>, i: nat) { PresentAt(t, i) ==> SlotOk(t, used, i) }

  ghost predicate Apart(t: Tables, i: nat, j: nat) {
    PresentAt(t, i) && PresentAt(t, j) && i != j ==> TableAt(t, i) != TableAt(t, j)
  }

  /** The directory and the tables of its present slots are different frames in use. */
  ghost predicate Wf(t: Tables, used: set<nat>) {
    t.pd in used && (forall i :: SlotFine(t, used, i)) && forall i, j :: Apart(t, i, j)
  }

  ghost predicate IsTable(t: Tables, f: nat) { exists i :: PresentAt(t, i) && TableAt(t, i) == f }

  // ---------- Mapping one page ----------

  /** What a page mapped with the given flags translates to: the directory
      entry withholds user access. */
  function Wanted(frame: nat, flags: nat): Mapping {
    if HasFlag(flags, PRESENT) then Mapped(frame, HasFlag(flags, RW), false) else Unmapped
  }

  /** A new table in frame f for slot i. */
  ghost function WithTable(t: Tables, i: nat, f: nat): Tables {
    t.(ram := Stored(t.ram, t.pd, i, Written(t.ram(t.pd, i), f * 0x1000, PRESENT + RW)))
  }

  /** The table entry of a page written. */
  ghost function WithPage(t: Tables, page: nat, address: nat, flags: nat): Tables {
    var f := TableAt(t, Slot(page));
    t.(ram := Stored(t.ram, f, Index(page), Written(t.ram(f, Index(page)), address, flags)))
  }

  lemma FlagFacts()
    ensures HasFlag(PRESENT + RW, PRESENT) && HasFlag(PRESENT + RW, RW) && !HasFlag(PRESENT + RW, USER)
  {
  }

  /** Bit 0 of the flags makes a page present and bit 1 makes it writable; no bit
      grants user access. */
  lemma WantedIs(frame: nat, p: nat, w: nat, rest: nat)
    requires p < 2 && w < 2
    ensures Wanted(frame, p + 2 * w + 4 * rest) == if p == 1 then Mapped(frame, w == 1, false) else Unmapped
  {
  }

  /** A new table makes the pages of its slot visible as its frame happens to
      hold them: it is not cleared. */
  lemma NewTable(t: Tables, used: set<nat>, i: nat, f: nat)
    requires Wf(t, used) && i < ENTRIES && !PresentAt(t, i) && f !in used
    ensures var t' := WithTable(t, i, f);
      && Wf(t', used + {f}) && PresentAt(t', i) && TableAt(t', i) == f
      && (forall j :: j != i ==> (PresentAt(t', j) <==> PresentAt(t, j)))
      && (forall j :: j != i ==> TableAt(t', j) == TableAt(t, j))
  {
    FlagFacts();
    var t' := WithTable(t, i, f);
    assert t'.ram(t.pd, i).address == f;
    forall j: nat ensures SlotFine(t', used + {f}, j) {
      assert SlotFine(t, used, j);
    }
    forall j: nat, k: nat ensures Apart(t', j, k) {
      assert SlotFine(t, used, j) && SlotFine(t, used, k) && Apart(t, j, k);
    }
  }

  lemma NewTableElsewhere(t: Tables, used: set<nat>, i: nat, f: nat, q: nat)
    requires Wf(t, used) && i < ENTRIES && !PresentAt(t, i) && f !in used && q < PAGES && Slot(q) != i
    ensures Translate(WithTable(t, i, f), q) == Translate(t, q)
  {
    assert SlotFine(t, used, Slot(q));
  }

  /** What a page translates to through a table in frame f. */
  function Stale(ram: Ram, f: nat, page: nat): Mapping {
    var e := ram(f, Index(page));
    if e.present then Mapped(e.address, e.rw, false) else Unmapped
  }

  lemma NewTableStale(t: Tables, used: set<nat>, i: nat, f: nat, q: nat)
    requires Wf(t, used) && i < ENTRIES && f !in used && q < PAGES && Slot(q) == i
    ensures Translate(WithTable(t, i, f), q) == Stale(t.ram, f, q)
  {
    FlagFacts();
    assert WithTable(t, i, f).ram(t.pd, i).address == f;
  }

  /** Writing the entry of one page changes neither the directory nor any
      other page's translation. */
  lemma PageWritten(t: Tables, used: set<nat>, page: nat, address: nat, flags: nat)
    requires Wf(t, used) && page < PAGES && PresentAt(t, Slot(page))
    ensures var t' := WithPage(t, page, address, flags);
      && Wf(t', used) && SameDirectory(t, t')
      && Translate(t', page) == Wanted(address / 0x1000, flags)
  {
    assert SlotFine(t, used, Slot(page));
    DirectoryKept(t, WithPage(t, page, address, flags), used);
  }

  ghost predicate SameDirectory(t: Tables, t': Tables) {
    t'.pd == t.pd && forall i: nat :: t'.ram(t.pd, i) == t.ram(t.pd, i)
  }

  lemma DirectoryKept(t: Tables, t': Tables, used: set<nat>)
    requires Wf(t, used) && SameDirectory(t, t')
    ensures Wf(t', used)
  {
    forall i: nat ensures SlotFine(t', used, i) { assert SlotFine(t, used, i); }
    forall i: nat, j: nat ensures Apart(t', i, j) { assert Apart(t, i, j); }
  }

  lemma PageWrittenElsewhere(t: Tables, used: set<nat>, page: nat, address: nat, flags: nat, q: nat)
    requires Wf(t, used) && page < PAGES && PresentAt(t, Slot(page)) && q < PAGES && q != page
    ensures Translate(WithPage(t, page, address, flags), q) == Translate(t, q)
  {
    assert SlotFine(t, used, Slot(page)) && Apart(t, Slot(q), Slot(page));
  }

  // ---------- Mapping a range ----------

  /** Slot i has no table yet, and one of the n pages from page0 on lies in it. */
  ghost predicate NeedsTable(t: Tables, page0: nat, n: nat, i: nat) {
    n > 0 && i < ENTRIES && !PresentAt(t, i) && Slot(page0) <= i <= Slot(page0 + n - 1)
  }

  /** The flat map after n pages from page0 on were mapped to the frames from
      frame0 on, with new tables in the slots of added. */
  ghost function Expected(t0: Tables, added: map<nat, nat>, page0: nat, frame0: nat, n: nat, flags: nat,
                          q: nat): Mapping {
    if page0 <= q < page0 + n then Wanted(frame0 + (q - page0), flags)
    else if Slot(q) in added then Stale(t0.ram, added[Slot(q)], q)
    else Translate(t0, q)
  }

  ghost predicate PageNow(t0: Tables, t: Tables, added: map<nat, nat>, page0: nat, frame0: nat, n: nat, flags: nat,
                          q: nat) {
    q < PAGES ==> Translate(t, q) == Expected(t0, added, page0, frame0, n, flags, q)
  }

  ghost predicate AsExpected(t0: Tables, t: Tables, added: map<nat, nat>, page0: nat, frame0: nat, n: nat, flags: nat) {
    forall q :: PageNow(t0, t, added, page0, frame0, n, flags, q)
  }

  ghost predicate WordNow(t0: Tables, t: Tables, f: nat, k: nat) {
    f != t.pd && !IsTable(t, f) ==> t.ram(f, k) == t0.ram(f, k)
  }

  /** Only the directory and the tables were written. */
  ghost predicate OnlyTablesWritten(t0: Tables, t: Tables) {
    forall f, k :: WordNow(t0, t, f, k)
  }

  ghost predicate SlotNow(t0: Tables, t: Tables, added: map<nat, nat>, page0: nat, n: nat, i: nat) {
    && (i in added <==> NeedsTable(t0, page0, n, i))
    && (PresentAt(t, i) <==> PresentAt(t0, i) || i in added)
    && (PresentAt(t, i) ==> TableAt(t, i) == if i in added then added[i] else TableAt(t0, i))
  }

  /** The new tables are exactly those needed, in frames that were free. */
  ghost predicate NewTables(t0: Tables, used0: set<nat>, t: Tables, used: set<nat>, added: map<nat, nat>, page0: nat,
                            n: nat) {
    (forall i :: SlotNow(t0, t, added, page0, n, i)) && added.Values !! used0 && used == used0 + added.Values
  }

  ghost predicate RangeMapped(t0: Tables, used0: set<nat>, t: Tables, used: set<nat>, added: map<nat, nat>,
                              page0: nat, frame0: nat, n: nat, flags: nat) {
    && t.pd == t0.pd && Wf(t, used) && NewTables(t0, used0, t, used, added, page0, n)
    && AsExpected(t0, t, added, page0, frame0, n, flags) && OnlyTablesWritten(t0, t)
  }

  lemma NothingMapped(t: Tables, used: set<nat>, page0: nat, frame0: nat, flags: nat)
    requires Wf(t, used)
    ensures RangeMapped(t, used, t, used, map[], page0, frame0, 0, flags)
  {
  }

  /** One more page, in a slot that has a table. */
  lemma PageAdded(t0: Tables, used0: set<nat>, t: Tables, used: set<nat>, added: map<nat, nat>,
                  page0: nat, frame0: nat, n: nat, flags: nat, address: nat)
    requires RangeMapped(t0, used0, t, used, added, page0, frame0, n, flags) && page0 + n < PAGES
    requires PresentAt(t, Slot(page0 + n)) && address / 0x1000 == frame0 + n
    ensures RangeMapped(t0, used0, WithPage(t, page0 + n, address, flags), used, added, page0, frame0, n + 1, flags)
  {
    var page := page0 + n;
    var t' := WithPage(t, page, address, flags);
    PageWritten(t, used, page, address, flags);
    var m := n + 1;
    forall i: nat ensures SlotNow(t0, t', added, page0, m, i) {
      assert SlotNow(t0, t, added, page0, n, i);
    }
    forall q: nat ensures PageNow(t0, t', added, page0, frame0, m, flags, q) {
      assert PageNow(t0, t, added, page0, frame0, n, flags, q);
      if q < PAGES && q != page { PageWrittenElsewhere(t, used, page, address, flags, q); }
    }
    forall f: nat, k: nat ensures WordNow(t0, t', f, k) {
      assert WordNow(t0, t, f, k);
      assert PresentAt(t', Slot(page));
      assert forall i :: PresentAt(t, i) ==> PresentAt(t', i);
    }
  }

  /** Slot i is not present, so none of the pages mapped so far lies in it. */
  lemma SlotIsNew(t0: Tables, used0: set<nat>, t: Tables, used: set<nat>, added: map<nat, nat>, page0: nat, n: nat,
                  q: nat)
    requires NewTables(t0, used0, t, used, added, page0, n) && q < PAGES && !PresentAt(t, Slot(q))
    ensures Slot(q) !in added && !(page0 <= q < page0 + n)
  {
    assert SlotNow(t0, t, added, page0, n, Slot(q));
  }

  lemma FreeIsUntouched(t0: Tables, t: Tables, used: set<nat>, f: nat, k: nat)
    requires Wf(t, used) && OnlyTablesWritten(t0, t) && f !in used
    ensures t.ram(f, k) == t0.ram(f, k)
  {
    assert forall i :: PresentAt(t, i) ==> SlotFine(t, used, i) && TableAt(t, i) != f;
    assert WordNow(t0, t, f, k);
  }

  lemma TableAddedExpected(t0: Tables, used0: set<nat>, t: Tables, used: set<nat>, added: map<nat, nat>,
                           page0: nat, frame0: nat, n: nat, flags: nat, address: nat, f: nat, q: nat)
    requires RangeMapped(t0, used0, t, used, added, page0, frame0, n, flags) && page0 + n < PAGES
    requires !PresentAt(t, Slot(page0 + n)) && f !in used && address / 0x1000 == frame0 + n && q < PAGES
    ensures var t' := WithPage(WithTable(t, Slot(page0 + n), f), page0 + n, address, flags);
      Translate(t', q) == Expected(t0, added[Slot(page0 + n) := f], page0, frame0, n + 1, flags, q)
  {
    var page, i := page0 + n, Slot(page0 + n);
    var t1 := WithTable(t, i, f);
    NewTable(t, used, i, f);
    PageWritten(t1, used + {f}, page, address, flags);
    assert PageNow(t0, t, added, page0, frame0, n, flags, q);
    if q != page {
      PageWrittenElsewhere(t1, used + {f}, page, address, flags, q);
      if Slot(q) == i {
        NewTableStale(t, used, i, f, q);
        SlotIsNew(t0, used0, t, used, added, page0, n, q);
        FreeIsUntouched(t0, t, used, f, Index(q));
      } else {
        NewTableElsewhere(t, used, i, f, q);
      }
    }
  }

  lemma TablesStay(t: Tables, t': Tables, i: nat, f: nat, g: nat)
    requires forall j: nat :: PresentAt(t, j) && j != i ==> PresentAt(t', j) && TableAt(t', j) == TableAt(t, j)
    requires PresentAt(t', i) && TableAt(t', i) == f && !PresentAt(t, i) && !IsTable(t', g)
    ensures g != f && !IsTable(t, g)
  {
    assert forall j :: PresentAt(t, j) ==> PresentAt(t', j);
  }

  lemma ValuesAdded(m: map<nat, nat>, i: nat, f: nat)
    requires i !in m
    ensures m[i := f].Values == m.Values + {f}
  {
    var m' := m[i := f];
    assert m'[i] == f;
    forall v | v in m.Values ensures v in m'.Values {
      var j :| j in m && m[j] == v;
      assert m'[j] == v;
    }
  }

  lemma TableAddedNew(t0: Tables, used0: set<nat>, t: Tables, used: set<nat>, added: map<nat, nat>,
                      page0: nat, n: nat, t': Tables, f: nat)
    requires NewTables(t0, used0, t, used, added, page0, n) && page0 + n < PAGES && f !in used
    requires var i := Slot(page0 + n);
      && !PresentAt(t, i) && PresentAt(t', i) && TableAt(t', i) == f
      && forall j :: j != i ==>
          (PresentAt(t', j) <==> PresentAt(t, j)) && (PresentAt(t, j) ==> TableAt(t', j) == TableAt(t, j))
    ensures NewTables(t0, used0, t', used + {f}, added[Slot(page0 + n) := f], page0, n + 1)
  {
    var i := Slot(page0 + n);
    SlotIsNew(t0, used0, t, used, added, page0, n, page0 + n);
    ValuesAdded(added, i, f);
    var m, added' := n + 1, added[i := f];
    forall j: nat ensures SlotNow(t0, t', added', page0, m, j) {
      assert SlotNow(t0, t, added, page0, n, j);
    }
  }

  /** One more page, in a slot that gets a new table in frame f. */
  lemma TableAdded(t0: Tables, used0: set<nat>, t: Tables, used: set<nat>, added: map<nat, nat>,
                   page0: nat, frame0: nat, n: nat, flags: nat, address: nat, f: nat)
    requires RangeMapped(t0, used0, t, used, added, page0, frame0, n, flags) && page0 + n < PAGES
    requires !PresentAt(t, Slot(page0 + n)) && f !in used && address / 0x1000 == frame0 + n
    ensures var t' := WithPage(WithTable(t, Slot(page0 + n), f), page0 + n, address, flags);
      RangeMapped(t0, used0, t', used + {f}, added[Slot(page0 + n) := f], page0, frame0, n + 1, flags)
  {
    var i := Slot(page0 + n);
    var t1, added', m := WithTable(t, i, f), added[i := f], n + 1;
    var t' := WithPage(t1, page0 + n, address, flags);
    NewTable(t, used, i, f);
    PageWritten(t1, used + {f}, page0 + n, address, flags);
    assert forall j :: j != i ==>
      (PresentAt(t', j) <==> PresentAt(t1, j)) && (PresentAt(t, j) ==> TableAt(t', j) == TableAt(t, j));
    TableAddedNew(t0, used0, t, used, added, page0, n, t', f);
    forall q: nat ensures PageNow(t0, t', added', page0, frame0, m, flags, q) {
      if q < PAGES { TableAddedExpected(t0, used0, t, used, added, page0, frame0, n, flags, address, f, q); }
    }
    forall g: nat, k: nat ensures WordNow(t0, t', g, k) {
      assert WordNow(t0, t, g, k);
      if g != t.pd && !IsTable(t', g) { TablesStay(t, t', i, f, g); }
    }
  }

  /** One more page: its slot has a table, or gets one in a free frame f. */
  lemma StepMapped(t0: Tables, used0: set<nat>, t: Tables, used: set<nat>, added0: map<nat, nat>,
                   page0: nat, frame0: nat, n: nat, flags: nat, address: nat, t1: Tables, used1: set<nat>, f: nat)
    returns (added: map<nat, nat>)
    requires RangeMapped(t0, used0, t, used, added0, page0, frame0, n, flags) && page0 + n < PAGES &&
             address / 0x1000 == frame0 + n
    requires if PresentAt(t, Slot(page0 + n)) then t1 == t && used1 == used
             else f !in used && t1 == WithTable(t, Slot(page0 + n), f) && used1 == used + {f}
    ensures RangeMapped(t0, used0, WithPage(t1, page0 + n, address, flags), used1, added, page0, frame0, n + 1, flags)
    ensures PresentAt(t, Slot(page0 + n)) ==> added == added0
  {
    if PresentAt(t, Slot(page0 + n)) {
      PageAdded(t0, used0, t, used, added0, page0, frame0, n, flags, address);
      added := added0;
    } else {
      TableAdded(t0, used0, t, used, added0, page0, frame0, n, flags, address, f);
      added := added0[Slot(page0 + n) := f];
    }
  }

  // ---------- The translation cache ----------

  type Tlb = map<nat, Mapping>

  /** Every cached translation of a page other than the excepted ones is that of the tables. */
  ghost predicate Coherent(tlb: Tlb, t: Tables, except: set<nat>) {
    forall q :: q in tlb && q !in except ==> q < PAGES && tlb[q] == Translate(t, q) && tlb[q] != Unmapped
  }

  /** The cache after n pages from page0 on were mapped: each time the page
      behind the one just mapped is evicted. */
  ghost predicate Evicted(tlb0: Tlb, tlb: Tlb, page0: nat, n: nat) {
    forall q ::
      && (q in tlb <==>
          q in tlb0 && !(page0 < q <= page0 + n && q < PAGES) && !(q == 0 && n > 0 && page0 + n == PAGES))
      && (q in tlb ==> tlb[q] == tlb0[q])
  }

  lemma EvictedMore(tlb0: Tlb, tlb: Tlb, page0: nat, n: nat)
    requires Evicted(tlb0, tlb, page0, n) && page0 + n < PAGES
    ensures Evicted(tlb0, tlb - {if page0 + n + 1 == PAGES then 0 else page0 + n + 1}, page0, n + 1)
  {
  }

  /** Only the first page of the range can have a stale translation in the
      cache, and it has one exactly when a different one was cached before. */
  lemma OnlyFirstStale(t0: Tables, used0: set<nat>, t: Tables, used: set<nat>, added: map<nat, nat>,
                       page0: nat, frame0: nat, n: nat, flags: nat, tlb0: Tlb, tlb: Tlb)
    requires RangeMapped(t0, used0, t, used, added, page0, frame0, n, flags) && page0 + n <= PAGES
    requires Coherent(tlb0, t0, {}) && Evicted(tlb0, tlb, page0, n)
    ensures Coherent(tlb, t, {page0})
    ensures n > 0 ==> (Coherent(tlb, t, {}) <==> (page0 in tlb ==> tlb0[page0] == Wanted(frame0, flags)))
  {
    forall q | q in tlb && (q != page0 || n == 0) ensures q < PAGES && tlb[q] == Translate(t, q) && tlb[q] != Unmapped {
      CachedIsOld(t0, used0, t, used, added, page0, frame0, n, flags, q);
    }
    if n > 0 && page0 in tlb {
      assert PageNow(t0, t, added, page0, frame0, n, flags, page0);
    }
  }

  /** A page with a translation lies in no slot that got a new table. */
  lemma CachedIsOld(t0: Tables, used0: set<nat>, t: Tables, used: set<nat>, added: map<nat, nat>,
                    page0: nat, frame0: nat, n: nat, flags: nat, q: nat)
    requires RangeMapped(t0, used0, t, used, added, page0, frame0, n, flags)
    requires q < PAGES && !(page0 <= q < page0 + n) && Translate(t0, q) != Unmapped
    ensures Translate(t, q) == Translate(t0, q)
  {
    assert PresentAt(t0, Slot(q)) && SlotNow(t0, t, added, page0, n, Slot(q));
    assert PageNow(t0, t, added, page0, frame0, n, flags, q);
  }

  // ---------- Unmapping ----------

  ghost function WithoutPage(t: Tables, page: nat): Tables {
    var f := TableAt(t, Slot(page));
    t.(ram := Stored(t.ram, f, Index(page), t.ram(f, Index(page)).(present := false)))
  }

  /** Clearing the entry of one page, and giving back a frame that holds no table. */
  lemma PageCleared(t: Tables, used: set<nat>, page: nat, frame: nat)
    requires Wf(t, used) && page < PAGES && PresentAt(t, Slot(page)) && frame != t.pd && !IsTable(t, frame)
    ensures var t' := WithoutPage(t, page);
      && Wf(t', used - {frame}) && SameDirectory(t, t') && Translate(t', page) == Unmapped
      && forall q :: 0 <= q < PAGES && q != page ==> Translate(t', q) == Translate(t, q)
  {
    var t' := WithoutPage(t, page);
    assert SlotFine(t, used, Slot(page));
    var rest := used - {frame};
    forall i: nat ensures SlotFine(t', rest, i) {
      assert SlotFine(t, used, i) && (PresentAt(t, i) ==> TableAt(t, i) != frame);
      assert t'.ram(t.pd, i) == t.ram(t.pd, i);
    }
    forall i: nat, j: nat ensures Apart(t', i, j) { assert Apart(t, i, j); }
    forall q | 0 <= q < PAGES && q != page ensures Translate(t', q) == Translate(t, q) {
      assert Apart(t, Slot(q), Slot(page));
    }
  }

  lemma UnmapCoherent(t: Tables, used: set<nat>, page: nat, frame: nat, tlb: Tlb)
    requires Wf(t, used) && page < PAGES && PresentAt(t, Slot(page)) && frame != t.pd && !IsTable(t, frame)
    requires Coherent(tlb, t, {})
    ensures Coherent(tlb - {page}, WithoutPage(t, page), {})
  {
    PageCleared(t, used, page, frame);
  }

  /** The flat map after a page was mapped, with the new tables in added, and unmapped. */
  ghost function AfterUnmap(t0: Tables, added: map<nat, nat>, page: nat, q: nat): Mapping {
    if q == page then Unmapped else if Slot(q) in added then Stale(t0.ram, added[Slot(q)], q) else Translate(t0, q)
  }

  /** Mapping a page and unmapping it again: the page itself is unmapped, and
      the others translate as before, but for those of a slot that got a table
      on the way, which keeps it. */
  lemma MapThenUnmap(t0: Tables, used0: set<nat>, t: Tables, used: set<nat>, added: map<nat, nat>, page: nat,
                     frame: nat, flags: nat)
    requires RangeMapped(t0, used0, t, used, added, page, frame, 1, flags) && page < PAGES
    requires frame != t.pd && !IsTable(t, frame)
    ensures if PresentAt(t0, Slot(page)) then added == map[] else added.Keys == {Slot(page)}
    ensures used == used0 + added.Values
    ensures forall q: nat :: q < PAGES ==> Translate(WithoutPage(t, page), q) == AfterUnmap(t0, added, page, q)
  {
    forall i ensures i in added <==> i == Slot(page) && !PresentAt(t0, i) {
      assert SlotNow(t0, t, added, page, 1, i);
    }
    assert SlotNow(t0, t, added, page, 1, Slot(page));
    PageCleared(t, used, page, frame);
    forall q: nat | q < PAGES && q != page ensures Translate(t, q) == Expected(t0, added, page, frame, 1, flags, q) {
      assert PageNow(t0, t, added, page, frame, 1, flags, q);
    }
  }

  /** So the flat map is restored exactly when the slot had a table before, or
      the frame of its new table holds no entry that is marked as present. */
  lemma MapThenUnmapRestores(t0: Tables, used0: set<nat>, t: Tables, used: set<nat>, added: map<nat, nat>, page: nat,
                             frame: nat, flags: nat)
    requires RangeMapped(t0, used0, t, used, added, page, frame, 1, flags) && page < PAGES
    requires frame != t.pd && !IsTable(t, frame)
    ensures (forall q: nat :: q < PAGES && q != page ==> Translate(WithoutPage(t, page), q) == Translate(t0, q)) <==>
            (forall q: nat :: q < PAGES && q != page && Slot(q) in added ==>
               Stale(t0.ram, added[Slot(q)], q) == Unmapped)
  {
    MapThenUnmap(t0, used0, t, used, added, page, frame, flags);
    forall q: nat | q < PAGES && Slot(q) in added ensures Translate(t0, q) == Unmapped {
      assert SlotNow(t0, t, added, page, 1, Slot(q));
    }
  }

  // ---------- The kernel's own directory ----------

  datatype Kind =
    Invalid | Free | Reserved | Reclaimable | Nvs | LoaderReclaimable | Module | KernelStack | KernelBinary

  /** An entry of the boot memory map. */
  datatype Area = Area(address: nat, size: nat, kind: Kind)

  predicate Mappable(k: Kind) {
    k.Free? || k.Reclaimable? || k.Nvs? || k.LoaderReclaimable? || k.KernelStack? || k.Module? || k.KernelBinary?
  }

  /** The area's bounds are truncated to 32 bits. */
  predicate Covers(r: Area, addr: nat) {
    Mappable(r.kind) && r.address % 0x1_0000_0000 <= addr < (r.address + r.size) % 0x1_0000_0000
  }

  ghost predicate Backed(areas: seq<Area>, addr: nat) {
    exists i :: 0 <= i < |areas| && Covers(areas[i], addr)
  }

  /** Pages of physical memory that the kernel maps. */
  const WINDOW: nat := 0x4_0000

  ghost function BootMap(areas: seq<Area>, h: nat, n: nat, q: nat): Mapping {
    if h <= q < h + n && Backed(areas, (q - h) * 0x1000) then Mapped(q - h, true, false) else Unmapped
  }

  /** What holds of page q when the first n pages of the window have been handled. */
  ghost predicate BootNow(t: Tables, areas: seq<Area>, h: nat, n: nat, full: bool, q: nat) {
    q < PAGES ==>
      && (h <= q < h + n ==> Translate(t, q) == BootMap(areas, h, n, q) && (PresentAt(t, Slot(q)) || full))
      && (PresentAt(t, Slot(q)) ==> n > 0 && Slot(h) <= Slot(q) <= Slot(h + n - 1))
  }

  ghost predicate BootSoFar(t: Tables, areas: seq<Area>, h: nat, n: nat, full: bool) {
    forall q :: BootNow(t, areas, h, n, full, q)
  }

  /** One more page of the window: mapped, or left alone because it is not
      backed and there is no memory for its table. */
  lemma BootStep(t0: Tables, used0: set<nat>, t: Tables, used: set<nat>, added: map<nat, nat>,
                 areas: seq<Area>, h: nat, n: nat, k: nat, flags: nat, full0: bool, full: bool)
    requires BootSoFar(t0, areas, h, n, full0) && h + n < PAGES && k <= 1
    requires RangeMapped(t0, used0, t, used, added, h + n, n, k, flags)
    requires flags == if Backed(areas, n * 0x1000) then PRESENT + RW else 0
    requires full0 ==> full && added == map[]
    requires k == 0 ==> full && flags == 0 && !PresentAt(t, Slot(h + n))
    ensures BootSoFar(t, areas, h, n + 1, full)
  {
    FlagFacts();
    var m := n + 1;
    forall q: nat ensures BootNow(t, areas, h, m, full, q) {
      assert BootNow(t0, areas, h, n, full0, q);
      assert PageNow(t0, t, added, h + n, n, k, flags, q) && SlotNow(t0, t, added, h + n, k, Slot(q));
    }
  }

  /** The window covers whole slots, so no stale entry of a new table survives:
      the flat map is exactly that of the memory map. */
  lemma BootDone(t: Tables, areas: seq<Area>, h: nat, full: bool, q: nat)
    requires BootSoFar(t, areas, h, WINDOW, full) && h % ENTRIES == 0 && h + WINDOW <= PAGES && q < PAGES
    ensures Translate(t, q) == BootMap(areas, h, WINDOW, q)
  {
    assert BootNow(t, areas, h, WINDOW, full, q);
    if !(h <= q < h + WINDOW) {
      assert !(Slot(h) <= Slot(q) <= Slot(h + WINDOW - 1));
      assert !PresentAt(t, Slot(q));
    }
  }

  ghost predicate OnArea(r: Area, addr: nat) {
    r.kind != Invalid && r.kind != Reserved && r.address <= addr < r.address + r.size
  }

  ghost predicate OnSome(areas: seq<Area>, addr: nat) { exists i :: 0 <= i < |areas| && OnArea(areas[i], addr) }

  /** Areas that end below 4 GiB are backed from their first to their last byte,
      whatever their kind but INVALID and RESERVED. One that ends at 4 GiB is not at all. */
  lemma CoversIs(r: Area, addr: nat)
    ensures r.address + r.size < 0x1_0000_0000 ==> (Covers(r, addr) <==> OnArea(r, addr))
    ensures r.address + r.size == 0x1_0000_0000 ==> !Covers(r, addr)
  {
  }

  /** Page q of the window maps the page of memory at its distance from the base,
      writable for the kernel, if an area lies there; no other page is mapped. */
  lemma BootMapIs(areas: seq<Area>, h: nat, q: nat)
    requires forall i :: 0 <= i < |areas| ==> areas[i].address + areas[i].size < 0x1_0000_0000
    ensures BootMap(areas, h, WINDOW, q) ==
            if h <= q < h + 0x4_0000 && OnSome(areas, (q - h) * 0x1000) then Mapped(q - h, true, false) else Unmapped
  {
    if h <= q {
      var addr := (q - h) * 0x1000;
      forall i | 0 <= i < |areas| ensures Covers(areas[i], addr) <==> OnArea(areas[i], addr) {
        CoversIs(areas[i], addr);
      }
    }
  }
}
