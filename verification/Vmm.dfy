/** The page table operations, on tables in memory. */
module Vmm {
  import opened Pmm
  import opened Paging

  const WORD: nat := 0x1_0000_0000

  class Vmm {
    const pmm: PageMap
    var pd: nat
    var ram: Ram
    var tlb: Tlb

    constructor (pmm: PageMap, ram: Ram)
      ensures this.pmm == pmm && this.ram == ram && tlb == map[]
    {
      this.pmm, this.ram, this.pd, this.tlb := pmm, ram, 0, map[];
    }

    ghost function Now(): Tables
      reads `pd, `ram
    {
      Tables(pd, ram)
    }

    ghost predicate Valid()
      reads `pd, `ram, pmm, pmm.bitmap
    {
      pmm.Valid() && pmm.totalPages <= PAGES && Wf(Now(), pmm.Used())
    }

    ghost predicate PmmOk()
      reads pmm, pmm.bitmap
    {
      pmm.Valid() && pmm.totalPages <= PAGES && 0 in pmm.Used()
    }

    ghost predicate MemoryFull()
      reads pmm, pmm.bitmap
    {
      forall p :: 0 <= p < pmm.totalPages ==> p in pmm.Used()
    }

    /** Makes sure that slot i has a table; a new one is not cleared. */
    method GetTable(i: nat) returns (ok: bool, ghost f: nat)
      requires Valid() && 0 in pmm.Used() && i < ENTRIES
      modifies `ram, pmm.bitmap
      ensures PresentAt(old(Now()), i) ==> ok && ram == old(ram) && pmm.Used() == old(pmm.Used())
      ensures !PresentAt(old(Now()), i) && ok ==>
                f !in old(pmm.Used()) && !old(MemoryFull()) && Now() == WithTable(old(Now()), i, f) &&
                    pmm.Used() == old(pmm.Used()) + {f}
      ensures !ok ==> !PresentAt(old(Now()), i) && ram == old(ram) && pmm.Used() == old(pmm.Used()) && MemoryFull()
    {
      ok, f := true, 0;
      if !ram(pd, i).present {
        var table := pmm.Alloc();
        if table == 0 {
          return false, 0;
        }
        f := table / PAGE_SIZE;
        ram := Stored(ram, pd, i, Written(ram(pd, i), table, PRESENT + RW));
      }
    }

    /** Drops the cached translation of the page that holds an address. */
    method Invlpg(vaddr: nat)
      modifies `tlb
      ensures tlb == old(tlb) - {vaddr / PAGE_SIZE}
    {
      tlb := tlb - {vaddr / PAGE_SIZE};
    }

    /** Writes the table entry of the page that holds vaddr, making a table first if needed. */
    method SetPage(vaddr: nat, paddr: nat, flags: nat,
                   ghost t0: Tables, ghost used0: set<nat>, ghost added0: map<nat, nat>, ghost page0: nat,
                   ghost frame0: nat, ghost n: nat)
      returns (ok: bool, ghost added: map<nat, nat>)
      requires PmmOk() && vaddr < WORD && vaddr / PAGE_SIZE == page0 + n && paddr / PAGE_SIZE == frame0 + n
      requires RangeMapped(t0, used0, Now(), pmm.Used(), added0, page0, frame0, n, flags)
      modifies `ram, pmm.bitmap
      ensures PmmOk() && (old(MemoryFull()) ==> added == added0)
      ensures ok ==> RangeMapped(t0, used0, Now(), pmm.Used(), added, page0, frame0, n + 1, flags)
      ensures !ok ==>
                added == added0 && Now() == old(Now()) && pmm.Used() == old(pmm.Used()) &&
                    !PresentAt(Now(), Slot(page0 + n)) && MemoryFull()
    {
      var i, k := vaddr / 0x40_0000, vaddr / PAGE_SIZE % ENTRIES;
      SlotOfAddress(vaddr);
      ghost var t, used, page, f := Now(), pmm.Used(), page0 + n, 0;
      added := added0;
      ok, f := GetTable(i);
      if ok {
        ghost var t1 := Now();
        var table := ram(pd, i).address;
        ram := Stored(ram, table, k, Written(ram(table, k), paddr, flags));
        assert Now() == WithPage(t1, page, paddr, flags);
        added := StepMapped(t0, used0, t, used, added, page0, frame0, n, flags, paddr, t1, pmm.Used(), f);
      }
    }

    /** One round of the loop: the page is mapped, the addresses go on by one
        page, and the translation of the page then reached is dropped. */
    method MapNext(vaddr0: nat, paddr0: nat, vaddr: nat, paddr: nat, flags: nat,
                   ghost t0: Tables, ghost used0: set<nat>, ghost added0: map<nat, nat>, ghost tlb0: Tlb, ghost n: nat)
      returns (ok: bool, vaddr': nat, paddr': nat, ghost added: map<nat, nat>)
      requires PmmOk() && PagesOn(vaddr0, vaddr, n) && PagesOn(paddr0, paddr, n) &&
               Evicted(tlb0, tlb, vaddr0 / PAGE_SIZE, n)
      requires vaddr0 / PAGE_SIZE + n < PAGES && paddr0 / PAGE_SIZE + n < PAGES
      requires RangeMapped(t0, used0, Now(), pmm.Used(), added0, vaddr0 / PAGE_SIZE, paddr0 / PAGE_SIZE, n, flags)
      modifies `ram, `tlb, pmm.bitmap
      ensures PmmOk() && (old(MemoryFull()) ==> MemoryFull() && added == added0)
      ensures PagesOn(vaddr0, vaddr', n + 1) && PagesOn(paddr0, paddr', n + 1)
      ensures Evicted(tlb0, tlb, vaddr0 / PAGE_SIZE, if ok then n + 1 else n)
      ensures RangeMapped(t0, used0, Now(), pmm.Used(), added, vaddr0 / PAGE_SIZE, paddr0 / PAGE_SIZE,
                          if ok then n + 1 else n, flags)
      ensures !ok ==> !PresentAt(Now(), Slot(vaddr0 / PAGE_SIZE + n)) && MemoryFull()
    {
      NoWrap(vaddr0, vaddr, n);
      NoWrap(paddr0, paddr, n);
      NextPage(vaddr0, vaddr, n);
      NextPage(paddr0, paddr, n);
      vaddr', paddr' := (vaddr + PAGE_SIZE) % WORD, (paddr + PAGE_SIZE) % WORD;
      ok, added := SetPage(vaddr, paddr, flags, t0, used0, added0, vaddr0 / PAGE_SIZE, paddr0 / PAGE_SIZE, n);
      if ok {
        EvictedMore(tlb0, tlb, vaddr0 / PAGE_SIZE, n);
        Invlpg(vaddr');
      }
    }

    /** Maps the pages of a range one by one. On failure, n pages were mapped,
        and there was no page left for the table of the next one. */
    method MapPage(vaddr0: nat, size0: nat, paddr0: nat, flags: nat)
      returns (ok: bool, ghost n: nat, ghost added: map<nat, nat>)
      requires Valid() && 0 in pmm.Used() && vaddr0 < WORD && paddr0 < WORD && size0 + PAGE_SIZE <= WORD
      requires var pages := (size0 + PAGE_SIZE - 1) / PAGE_SIZE;
        vaddr0 / PAGE_SIZE + pages <= PAGES && paddr0 / PAGE_SIZE + pages <= PAGES
      modifies `ram, `tlb, pmm.bitmap
      ensures Valid()
      ensures RangeMapped(old(Now()), old(pmm.Used()), Now(), pmm.Used(), added, vaddr0 / PAGE_SIZE,
                          paddr0 / PAGE_SIZE, n, flags)
      ensures ok ==> n == (size0 + PAGE_SIZE - 1) / PAGE_SIZE
      ensures !ok ==>
                n < (size0 + PAGE_SIZE - 1) / PAGE_SIZE && !PresentAt(Now(), Slot(vaddr0 / PAGE_SIZE + n)) &&
                    MemoryFull()
      ensures Evicted(old(tlb), tlb, vaddr0 / PAGE_SIZE, n) && (old(MemoryFull()) ==> added == map[])
    {
      ghost var t0, used0, tlb0 := Now(), pmm.Used(), tlb;
      var size := (size0 + PAGE_SIZE - 1) / PAGE_SIZE * PAGE_SIZE;
      ghost var pages := size / PAGE_SIZE;
      var vaddr: nat, paddr: nat := vaddr0, paddr0;
      ok, n, added := true, 0, map[];
      NothingMapped(t0, used0, vaddr0 / PAGE_SIZE, paddr0 / PAGE_SIZE, flags);
      while size > 0
        invariant ok && n <= pages && size == (pages - n) * PAGE_SIZE
        invariant PagesOn(vaddr0, vaddr, n) && PagesOn(paddr0, paddr, n)
        invariant PmmOk() && (old(MemoryFull()) ==> MemoryFull() && added == map[])
        invariant RangeMapped(t0, used0, Now(), pmm.Used(), added, vaddr0 / PAGE_SIZE, paddr0 / PAGE_SIZE, n, flags)
        invariant Evicted(tlb0, tlb, vaddr0 / PAGE_SIZE, n)
      {
        ok, vaddr, paddr, added := MapNext(vaddr0, paddr0, vaddr, paddr, flags, t0, used0, added, tlb0, n);
        if !ok {
          break;
        }
        size := size - PAGE_SIZE;
        n := n + 1;
      }
    }

    /** Takes the mapping of the page away and gives its frame back. */
    method UnmapPage(vaddr0: nat) returns (ok: bool)
      requires Valid() && vaddr0 < WORD
      requires var m := Translate(Now(), vaddr0 / PAGE_SIZE);
        m.Mapped? ==> m.frame != pd && !IsTable(Now(), m.frame) && m.frame < 8 * pmm.bitmap.Length
      modifies `ram, `tlb, pmm.bitmap
      ensures ok <==> old(Translate(Now(), vaddr0 / PAGE_SIZE)).Mapped?
      ensures !ok ==> ram == old(ram) && tlb == old(tlb) && pmm.Used() == old(pmm.Used())
      ensures Valid()
      ensures ok ==>
                && Now() == WithoutPage(old(Now()), vaddr0 / PAGE_SIZE) && tlb == old(tlb) - {vaddr0 / PAGE_SIZE}
                && pmm.Used() == old(pmm.Used()) - {old(Translate(Now(), vaddr0 / PAGE_SIZE)).frame}
    {
      var vaddr := vaddr0 / PAGE_SIZE * PAGE_SIZE;
      var i, k := vaddr / 0x40_0000, vaddr / PAGE_SIZE % ENTRIES;
      SlotOfAddress(vaddr);
      ok := false;
      if !ram(pd, i).present {
        return;
      }
      var table := ram(pd, i).address;
      if !ram(table, k).present {
        return;
      }
      PageCleared(Now(), pmm.Used(), vaddr0 / PAGE_SIZE, ram(table, k).address);
      pmm.Free(ram(table, k).address * PAGE_SIZE);
      ram := Stored(ram, table, k, ram(table, k).(present := false));
      Invlpg(vaddr0);
      ok := true;
    }

    /** memset of a page to zero. */
    method ClearFrame(f: nat)
      modifies `ram
      ensures forall g: nat, k: nat ::
                ram(g, k) == if g == f && k < ENTRIES then Entry(false, false, false, 0, 0) else old(ram)(g, k)
    {
      var i := 0;
      while i < ENTRIES
        invariant i <= ENTRIES
        invariant forall g: nat, k: nat ::
                    ram(g, k) == if g == f && k < i then Entry(false, false, false, 0, 0) else old(ram)(g, k)
      {
        ram := Stored(ram, f, i, Entry(false, false, false, 0, 0));
        i := i + 1;
      }
    }

    /** Makes an empty directory. */
    method NewDirectory()
      requires PmmOk() && !MemoryFull()
      modifies `pd, `ram, pmm.bitmap
      ensures Valid() && PmmOk() && forall i :: !PresentAt(Now(), i)
      ensures pd !in old(pmm.Used()) && pmm.Used() == old(pmm.Used()) + {pd}
    {
      var address := pmm.Alloc();
      pd := address / PAGE_SIZE;
      ClearFrame(pd);
    }

    method ShouldMap(areas: seq<Area>, addr: nat) returns (should: bool)
      ensures should <==> Backed(areas, addr)
    {
      should := false;
      var i := 0;
      while i < |areas|
        invariant i <= |areas| && forall j :: 0 <= j < i ==> !Covers(areas[j], addr)
        invariant !should
      {
        if Covers(areas[i], addr) {
          should := true;
          break;
        }
        i := i + 1;
      }
    }

    /** Maps page n of the window if it is backed by memory. A failure stops the
        machine only then. */
    method MapBacked(areas: seq<Area>, base: nat, n: nat, ghost full0: bool) returns (ok: bool)
      requires Valid() && PmmOk() && base / PAGE_SIZE + WINDOW <= PAGES && base % 0x40_0000 == 0 && n < WINDOW
      requires BootSoFar(Now(), areas, base / PAGE_SIZE, n, full0) && (full0 ==> MemoryFull())
      modifies `ram, `tlb, pmm.bitmap
      ensures Valid() && PmmOk() && (full0 ==> MemoryFull())
      ensures ok ==> BootSoFar(Now(), areas, base / PAGE_SIZE, n + 1, MemoryFull())
      ensures !ok ==> MemoryFull() && Backed(areas, n * PAGE_SIZE)
    {
      ghost var t0, used0, k, added := Now(), pmm.Used(), 0, map[];
      var addr := n * PAGE_SIZE;
      WindowAddress(base, n);
      var should := ShouldMap(areas, addr);
      if should {
        ok, k, added := MapPage(base + addr, PAGE_SIZE, addr, PRESENT + RW);
      } else {
        ok, k, added := MapPage(base + addr, PAGE_SIZE, addr, 0);
      }
      if ok || !should {
        BootStep(t0, used0, Now(), pmm.Used(), added, areas, base / PAGE_SIZE, n, k,
                 if should then PRESENT + RW else 0, full0, MemoryFull());
        ok := true;
      }
    }

    /** The kernel's directory: the window at base maps exactly the pages of
        memory that the memory map lists, and nothing else is mapped. */
    method InitPd(areas: seq<Area>, base: nat) returns (ok: bool)
      requires PmmOk() && !MemoryFull() && base % 0x40_0000 == 0 && base / PAGE_SIZE + WINDOW <= PAGES
      modifies `pd, `ram, `tlb, pmm.bitmap
      ensures Valid()
      ensures ok ==> forall q: nat :: q < PAGES ==> Translate(Now(), q) == BootMap(areas, base / PAGE_SIZE, WINDOW, q)
      ensures !ok ==> MemoryFull()
    {
      ghost var full := false;
      NewDirectory();
      ok := true;
      var n := 0;
      while n < WINDOW
        invariant ok && n <= WINDOW && Valid() && PmmOk() && (full ==> MemoryFull())
        invariant BootSoFar(Now(), areas, base / PAGE_SIZE, n, full)
      {
        ok := MapBacked(areas, base, n, full);
        if !ok {
          return;
        }
        full := MemoryFull();
        n := n + 1;
      }
      forall q: nat | q < PAGES ensures Translate(Now(), q) == BootMap(areas, base / PAGE_SIZE, WINDOW, q) {
        BootDone(Now(), areas, base / PAGE_SIZE, full, q);
      }
    }
  }

  lemma WindowAddress(base: nat, n: nat)
    requires base / PAGE_SIZE + WINDOW <= PAGES && base % 0x40_0000 == 0 && n < WINDOW
    ensures base + n * PAGE_SIZE < WORD && (base + n * PAGE_SIZE) / PAGE_SIZE == base / PAGE_SIZE + n
    ensures base / PAGE_SIZE % ENTRIES == 0
  {
  }

  lemma SlotOfAddress(addr: nat)
    requires addr < WORD
    ensures addr / PAGE_SIZE < PAGES && addr / 0x40_0000 == Slot(addr / PAGE_SIZE) < ENTRIES
  {
  }

  /** addr lies n pages behind addr0, in 32-bit arithmetic. */
  ghost predicate PagesOn(addr0: nat, addr: nat, n: nat) { addr == (addr0 + n * PAGE_SIZE) % WORD }

  lemma NoWrap(addr0: nat, addr: nat, n: nat)
    requires addr0 / PAGE_SIZE + n < PAGES && PagesOn(addr0, addr, n)
    ensures addr < WORD && addr / PAGE_SIZE == addr0 / PAGE_SIZE + n
  {
  }

  /** One page on; behind the last page the address wraps around. */
  lemma NextPage(addr0: nat, addr: nat, n: nat)
    requires addr0 / PAGE_SIZE + n < PAGES && PagesOn(addr0, addr, n)
    ensures PagesOn(addr0, (addr + PAGE_SIZE) % WORD, n + 1)
    ensures (addr + PAGE_SIZE) % WORD / PAGE_SIZE ==
            if addr0 / PAGE_SIZE + n + 1 == PAGES then 0 else addr0 / PAGE_SIZE + n + 1
  {
  }
}
