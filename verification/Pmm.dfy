/** The physical page allocator: a packed bitmap, one bit for each page frame. */
module Bits {

  function Mask(k: nat): bv8
    requires k < 8
  {
    (1 as bv8) << k
  }

  predicate Bit(b: bv8, k: nat)
    requires k < 8
  {
    b & Mask(k) != 0
  }

  /** Setting and clearing bit i of a byte, as seen by a test of bit j. */
  lemma SetBits(b: bv8, i: nat, j: nat)
    requires i < 8 && j < 8
    ensures Bit(b | Mask(i), j) <==> i == j || Bit(b, j)
  {
  }

  lemma ClearBits(b: bv8, i: nat, j: nat)
    requires i < 8 && j < 8
    ensures Bit(b & !Mask(i), j) <==> i != j && Bit(b, j)
  {
  }

  lemma FullByte(j: nat)
    requires j < 8
    ensures Bit(0xFF, j)
  {
  }
}

module Pmm {
  import opened Bits

  const PAGE_SIZE: nat := 4096

  predicate Within(p: nat, start: nat, n: nat) { start <= p < start + n }

  /** The pages start, start + 1, ..., start + n - 1. */
  ghost function PageRange(start: nat, n: nat): (r: set<nat>)
    ensures forall p: nat :: p in r <==> start <= p < start + n
  {
    set p: nat | p < start + n && Within(p, start, n)
  }

  /** n pages from start on lie below total and are not used. */
  ghost predicate FreeRun(used: set<nat>, total: nat, start: nat, n: nat) {
    start + n <= total && forall p :: start <= p < start + n ==> p !in used
  }

  ghost predicate LowestRun(used: set<nat>, total: nat, start: nat, n: nat) {
    FreeRun(used, total, start, n) && forall q: nat :: q < start ==> !FreeRun(used, total, q, n)
  }

  class PageMap {
    var bitmap: array<bv8>
    var totalPages: nat

    /** The bitmap has a bit for every page the scans look at. */
    ghost predicate Valid()
      reads this
    {
      totalPages <= 8 * bitmap.Length
    }

    constructor (bitmap: array<bv8>, totalPages: nat)
      ensures this.bitmap == bitmap && this.totalPages == totalPages
    {
      this.bitmap := bitmap;
      this.totalPages := totalPages;
    }

    /** The pages whose bit is set. */
    ghost function Used(): set<nat>
      reads this, bitmap
    {
      set p: nat | p < 8 * bitmap.Length && Bit(bitmap[p / 8], p % 8)
    }

    predicate TestBit(bit: nat)
      requires bit < 8 * bitmap.Length
      reads this, bitmap
      ensures TestBit(bit) <==> bit in Used()
    {
      Bit(bitmap[bit / 8], bit % 8)
    }

    method SetBit(bit: nat)
      requires bit < 8 * bitmap.Length
      modifies bitmap
      ensures Used() == old(Used()) + {bit}
    {
      ghost var b := bitmap[bit / 8];
      bitmap[bit / 8] := bitmap[bit / 8] | Mask(bit % 8);
      forall p: nat | p < 8 * bitmap.Length
        ensures Bit(bitmap[p / 8], p % 8) <==> p == bit || old(Bit(bitmap[p / 8], p % 8))
      {
        if p / 8 == bit / 8 {
          SetBits(b, bit % 8, p % 8);
        }
      }
    }

    method ClearBit(bit: nat)
      requires bit < 8 * bitmap.Length
      modifies bitmap
      ensures Used() == old(Used()) - {bit}
    {
      ghost var b := bitmap[bit / 8];
      bitmap[bit / 8] := bitmap[bit / 8] & !Mask(bit % 8);
      forall p: nat | p < 8 * bitmap.Length
        ensures Bit(bitmap[p / 8], p % 8) <==> p != bit && old(Bit(bitmap[p / 8], p % 8))
      {
        if p / 8 == bit / 8 {
          ClearBits(b, bit % 8, p % 8);
        }
      }
    }

    /** Sets the eight bits of a cell. */
    method FillCell(i: nat)
      requires i < bitmap.Length
      modifies bitmap
      ensures Used() == old(Used()) + PageRange(8 * i, 8)
    {
      bitmap[i] := 0xFF;
      forall p: nat | p < 8 * bitmap.Length
        ensures Bit(bitmap[p / 8], p % 8) <==> p in PageRange(8 * i, 8) || old(Bit(bitmap[p / 8], p % 8))
      {
        FullByte(p % 8);
      }
    }

    /** Takes the lowest free page. The result 0 stands for the null pointer,
        which is also the address of page 0. */
    method Alloc() returns (address: nat)
      requires Valid()
      modifies bitmap
      ensures (forall p :: 0 <= p < totalPages ==> p in old(Used())) ==> address == 0 && Used() == old(Used())
      ensures (exists p :: 0 <= p < totalPages && p !in old(Used())) ==>
                exists p: nat :: LowestRun(old(Used()), totalPages, p, 1) && address == p * PAGE_SIZE &&
                    Used() == old(Used()) + {p}
    {
      var i := 0;
      while i < totalPages
        invariant i <= totalPages && Used() == old(Used())
        invariant forall p :: 0 <= p < i ==> p in Used()
      {
        if !TestBit(i) {
          SetBit(i);
          assert LowestRun(old(Used()), totalPages, i, 1) by {
            forall q: nat | q < i ensures !FreeRun(old(Used()), totalPages, q, 1) {
              assert q in old(Used());
            }
          }
          return i * PAGE_SIZE;
        }
        i := i + 1;
      }
      return 0;
    }

    /** Marks every page of a range. */
    method SetRange(start: nat, n: nat)
      requires start + n <= 8 * bitmap.Length
      modifies bitmap
      ensures Used() == old(Used()) + PageRange(start, n)
    {
      var j := 0;
      while j < n
        invariant j <= n && Used() == old(Used()) + PageRange(start, j)
      {
        SetBit(start + j);
        j := j + 1;
      }
    }

    /** Takes the lowest run of numPages free pages; fails exactly when there is
        none or numPages is 0. */
    method AllocPages(numPages: nat) returns (address: nat, ghost first: nat)
      requires Valid()
      modifies bitmap
      ensures !HasRun(old(Used()), totalPages, numPages) ==> address == 0 && Used() == old(Used())
      ensures HasRun(old(Used()), totalPages, numPages) ==>
                && address == first * PAGE_SIZE && LowestRun(old(Used()), totalPages, first, numPages)
                && Used() == old(Used()) + PageRange(first, numPages)
    {
      var startPage, contiguous := 0, 0;
      var i := 0;
      ghost var used := Used();
      while i < totalPages
        invariant i <= totalPages && Used() == used && contiguous <= i
        invariant contiguous > 0 ==> startPage == i - contiguous
        invariant Counted(used, totalPages, i, contiguous, numPages)
      {
        if !TestBit(i) {
          if contiguous == 0 {
            startPage := i;
          }
          contiguous := contiguous + 1;
          if contiguous == numPages {
            RunFound(used, totalPages, i, contiguous - 1, numPages);
            SetRange(startPage, numPages);
            return startPage * PAGE_SIZE, startPage;
          }
          CountOne(used, totalPages, i, contiguous - 1, numPages);
        } else {
          CountReset(used, totalPages, i, contiguous, numPages);
          contiguous := 0;
        }
        i := i + 1;
      }
      return 0, 0;
    }

    method FreePages(address: nat, numPages: nat)
      requires address / PAGE_SIZE + numPages <= 8 * bitmap.Length
      modifies bitmap
      ensures Used() == old(Used()) - PageRange(address / PAGE_SIZE, numPages)
    {
      var startPage := address / PAGE_SIZE;
      var i := 0;
      while i < numPages
        invariant i <= numPages && Used() == old(Used()) - PageRange(startPage, i)
      {
        ClearBit(startPage + i);
        i := i + 1;
      }
    }

    method Free(address: nat)
      requires address / PAGE_SIZE < 8 * bitmap.Length
      modifies bitmap
      ensures Used() == old(Used()) - {address / PAGE_SIZE}
    {
      ClearBit(address / PAGE_SIZE);
    }
  }

  ghost predicate HasRun(used: set<nat>, total: nat, n: nat) {
    n > 0 && exists q: nat :: FreeRun(used, total, q, n)
  }

  /** The state of the scan before page i: the contiguous pages before it are
      free, the one before those is not, and no long enough run ended yet. */
  ghost predicate Counted(used: set<nat>, total: nat, i: nat, contiguous: nat, n: nat) {
    && contiguous <= i && (n > 0 ==> contiguous < n)
    && (forall p :: i - contiguous <= p < i ==> p !in used)
    && (i == contiguous || i - contiguous - 1 in used)
    && (n > 0 ==> forall q: nat :: q + n <= i ==> !FreeRun(used, total, q, n))
  }

  lemma CountOne(used: set<nat>, total: nat, i: nat, contiguous: nat, n: nat)
    requires Counted(used, total, i, contiguous, n) && i !in used && contiguous + 1 != n
    ensures Counted(used, total, i + 1, contiguous + 1, n)
  {
    forall q: nat | n > 0 && q + n <= i + 1 ensures !FreeRun(used, total, q, n) {
      if q + n == i + 1 {
        assert q <= i - contiguous - 1 < q + n;
      }
    }
  }

  lemma CountReset(used: set<nat>, total: nat, i: nat, contiguous: nat, n: nat)
    requires Counted(used, total, i, contiguous, n) && i in used
    ensures Counted(used, total, i + 1, 0, n)
  {
  }

  /** A run found by counting up from the last used page is the lowest one. */
  lemma RunFound(used: set<nat>, total: nat, i: nat, contiguous: nat, n: nat)
    requires Counted(used, total, i, contiguous, n) && i !in used && i < total && contiguous + 1 == n
    ensures LowestRun(used, total, i - contiguous, n) && HasRun(used, total, n)
  {
    assert FreeRun(used, total, i - contiguous, n);
  }
}
