/** Directories whose size is not known: nothing but the end of the cluster chain
    can end a read of one. */
module FatChain {
  import opened FatModel

  /** How many sectors of a cluster are read: one, even if the boot sector says 0. */
  function SectorsPer(v: Volume): (n: nat)
    ensures n > 0
  {
    if v.perCluster == 0 then 1 else v.perCluster
  }

  /** The number of bytes in the clusters of a chain. */
  function ChainBytes(v: Volume, chain: seq<Word>): nat { |chain| * SectorsPer(v) * SECTOR }

  /** The clusters are linked by the table and all their sectors can be read. */
  ghost predicate ChainOk(v: Volume, chain: seq<Word>) {
    && VolumeOk(v) && chain != []
    && (forall i :: 0 <= i < |chain| ==> LinkOk(v, chain, i))
    && forall n :: 0 <= n < |chain| * SectorsPer(v) ==> SectorOk(v, chain, n)
  }

  /** The file stands inside its chain. */
  ghost predicate InChain(v: Volume, chain: seq<Word>, f: File) {
    ChainOk(v, chain) && f.position < ChainBytes(v, chain) && Buffered(v, chain, f, f.position / SECTOR)
  }

  /** The table entry of the last cluster. */
  function LastEntry(v: Volume, chain: seq<Word>): Word
    requires chain != []
  {
    Entry(v, chain[|chain| - 1])
  }

  /** The reader notices the end of the chain: the entry of the last cluster is
      one of the eight end marks that the code knows, or leads to no sector. */
  predicate EndIsMet(v: Volume, chain: seq<Word>)
    requires chain != []
  {
    LastEntry(v, chain) >= CHAIN_END || !Readable(v, v.dataAt(LastEntry(v, chain), 0))
  }

  /** The sector that is read behind the chain if its end is not noticed. */
  function SectorBehind(v: Volume, chain: seq<Word>): Sector
    requires chain != []
  {
    SectorAt(v, v.dataAt(LastEntry(v, chain), 0))
  }

  // ---------- Places in the chain ----------

  lemma {:induction false} PlaceInRows(v: Volume, n: nat)
    ensures var p := PlaceOf(v.perCluster, n); p.sector < SectorsPer(v) && n == p.cluster * SectorsPer(v) + p.sector
  {
    if n > 0 {
      PlaceInRows(v, n - 1);
      var p := PlaceOf(v.perCluster, n - 1);
      assert (p.cluster + 1) * SectorsPer(v) == p.cluster * SectorsPer(v) + SectorsPer(v);
    }
  }

  /** Only the last sector of the last cluster is followed by a new cluster that
      is not in the chain. */
  lemma LastPlace(v: Volume, chain: seq<Word>, n: nat)
    requires n + 1 == |chain| * SectorsPer(v)
    ensures chain != [] && PlaceOf(v.perCluster, n) == Place(|chain| - 1, SectorsPer(v) - 1)
  {
    var p, per := PlaceOf(v.perCluster, n), SectorsPer(v);
    PlaceInRows(v, n);
    Rows(per, if p.cluster < |chain| then 0 else |chain|, p.cluster);
    Rows(per, if p.cluster < |chain| - 1 then p.cluster + 1 else 0, |chain| - 1);
    assert (|chain| - 1) * per == |chain| * per - per;
    assert (p.cluster + 1) * per == p.cluster * per + per;
  }

  /** A file just opened stands at the start of its chain. */
  lemma OpenedInChain(v: Volume, chain: seq<Word>, isDirectory: bool, size: Word)
    requires ChainOk(v, chain)
    ensures InChain(v, chain, Opened(v, isDirectory, size, chain[0]))
  {
    Rows(SectorsPer(v), 1, |chain|);
  }

  // ---------- Reading on ----------

  lemma WithinSector(p: nat, sectors: nat)
    ensures (p + 1) % SECTOR != 0 ==> (p + 1) / SECTOR == p / SECTOR
    ensures (p + 1) % SECTOR == 0 ==> (p + 1) / SECTOR == p / SECTOR + 1 && p % SECTOR == SECTOR - 1
    ensures p < sectors * SECTOR <==> p / SECTOR < sectors
    ensures p + 1 == sectors * SECTOR ==> (p + 1) % SECTOR == 0 && p / SECTOR + 1 == sectors
  {
  }

  /** At the end of the last sector the table decides whether the read goes on. */
  lemma CrossesEnd(v: Volume, k: Cache, chain: seq<Word>, f: File, n: nat)
    requires CacheOk(v, k) && ChainOk(v, chain) && Buffered(v, chain, f, n) && n + 1 == |chain| * SectorsPer(v)
    ensures var (k', f', ok) := Crossed(v, k, f);
      && CacheOk(v, k') && f'.position == f.position && (ok <==> !EndIsMet(v, chain))
      && (ok ==> f'.buffer == SectorBehind(v, chain))
      && f'.size == (if LastEntry(v, chain) >= CHAIN_END then f.position % W else f.size)
  {
    LastPlace(v, chain, n);
    assert LinkOk(v, chain, |chain| - 1);
    CacheIsTransparent(v, k, f.cluster);
  }

  /** After the byte at the position was taken: inside the chain the file goes on
      as the table says; behind the chain it does so exactly when the end is not met. */
  ghost predicate Stepped(v: Volume, chain: seq<Word>, f: File, k: Cache, f': File, ok: bool)
    requires chain != []
  {
    CacheOk(v, k) &&
    if f'.position < ChainBytes(v, chain) then ok && InChain(v, chain, f')
    else (ok <==> !EndIsMet(v, chain)) && (ok ==> f'.buffer == SectorBehind(v, chain))
  }

  lemma TakeInChain(v: Volume, k: Cache, chain: seq<Word>, f: File)
    requires CacheOk(v, k) && InChain(v, chain, f)
    ensures var (k', f', ok) := TakeByte(CrossingOf(v), k, f);
      f'.position == f.position + 1 && Stepped(v, chain, f, k', f', ok)
    ensures NextByte(v, chain, f.position, ByteAt(f))
  {
    var n, f1 := f.position / SECTOR, f.(position := f.position + 1);
    WithinSector(f.position, |chain| * SectorsPer(v));
    if f1.position % SECTOR == 0 {
      if n + 1 < |chain| * SectorsPer(v) {
        assert SectorOk(v, chain, n + 1);
        CrossBuffers(v, k, chain, f1, n);
        WithinSector(f.position + 1, |chain| * SectorsPer(v));
      } else {
        CrossesEnd(v, k, chain, f1, n);
      }
    }
  }

  /** Up to the end of its chain a file holds the bytes of its sectors. */
  lemma {:induction false} ReadInChain(v: Volume, k: Cache, chain: seq<Word>, f: File, n: nat)
    requires CacheOk(v, k) && InChain(v, chain, f) && 0 < n <= ChainBytes(v, chain) - f.position
    ensures var r := ReadBytes(CrossingOf(v), k, f, n);
      && |r.bytes| == n && AllNext(v, chain, f.position, r.bytes) && r.file.position == f.position + n
      && Stepped(v, chain, f, r.cache, r.file, r.ok)
    decreases n
  {
    var (k', f', ok) := TakeByte(CrossingOf(v), k, f);
    TakeInChain(v, k, chain, f);
    if n == 1 {
      OneByte(CrossingOf(v), k, f);
      AllNextMore(v, chain, f.position, ByteAt(f), []);
    } else {
      ReadInChain(v, k', chain, f', n - 1);
      AllNextMore(v, chain, f.position, ByteAt(f), ReadBytes(CrossingOf(v), k', f', n - 1).bytes);
    }
  }

  /** The bytes of the first sector behind the chain. */
  lemma ReadBehind(cross: Crossing, k: Cache, f: File, n: nat)
    requires f.position % SECTOR == 0 && n > 0
    ensures var b := ReadBytes(cross, k, f, n).bytes;
      var m := if n < SECTOR then n else SECTOR; |b| >= m && b[..m] == f.buffer[..m]
  {
    var m := if n < SECTOR then n else SECTOR;
    RoundReads(cross, k, f, m, n - m);
    var r := Round(cross, k, f, m);
    assert r.bytes == f.buffer[..m] && (r.bytes + ReadBytes(cross, r.cache, r.file, n - m).bytes)[..m] == r.bytes;
  }

  /** A directory of unknown size, read from a place inside its chain: the bytes
      of the chain come first; a read yields exactly the next bytes of the chain
      exactly when it does not ask for more, or the end of the chain is met.
      Otherwise it goes on with the sector the entry of the last cluster leads to. */
  lemma DirectoryRead(v: Volume, k: Cache, chain: seq<Word>, f: File, n: nat)
    requires CacheOk(v, k) && InChain(v, chain, f) && f.isDirectory && f.size == 0
    ensures var b, rest := ReadFile(v, k, f, n).bytes, ChainBytes(v, chain) - f.position;
      var m := if n < rest then n else rest;
      && |b| >= m && AllNext(v, chain, f.position, b[..m])
      && (|b| == m <==> n <= rest || EndIsMet(v, chain))
      && (|b| > m ==> b[m] == SectorBehind(v, chain)[0])
  {
    var rest := ChainBytes(v, chain) - f.position;
    if 0 < n <= rest {
      ReadInChain(v, k, chain, f, n);
      assert ReadFile(v, k, f, n).bytes[..n] == ReadFile(v, k, f, n).bytes;
    } else if n > rest {
      ReadInChain(v, k, chain, f, rest);
      ReadsCompose(CrossingOf(v), k, f, rest, n - rest);
      var r := ReadBytes(CrossingOf(v), k, f, rest);
      var more := ReadBytes(CrossingOf(v), r.cache, r.file, n - rest).bytes;
      assert (r.bytes + more)[..rest] == r.bytes == r.bytes[..rest];
      if r.ok {
        WithinSector(r.file.position - 1, |chain| * SectorsPer(v));
        ReadBehind(CrossingOf(v), r.cache, r.file, n - rest);
        assert more[..1][0] == r.file.buffer[..1][0];
      }
    }
  }

  /** The crossing at the end of the chain is the last step of a read up to there. */
  lemma {:induction false} ReadToEnd(v: Volume, k: Cache, chain: seq<Word>, f: File, n: nat)
    requires CacheOk(v, k) && InChain(v, chain, f) && 0 < n == ChainBytes(v, chain) - f.position
    ensures var r := ReadBytes(CrossingOf(v), k, f, n);
      && r.file.position == ChainBytes(v, chain) && (r.ok <==> !EndIsMet(v, chain))
      && (LastEntry(v, chain) >= CHAIN_END ==> r.file.size == ChainBytes(v, chain) % W)
      && r.file.isDirectory == f.isDirectory
    decreases n
  {
    ReadInChain(v, k, chain, f, n);
    KindKept(v, k, f, n);
    var (k', f', ok) := TakeByte(CrossingOf(v), k, f);
    TakeInChain(v, k, chain, f);
    if n == 1 {
      OneByte(CrossingOf(v), k, f);
      WithinSector(f.position, |chain| * SectorsPer(v));
      CrossesEnd(v, k, chain, f.(position := f.position + 1), f.position / SECTOR);
    } else {
      ReadToEnd(v, k', chain, f', n - 1);
    }
  }

  /** Once a read has met one of the end marks, the directory has a size, and
      nothing more is read from it (unless its bytes make up whole 4 GiB). */
  lemma DirectoryEnds(v: Volume, k: Cache, chain: seq<Word>, f: File, n: nat, more: nat)
    requires CacheOk(v, k) && InChain(v, chain, f) && f.isDirectory && f.size == 0
    requires n >= ChainBytes(v, chain) - f.position && LastEntry(v, chain) >= CHAIN_END
    ensures var r := ReadFile(v, k, f, n);
      && r.file.size == ChainBytes(v, chain) % W && r.file.position == ChainBytes(v, chain)
      && (ChainBytes(v, chain) % W != 0 ==> ReadFile(v, r.cache, r.file, more).bytes == [])
  {
    var rest := ChainBytes(v, chain) - f.position;
    ReadToEnd(v, k, chain, f, rest);
    ReadStops(CrossingOf(v), k, f, rest, n);
    var r := ReadBytes(CrossingOf(v), k, f, n);
    AtItsEnd(v, r.cache, r.file, more);
  }

  lemma ReadStops(cross: Crossing, k: Cache, f: File, m: nat, n: nat)
    requires m <= n && !ReadBytes(cross, k, f, m).ok
    ensures ReadBytes(cross, k, f, n) == ReadBytes(cross, k, f, m)
  {
    ReadsCompose(cross, k, f, m, n - m);
  }

  lemma AtItsEnd(v: Volume, k: Cache, f: File, n: nat)
    ensures f.size == f.position % W != 0 ==> ReadFile(v, k, f, n).bytes == []
  {
    if f.size == f.position % W != 0 {
      assert Capped(f, n) == 0;
    }
  }

  // ---------- An ordinary volume ----------

  /** 16 sectors in a cluster, the table at sector 32, the data at sector 0x1000,
      and cluster 2 with the mark 0x0FFF_FFFF as its entry. */
  ghost predicate IsOrdinary(v: Volume) {
    && v.offset == 0 && v.partSize == 0x10_0000 && v.reserved == 32 && v.perCluster == 16
    && v.dataAt == Geometry(0x1000, 16) && Entry(v, 2) == 0x0FFF_FFFF
  }

  lemma OrdinaryExists() returns (v: Volume)
    ensures IsOrdinary(v)
  {
    var table := seq(8, _ => 0) + LittleEndian(0x0FFF_FFFF) + seq(SECTOR - 12, _ => 0);
    Word32ReadsBack(seq(8, _ => 0), 0x0FFF_FFFF, seq(SECTOR - 12, _ => 0));
    v := Volume(_ => table, 0, 0x10_0000, 32, 16, Geometry(0x1000, 16));
    assert FatSector(2) == 0;
  }

  lemma MarkLeadsBack()
    ensures Geometry(0x1000, 16)(0x0FFF_FFFF, 0) == 0xFD0
  {
    assert (0x0FFF_FFFF - 2) * 16 == 0xFFFF_FFD0;
  }

  lemma FirstRow(v: Volume, n: nat)
    requires n < SectorsPer(v)
    ensures PlaceOf(v.perCluster, n) == Place(0, n)
  {
    PlaceInRows(v, n);
    var p := PlaceOf(v.perCluster, n);
    Rows(SectorsPer(v), if p.cluster > 0 then 1 else 0, p.cluster);
  }

  lemma FirstLba(n: nat)
    requires n < 16
    ensures Geometry(0x1000, 16)(2, n) == 0x1000 + n
  {
    SectorPlace(0x1000, 16, 2, n);
  }

  lemma FirstSectorOk(v: Volume, n: nat)
    requires IsOrdinary(v) && n < 16
    ensures SectorOk(v, [2], n)
  {
    FirstRow(v, n);
    FirstLba(n);
    assert DataLba(v, [2], Place(0, n)) == 0x1000 + n;
  }

  lemma OneCluster(v: Volume)
    requires IsOrdinary(v)
    ensures ChainOk(v, [2])
  {
    assert LinkOk(v, [2], 0);
    forall n | 0 <= n < 16 ensures SectorOk(v, [2], n) { FirstSectorOk(v, n); }
  }

  /** The directory of one cluster that ends with the mark 0x0FFF_FFFF, as it is
      written: its end is not met, and a read of more than the cluster goes on
      with sector 0xFD0, in front of the data. */
  lemma EndMarkMissed(v: Volume, k: Cache, n: nat)
    requires IsOrdinary(v) && CacheOk(v, k) && n > 0x2000
    ensures var f := Opened(v, true, 0, 2);
      && InChain(v, [2], f) && ChainBytes(v, [2]) == 0x2000 && LastEntry(v, [2]) == 0x0FFF_FFFF
      && v.dataAt(0x0FFF_FFFF, 0) == 0xFD0
      && var b := ReadFile(v, k, f, n).bytes; |b| > 0x2000 && b[0x2000] == SectorAt(v, 0xFD0)[0]
  {
    MarkLeadsBack();
    OneCluster(v);
    OpenedInChain(v, [2], true, 0);
    DirectoryRead(v, k, [2], Opened(v, true, 0, 2), n);
  }
}
