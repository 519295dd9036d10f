/** A FAT32 volume as values: sectors on a disk, the table of cluster chains, and
    what reading a file through a one-sector buffer yields. */
module FatModel {

  type Byte = b: nat | b < 256
  type Word = x: nat | x < 0x1_0000_0000 witness 0

  const W: nat := 0x1_0000_0000
  const SECTOR: nat := 512
  const CACHED: nat := 5
  const NOWHERE: Word := 0xFFFF_FFFF
  const CHAIN_END: Word := 0xFFFF_FFF8

  type Sector = s: seq<Byte> | |s| == SECTOR witness seq(SECTOR, _ => 0)

  /** The disk, the partition on it, and what the boot sector says; dataAt is
      the place on the partition of a sector of a cluster. */
  datatype Volume = Volume(disk: nat -> Sector, offset: Word, partSize: Word, reserved: Word, perCluster: Byte,
                           dataAt: (Word, nat) -> Word)

  /** cluster_to_lba, in 32-bit arithmetic. */
  function ClusterLba(dataLba: Word, perCluster: Byte, cluster: Word): Word {
    (dataLba + (cluster - 2) * perCluster) % W
  }

  function Geometry(dataLba: Word, perCluster: Byte): (Word, nat) -> Word {
    (cluster: Word, sector: nat) => (ClusterLba(dataLba, perCluster, cluster) + sector) % W
  }

  function DiskLba(v: Volume, lba: nat): Word { (lba + v.offset) % W }

  /** The bounds check of mbr_read_sector: only the first sector is looked at,
      and its place on the disk is compared with the size of the partition. */
  predicate Readable(v: Volume, lba: nat) { DiskLba(v, lba) < v.partSize }

  function SectorAt(v: Volume, lba: nat): Sector { v.disk(DiskLba(v, lba)) }

  /** n consecutive sectors of the disk. */
  function SectorsAt(v: Volume, lba: nat, n: nat): (s: seq<Byte>)
    ensures |s| == n * SECTOR
  {
    if n == 0 then [] else SectorsAt(v, lba, n - 1) + v.disk(DiskLba(v, lba) + n - 1)
  }

  /** The bounds check: the place of the first sector on the disk, in 32-bit
      arithmetic, is compared with the size of the partition. */
  lemma ReadableIs(v: Volume, lba: Word)
    ensures Readable(v, lba) <==>
            (if lba + v.offset < W then lba + v.offset else lba + v.offset - W) < v.partSize
  {
  }

  /** The sectors read are those of the disk from that place on. */
  lemma {:induction false} SectorsAtIs(v: Volume, lba: Word, n: nat, k: nat)
    requires k < n * SECTOR
    ensures var place := if lba + v.offset < W then lba + v.offset else lba + v.offset - W;
      SectorsAt(v, lba, n)[k] == v.disk(place + k / SECTOR)[k % SECTOR]
  {
    SectorsPart(v, lba, n, k / SECTOR);
    var part := SectorsAt(v, lba, n)[k / SECTOR * SECTOR..(k / SECTOR + 1) * SECTOR];
    assert part[k % SECTOR] == SectorsAt(v, lba, n)[k];
  }

  function Word32(b: seq<Byte>, i: nat): Word
    requires i + 4 <= |b|
  {
    var b0: int, b1: int, b2: int, b3: int := b[i], b[i + 1], b[i + 2], b[i + 3];
    b0 + 0x100 * b1 + 0x1_0000 * b2 + 0x100_0000 * b3
  }

  /** The sector of the table, counted from its start, with the entry of a cluster. */
  function FatSector(cluster: nat): nat { cluster * 4 % W / SECTOR }

  /** The table entry of a cluster, read straight from the disk. */
  function Entry(v: Volume, cluster: nat): Word {
    Word32(SectorAt(v, v.reserved + FatSector(cluster)), cluster * 4 % W % SECTOR)
  }

  /** A word as it lies on the disk, lowest byte first. */
  function LittleEndian(w: Word): seq<Byte> { [w % 0x100, w / 0x100 % 0x100, w / 0x1_0000 % 0x100, w / 0x100_0000] }

  lemma Word32ReadsBack(before: seq<Byte>, w: Word, after: seq<Byte>)
    ensures Word32(before + LittleEndian(w) + after, |before|) == w
  {
    var b, i := before + LittleEndian(w) + after, |before|;
    assert b[i] == w % 0x100 && b[i + 1] == w / 0x100 % 0x100 && b[i + 2] == w / 0x1_0000 % 0x100 &&
        b[i + 3] == w / 0x100_0000;
    WordParts(w);
  }

  lemma WordParts(w: Word)
    ensures w == w % 0x100 + 0x100 * (w / 0x100 % 0x100) + 0x1_0000 * (w / 0x1_0000 % 0x100) +
            0x100_0000 * (w / 0x100_0000)
  {
    assert w / 0x1_0000 == w / 0x100 / 0x100 && w / 0x100_0000 == w / 0x1_0000 / 0x100;
  }

  /** The clusters lie one behind the other from the start of the data on, so no
      two sectors of the clusters 2, 3, ... share a place on the partition. */
  lemma ClustersApart(dataLba: Word, per: Byte, c: Word, s: nat, d: Word, t: nat)
    requires 2 <= c <= d && s < per && t < per && dataLba + (d - 1) * per <= W
    ensures Geometry(dataLba, per)(2, 0) == dataLba
    ensures Geometry(dataLba, per)(c, s) == dataLba + (c - 2) * per + s
    ensures (c, s) != (d, t) ==> Geometry(dataLba, per)(c, s) != Geometry(dataLba, per)(d, t)
  {
    Spread(per, c - 2, s, d - 2, t);
    LastRow(per, d);
    SectorPlace(dataLba, per, c, s);
    SectorPlace(dataLba, per, d, t);
    FirstSector(dataLba, per);
  }

  lemma LastRow(per: nat, d: nat)
    requires d >= 2
    ensures (d - 1) * per == (d - 2) * per + per
  {
  }

  lemma FirstSector(dataLba: Word, per: Byte)
    ensures Geometry(dataLba, per)(2, 0) == dataLba
  {
    assert (2 - 2) * per == 0;
    SmallMod(dataLba);
  }

  lemma SectorPlace(dataLba: Word, per: Byte, c: Word, s: nat)
    requires c >= 2 && dataLba + (c - 2) * per + s < W
    ensures Geometry(dataLba, per)(c, s) == dataLba + (c - 2) * per + s
  {
    var a := (c - 2) * per;
    Rows(per, 0, c - 2);
    SmallMod(dataLba + a);
    SmallMod(dataLba + a + s);
  }

  /** Places in rows of the same length. */
  lemma Spread(per: nat, c: nat, s: nat, d: nat, t: nat)
    requires c <= d && s < per && t < per
    ensures c * per + s <= d * per + per - 1 && c * per <= d * per
    ensures (c, s) != (d, t) ==> c * per + s != d * per + t
  {
    if c < d {
      Rows(per, c + 1, d);
      assert (c + 1) * per == c * per + per;
    }
  }

  lemma {:induction false} Rows(per: nat, c: nat, d: nat)
    requires c <= d
    ensures c * per <= d * per
    decreases d
  {
    if c < d {
      Rows(per, c, d - 1);
      assert d * per == (d - 1) * per + per;
    }
  }

  lemma SmallMod(x: nat)
    requires x < W
    ensures x % W == x
  {
  }

  // ---------- The cached table ----------

  datatype CacheState = CacheState(position: Word, bytes: seq<Byte>)

  /** A position is unset, or that of a sector some entry lies in. */
  type Cache = k: CacheState | |k.bytes| == CACHED * SECTOR && (k.position == NOWHERE || k.position < 0x80_0000)
    witness CacheState(NOWHERE, seq(CACHED * SECTOR, _ => 0))

  /** The table lies well below the end of the disk's address range. */
  ghost predicate VolumeOk(v: Volume) { v.offset + v.reserved + 0x80_0000 + CACHED <= W }

  /** The cache holds the sectors it claims to hold. */
  ghost predicate CacheOk(v: Volume, k: Cache) {
    (k.position == NOWHERE || k.bytes == SectorsAt(v, v.reserved + k.position, CACHED))
  }

  predicate Missed(k: Cache, s: nat) { s < k.position || s >= (k.position + CACHED) % W }

  /** The cache as a lookup leaves it: a failed read changes the position only. */
  function Refilled(v: Volume, k: Cache, cluster: nat): (r: Cache)
    ensures r.position <= FatSector(cluster) < r.position + CACHED
  {
    var s := FatSector(cluster);
    FatSectorBound(cluster);
    if !Missed(k, s) then k
    else CacheState(s, if Readable(v, v.reserved + s) then SectorsAt(v, v.reserved + s, CACHED) else k.bytes)
  }

  /** The entry as a lookup finds it in the refilled cache. */
  function LookedUp(v: Volume, k: Cache, cluster: nat): Word
  {
    var r := Refilled(v, k, cluster);
    IndexInCache(cluster, r.position);
    Word32(r.bytes, cluster * 4 % W - r.position * SECTOR)
  }

  /** An entry never straddles two sectors. */
  lemma IndexInCache(cluster: nat, position: nat)
    requires position <= FatSector(cluster) < position + CACHED
    ensures position * SECTOR <= cluster * 4 % W && cluster * 4 % W - position * SECTOR + 4 <= CACHED * SECTOR
    ensures cluster * 4 % W % SECTOR + 4 <= SECTOR
    ensures cluster * 4 % W - position * SECTOR == (FatSector(cluster) - position) * SECTOR + cluster * 4 % W % SECTOR
  {
  }

  lemma {:induction false} SectorsPart(v: Volume, lba: nat, n: nat, i: nat)
    requires i < n
    ensures SectorsAt(v, lba, n)[i * SECTOR..(i + 1) * SECTOR] == v.disk(DiskLba(v, lba) + i)
  {
    var most, last := SectorsAt(v, lba, n - 1), v.disk(DiskLba(v, lba) + n - 1);
    assert SectorsAt(v, lba, n) == most + last;
    if i < n - 1 {
      SectorsPart(v, lba, n - 1, i);
      assert (i + 1) * SECTOR <= (n - 1) * SECTOR;
      FrontPart(most, last, i * SECTOR, (i + 1) * SECTOR);
    } else {
      LastPart(most, last);
    }
  }

  lemma FrontPart(a: seq<Byte>, b: seq<Byte>, lo: nat, hi: nat)
    requires lo <= hi <= |a|
    ensures (a + b)[lo..hi] == a[lo..hi]
  {
  }

  lemma LastPart(a: seq<Byte>, b: seq<Byte>)
    ensures (a + b)[|a|..|a| + |b|] == b
  {
  }

  lemma Word32InPart(b: seq<Byte>, lo: nat, hi: nat, j: nat)
    requires lo + j + 4 <= hi <= |b|
    ensures Word32(b, lo + j) == Word32(b[lo..hi], j)
  {
  }

  /** The sector of an entry, as the cache holds it. */
  lemma SectorCached(v: Volume, k: Cache, s: nat)
    requires VolumeOk(v) && CacheOk(v, k) && k.position != NOWHERE && k.position <= s < k.position + CACHED
    ensures k.bytes[(s - k.position) * SECTOR..(s - k.position + 1) * SECTOR] == SectorAt(v, v.reserved + s)
  {
    SectorsPart(v, v.reserved + k.position, CACHED, s - k.position);
  }

  /** The entry of a cluster is the four bytes at four times its number in the
      table, which begins behind the reserved sectors. */
  lemma EntryIs(v: Volume, cluster: Word, n: nat)
    requires VolumeOk(v) && cluster * 4 + 4 <= n * SECTOR && cluster < 0x4000_0000
    ensures Entry(v, cluster) == Word32(SectorsAt(v, v.reserved, n), cluster * 4)
  {
    var s, j := EntryPlace(cluster, n);
    EntryInPart(v, s, j, n);
  }

  lemma EntryInPart(v: Volume, s: nat, j: nat, n: nat)
    requires VolumeOk(v) && s < n && s < 0x80_0000 && j + 4 <= SECTOR
    ensures s * SECTOR + j + 4 <= |SectorsAt(v, v.reserved, n)|
    ensures Word32(SectorAt(v, v.reserved + s), j) == Word32(SectorsAt(v, v.reserved, n), s * SECTOR + j)
  {
    SectorsPart(v, v.reserved, n, s);
    Word32InPart(SectorsAt(v, v.reserved, n), s * SECTOR, (s + 1) * SECTOR, j);
  }

  lemma EntryPlace(cluster: Word, n: nat) returns (s: nat, j: nat)
    requires cluster * 4 + 4 <= n * SECTOR && cluster < 0x4000_0000
    ensures s == FatSector(cluster) < 0x80_0000 && j == cluster * 4 % W % SECTOR && s < n && j + 4 <= SECTOR
    ensures s * SECTOR + j == cluster * 4
  {
    s, j := cluster / 128, cluster % 128 * 4;
  }

  lemma FatSectorBound(cluster: nat)
    ensures FatSector(cluster) < 0x80_0000
  {
  }

  /** A failed read makes the cache claim sectors it does not hold, unless they
      happen to be the same. */
  lemma FailedReadSpoils(v: Volume, k: Cache, cluster: nat)
    requires CacheOk(v, k)
    ensures CacheOk(v, Refilled(v, k, cluster)) <==>
              !Missed(k, FatSector(cluster)) || Readable(v, v.reserved + FatSector(cluster)) ||
              k.bytes == SectorsAt(v, v.reserved + FatSector(cluster), CACHED)
  {
    FatSectorBound(cluster);
  }

  /** The cache is transparent: with successful reads a lookup finds what is on
      the disk, whatever was looked up before. */
  lemma CacheIsTransparent(v: Volume, k: Cache, cluster: nat)
    requires VolumeOk(v) && CacheOk(v, k)
    requires Missed(k, FatSector(cluster)) ==> Readable(v, v.reserved + FatSector(cluster))
    ensures CacheOk(v, Refilled(v, k, cluster)) && LookedUp(v, k, cluster) == Entry(v, cluster)
  {
    var r, s := Refilled(v, k, cluster), FatSector(cluster);
    FatSectorBound(cluster);
    IndexInCache(cluster, r.position);
    SectorCached(v, r, s);
    var lo := (s - r.position) * SECTOR;
    Word32InPart(r.bytes, lo, lo + SECTOR, cluster * 4 % W % SECTOR);
  }

  /** The cache after a history of lookups. */
  function AfterLookups(v: Volume, k: Cache, clusters: seq<nat>): Cache
    decreases |clusters|
  {
    if clusters == [] then k else AfterLookups(v, Refilled(v, k, clusters[0]), clusters[1..])
  }

  ghost predicate AllReadable(v: Volume, clusters: seq<nat>) {
    forall i :: 0 <= i < |clusters| ==> EntryReadable(v, clusters[i])
  }

  ghost predicate EntryReadable(v: Volume, cluster: nat) { Readable(v, v.reserved + FatSector(cluster)) }

  lemma {:induction false} LookupsKeepCache(v: Volume, k: Cache, clusters: seq<nat>)
    requires VolumeOk(v) && CacheOk(v, k) && AllReadable(v, clusters)
    ensures CacheOk(v, AfterLookups(v, k, clusters))
    decreases |clusters|
  {
    if clusters != [] {
      assert EntryReadable(v, clusters[0]);
      CacheIsTransparent(v, k, clusters[0]);
      assert forall i :: 0 <= i < |clusters[1..]| ==> clusters[1..][i] == clusters[i + 1];
      LookupsKeepCache(v, Refilled(v, k, clusters[0]), clusters[1..]);
    }
  }

  /** From the start, with nothing cached: after any history of lookups with
      successful reads, the next one finds the entry that is on the disk. */
  lemma HistoryIsInvisible(v: Volume, bytes: seq<Byte>, clusters: seq<nat>, cluster: nat)
    requires VolumeOk(v) && |bytes| == CACHED * SECTOR && AllReadable(v, clusters) && EntryReadable(v, cluster)
    ensures LookedUp(v, AfterLookups(v, CacheState(NOWHERE, bytes), clusters), cluster) == Entry(v, cluster)
  {
    LookupsKeepCache(v, CacheState(NOWHERE, bytes), clusters);
    CacheIsTransparent(v, AfterLookups(v, CacheState(NOWHERE, bytes), clusters), cluster);
  }

  // ---------- Reading a file ----------

  /** An open file with its one-sector buffer. */
  datatype File = File(isDirectory: bool, position: nat, size: Word, firstCluster: Word, cluster: Word, sector: nat,
                       buffer: Sector)

  /** What happens when the last byte of the buffer has been taken: the next
      sector of the cluster, or the first one of the next cluster, is read. */
  function Crossed(v: Volume, k: Cache, f: File): (r: (Cache, File, bool))
    ensures r.1.position == f.position
  {
    var leave := f.sector + 1 >= v.perCluster;
    var k' := if leave then Refilled(v, k, f.cluster) else k;
    var c := if leave then LookedUp(v, k, f.cluster) else f.cluster;
    var s := if leave then 0 else f.sector + 1;
    var f' := f.(cluster := c, sector := s);
    if c >= CHAIN_END then (k', f'.(size := f.position % W), false)
    else if Readable(v, v.dataAt(c, s)) then (k', f'.(buffer := SectorAt(v, v.dataAt(c, s))), true)
    else (k', f', false)
  }

  /** The state after a read, the bytes read, and whether no end or error was met. */
  datatype Outcome = Outcome(cache: Cache, file: File, bytes: seq<Byte>, ok: bool)

  function After(bytes: seq<Byte>, r: Outcome): Outcome { r.(bytes := bytes + r.bytes) }

  type Crossing = (Cache, File) -> (Cache, File, bool)

  function CrossingOf(v: Volume): Crossing { (k: Cache, f: File) => Crossed(v, k, f) }

  /** What taking the byte at the position does, besides yielding it. */
  function TakeByte(cross: Crossing, k: Cache, f: File): (r: (Cache, File, bool))
  {
    var f' := f.(position := f.position + 1);
    if f'.position % SECTOR != 0 then (k, f', true) else cross(k, f')
  }

  function ByteAt(f: File): Byte { f.buffer[f.position % SECTOR] }

  /** Reading n bytes, one at a time. */
  function ReadBytes(cross: Crossing, k: Cache, f: File, n: nat): (r: Outcome)
    decreases n
  {
    if n == 0 then Outcome(k, f, [], true)
    else
      var (k', f', ok) := TakeByte(cross, k, f);
      if ok then After([ByteAt(f)], ReadBytes(cross, k', f', n - 1)) else Outcome(k', f', [ByteAt(f)], false)
  }

  /** How many bytes a read asks for: directories of unknown size are not limited. */
  function Capped(f: File, n: nat): nat {
    if f.isDirectory && f.size == 0 then n
    else
      var left := (f.size - f.position) % W;
      if n < left then n else left
  }

  /** What a call of fat_read does, for a file other than the root directory. */
  function ReadFile(v: Volume, k: Cache, f: File, n: nat): Outcome { ReadBytes(CrossingOf(v), k, f, Capped(f, n)) }

  lemma AfterAfter(a: seq<Byte>, b: seq<Byte>, r: Outcome)
    ensures After(a, After(b, r)) == After(a + b, r) && After([], r) == r
  {
    assert a + (b + r.bytes) == (a + b) + r.bytes;
  }

  /** Two reads in a row are one longer read, unless the first one met an end or an error. */
  lemma {:induction false} ReadsCompose(cross: Crossing, k: Cache, f: File, a: nat, b: nat)
    ensures var r := ReadBytes(cross, k, f, a);
      ReadBytes(cross, k, f, a + b) == if r.ok then After(r.bytes, ReadBytes(cross, r.cache, r.file, b)) else r
    decreases a
  {
    if a == 0 {
      AfterAfter([], [], ReadBytes(cross, k, f, b));
    } else {
      var (k', f', ok) := TakeByte(cross, k, f);
      if ok {
        ReadsCompose(cross, k', f', a - 1, b);
        var r := ReadBytes(cross, k', f', a - 1);
        AfterAfter([ByteAt(f)], r.bytes, ReadBytes(cross, r.cache, r.file, b));
      }
    }
  }

  lemma SliceHead(s: Sector, j: nat, m: nat)
    requires 0 < m && j + m <= SECTOR
    ensures s[j..j + m] == [s[j]] + s[j + 1..j + m]
  {
  }

  lemma OffsetStep(p: nat)
    requires p % SECTOR + 1 < SECTOR
    ensures (p + 1) % SECTOR == p % SECTOR + 1 && (p + 1) / SECTOR == p / SECTOR
  {
  }

  /** Bytes from within the buffer, not up to its end, are a piece of it. */
  lemma {:induction false} WithinBuffer(cross: Crossing, k: Cache, f: File, m: nat)
    requires f.position % SECTOR + m < SECTOR
    ensures ReadBytes(cross, k, f, m) == Outcome(k, f.(position := f.position + m),
                                                 f.buffer[f.position % SECTOR..f.position % SECTOR + m], true)
    decreases m
  {
    if m > 0 {
      OffsetStep(f.position);
      WithinBuffer(cross, k, f.(position := f.position + 1), m - 1);
      SliceHead(f.buffer, f.position % SECTOR, m);
    }
  }

  lemma OneByte(cross: Crossing, k: Cache, f: File)
    ensures var (k', f', ok) := TakeByte(cross, k, f); ReadBytes(cross, k, f, 1) == Outcome(k', f', [ByteAt(f)], ok)
  {
    var (k', f', ok) := TakeByte(cross, k, f);
    assert ReadBytes(cross, k', f', 0) == Outcome(k', f', [], true);
  }

  lemma SliceTail(s: Sector, j: nat)
    requires j < SECTOR
    ensures s[j..] == s[j..SECTOR - 1] + [s[SECTOR - 1]]
  {
  }

  /** The last byte of the buffer. */
  lemma TakeLast(cross: Crossing, k: Cache, f: File)
    requires f.position % SECTOR == SECTOR - 1
    ensures TakeByte(cross, k, f) == cross(k, f.(position := f.position + 1)) && ByteAt(f) == f.buffer[SECTOR - 1]
  {
    LastOfSector(f.position, 0);
  }

  /** One round of the read loop that empties the buffer. */
  lemma ToBufferEnd(cross: Crossing, k: Cache, f: File)
    ensures var j := f.position % SECTOR;
      var (k', f', ok) := cross(k, f.(position := f.position + (SECTOR - j)));
      ReadBytes(cross, k, f, SECTOR - j) == Outcome(k', f', f.buffer[j..], ok)
  {
    var j := f.position % SECTOR;
    var m := SECTOR - 1 - j;
    var f1 := f.(position := f.position + m);
    WithinBuffer(cross, k, f, m);
    LastOfSector(f.position, m);
    TakeLast(cross, k, f1);
    OneByte(cross, k, f1);
    SliceTail(f.buffer, j);
    ReadsCompose(cross, k, f, m, 1);
  }

  /** One round of the read loop: at most to the end of the buffer. */
  function Round(cross: Crossing, k: Cache, f: File, n: nat): (r: Outcome)
    requires f.position % SECTOR + n <= SECTOR
  {
    var j, f' := f.position % SECTOR, f.(position := f.position + n);
    if j + n < SECTOR then Outcome(k, f', f.buffer[j..j + n], true)
    else
      var (k', f'', ok) := cross(k, f');
      Outcome(k', f'', f.buffer[j..j + n], ok)
  }

  lemma RoundIs(cross: Crossing, k: Cache, f: File, n: nat)
    requires f.position % SECTOR + n <= SECTOR && n > 0
    ensures ReadBytes(cross, k, f, n) == Round(cross, k, f, n)
  {
    var j := f.position % SECTOR;
    if j + n < SECTOR {
      WithinBuffer(cross, k, f, n);
    } else {
      assert n == SECTOR - j;
      assert f.buffer[j..] == f.buffer[j..j + n];
      ToBufferEnd(cross, k, f);
    }
  }

  lemma RoundReads(cross: Crossing, k: Cache, f: File, n: nat, more: nat)
    requires f.position % SECTOR + n <= SECTOR && n > 0
    ensures var r := Round(cross, k, f, n);
      ReadBytes(cross, k, f, n + more) == if r.ok then After(r.bytes, ReadBytes(cross, r.cache, r.file, more)) else r
  {
    RoundIs(cross, k, f, n);
    ReadsCompose(cross, k, f, n, more);
  }

  /** A read of n bytes from k and f has got as far as k1 and f1, with count bytes to go. */
  ghost predicate Underway(cross: Crossing, k: Cache, f: File, n: nat, bytes: seq<Byte>, k1: Cache, f1: File,
                           count: nat) {
    ReadBytes(cross, k, f, n) == After(bytes, ReadBytes(cross, k1, f1, count))
  }

  lemma UnderwayStarts(cross: Crossing, k: Cache, f: File, n: nat)
    ensures Underway(cross, k, f, n, [], k, f, n)
  {
    AfterAfter([], [], ReadBytes(cross, k, f, n));
  }

  /** One round on: the read goes on, or is over at an end or an error. */
  lemma UnderwayOn(cross: Crossing, k: Cache, f: File, n: nat, bytes: seq<Byte>, k1: Cache, f1: File, count: nat,
                   take: nat)
    requires Underway(cross, k, f, n, bytes, k1, f1, count) && 0 < take <= count &&
             f1.position % SECTOR + take <= SECTOR
    ensures var r := Round(cross, k1, f1, take);
      if r.ok then Underway(cross, k, f, n, bytes + r.bytes, r.cache, r.file, count - take)
      else ReadBytes(cross, k, f, n) == r.(bytes := bytes + r.bytes)
  {
    var r := Round(cross, k1, f1, take);
    RoundReads(cross, k1, f1, take, count - take);
    AfterAfter(bytes, r.bytes, ReadBytes(cross, r.cache, r.file, count - take));
  }

  lemma UnderwayEnds(cross: Crossing, k: Cache, f: File, n: nat, bytes: seq<Byte>, k1: Cache, f1: File)
    requires Underway(cross, k, f, n, bytes, k1, f1, 0)
    ensures ReadBytes(cross, k, f, n) == Outcome(k1, f1, bytes, true)
  {
  }

  lemma LastOfSector(p: nat, m: nat)
    requires p % SECTOR + m == SECTOR - 1
    ensures (p + m) % SECTOR == SECTOR - 1 && (p + m + 1) % SECTOR == 0
  {
  }

  // ---------- What a file holds ----------

  /** Where sector n of a file lies: in which of its clusters, and where in that. */
  datatype Place = Place(cluster: nat, sector: nat)

  function PlaceOf(per: nat, n: nat): Place {
    if n == 0 then Place(0, 0)
    else
      var p := PlaceOf(per, n - 1);
      if p.sector + 1 >= per then Place(p.cluster + 1, 0) else Place(p.cluster, p.sector + 1)
  }

  lemma {:induction false} PlaceIs(per: nat, n: nat)
    requires per > 0
    ensures var p := PlaceOf(per, n); p.sector < per && n == p.cluster * per + p.sector
  {
    if n > 0 {
      PlaceIs(per, n - 1);
      var p := PlaceOf(per, n - 1);
      assert (p.cluster + 1) * per == p.cluster * per + per;
    }
  }

  function DataSector(v: Volume, chain: seq<Word>, p: Place): Sector
    requires p.cluster < |chain|
  {
    SectorAt(v, DataLba(v, chain, p))
  }

  function DataLba(v: Volume, chain: seq<Word>, p: Place): Word
    requires p.cluster < |chain|
  {
    v.dataAt(chain[p.cluster], p.sector)
  }

  /** The content of a file, cluster after cluster. */
  function FileByte(v: Volume, chain: seq<Word>, p: nat): Byte
    requires PlaceOf(v.perCluster, p / SECTOR).cluster < |chain|
  {
    DataSector(v, chain, PlaceOf(v.perCluster, p / SECTOR))[p % SECTOR]
  }

  ghost predicate LinkOk(v: Volume, chain: seq<Word>, i: nat)
    requires i < |chain|
  {
    && chain[i] < 0x1000_0000 && Readable(v, v.reserved + FatSector(chain[i]))
    && (i + 1 < |chain| ==> Entry(v, chain[i]) == chain[i + 1])
  }

  ghost predicate SectorOk(v: Volume, chain: seq<Word>, n: nat) {
    var p := PlaceOf(v.perCluster, n);
    p.cluster < |chain| && Readable(v, DataLba(v, chain, p))
  }

  /** The clusters of a file of the given size: linked by the table, enough of
      them, and all sectors that matter can be read. */
  ghost predicate GoodChain(v: Volume, chain: seq<Word>, size: nat) {
    && VolumeOk(v)
    && (forall i :: 0 <= i < |chain| ==> LinkOk(v, chain, i))
    && forall n :: 0 <= n && n * SECTOR < size ==> SectorOk(v, chain, n)
  }

  /** The buffer holds sector n of the file. */
  ghost predicate Buffered(v: Volume, chain: seq<Word>, f: File, n: nat) {
    var p := PlaceOf(v.perCluster, n);
    p.cluster < |chain| && f.cluster == chain[p.cluster] && f.sector == p.sector && f.buffer == DataSector(v, chain, p)
  }

  /** The file stands in its chain, and its buffer holds the sector with the byte
      at its position, unless it is at its end. */
  ghost predicate Standing(v: Volume, chain: seq<Word>, f: File) {
    && GoodChain(v, chain, f.size) && f.position <= f.size
    && (f.position < f.size ==> Buffered(v, chain, f, f.position / SECTOR))
  }

  /** Behind the last byte of a sector the buffer gets the next sector of the file. */
  lemma CrossBuffers(v: Volume, k: Cache, chain: seq<Word>, f: File, n: nat)
    requires CacheOk(v, k) && VolumeOk(v) && Buffered(v, chain, f, n) &&
             (forall i :: 0 <= i < |chain| ==> LinkOk(v, chain, i))
    ensures var (k', f', ok) := Crossed(v, k, f);
      && CacheOk(v, k') && f'.position == f.position && (f'.size == f.size || f'.size == f.position % W)
      && (SectorOk(v, chain, n + 1) ==> ok && Buffered(v, chain, f', n + 1) && f'.size == f.size)
  {
    var p, q := PlaceOf(v.perCluster, n), PlaceOf(v.perCluster, n + 1);
    assert LinkOk(v, chain, p.cluster);
    CacheIsTransparent(v, k, f.cluster);
    if SectorOk(v, chain, n + 1) { assert LinkOk(v, chain, q.cluster); }
  }

  lemma NextSector(p: nat)
    requires (p + 1) % SECTOR == 0
    ensures (p + 1) / SECTOR == p / SECTOR + 1 && (p / SECTOR + 1) * SECTOR == p + 1
  {
  }

  lemma StandsAcross(v: Volume, k: Cache, chain: seq<Word>, f: File)
    requires CacheOk(v, k) && Standing(v, chain, f) && f.position < f.size && (f.position + 1) % SECTOR == 0
    ensures var (k', f', ok) := Crossed(v, k, f.(position := f.position + 1));
      CacheOk(v, k') && Standing(v, chain, f') && f'.size == f.size && (ok || f'.position == f'.size)
  {
    var n := f.position / SECTOR;
    var f' := Crossed(v, k, f.(position := f.position + 1)).1;
    NextSector(f.position);
    CrossBuffers(v, k, chain, f.(position := f.position + 1), n);
    if f.position + 1 < f.size {
      assert SectorOk(v, chain, n + 1);
      assert f'.position / SECTOR == n + 1;
    }
    assert f'.size == f.size;
  }

  /** One byte on, the file still stands in its chain. */
  lemma TakeStands(v: Volume, k: Cache, chain: seq<Word>, f: File)
    requires CacheOk(v, k) && Standing(v, chain, f) && f.position < f.size
    ensures var r := TakeByte(CrossingOf(v), k, f);
      CacheOk(v, r.0) && Standing(v, chain, r.1) && r.1.size == f.size && (r.2 || r.1.position == r.1.size)
  {
    if (f.position + 1) % SECTOR == 0 {
      StandsAcross(v, k, chain, f);
    } else {
      OffsetStep(f.position);
    }
  }

  lemma HeadIsNext(v: Volume, chain: seq<Word>, f: File)
    requires Standing(v, chain, f) && f.position < f.size
    ensures NextByte(v, chain, f.position, ByteAt(f))
  {
  }

  ghost predicate NextByte(v: Volume, chain: seq<Word>, p: nat, b: Byte) {
    PlaceOf(v.perCluster, p / SECTOR).cluster < |chain| && b == FileByte(v, chain, p)
  }

  /** These are the bytes of the file from p on. */
  ghost predicate AllNext(v: Volume, chain: seq<Word>, p: nat, bytes: seq<Byte>) {
    forall i :: 0 <= i < |bytes| ==> NextByte(v, chain, p + i, bytes[i])
  }

  lemma AllNextMore(v: Volume, chain: seq<Word>, p: nat, b: Byte, rest: seq<Byte>)
    requires NextByte(v, chain, p, b) && AllNext(v, chain, p + 1, rest)
    ensures AllNext(v, chain, p, [b] + rest)
  {
    forall i | 0 <= i < 1 + |rest| ensures NextByte(v, chain, p + i, ([b] + rest)[i]) {
      if i > 0 { assert NextByte(v, chain, p + 1 + (i - 1), rest[i - 1]); }
    }
  }

  /** The outcome of a read of n bytes in a chain: the next n bytes, and the file
      stands right behind them. */
  ghost predicate ReadsOn(v: Volume, chain: seq<Word>, f: File, n: nat, r: Outcome) {
    && CacheOk(v, r.cache) && Standing(v, chain, r.file) && r.file.position == f.position + n && r.file.size == f.size
    && (r.ok || r.file.position == r.file.size)
    && |r.bytes| == n && AllNext(v, chain, f.position, r.bytes)
  }

  lemma ReadsOnMore(v: Volume, chain: seq<Word>, f: File, f': File, n: nat, r: Outcome)
    requires NextByte(v, chain, f.position, ByteAt(f)) && f'.position == f.position + 1 && f'.size == f.size
    requires ReadsOn(v, chain, f', n, r)
    ensures ReadsOn(v, chain, f, n + 1, After([ByteAt(f)], r))
  {
    AllNextMore(v, chain, f.position, ByteAt(f), r.bytes);
  }

  /** A file holds the bytes of its sectors: whatever has been read before, the
      next n bytes up to its size are read. */
  lemma {:induction false} ReadIsNext(v: Volume, k: Cache, chain: seq<Word>, f: File, n: nat)
    requires CacheOk(v, k) && Standing(v, chain, f) && n <= f.size - f.position
    ensures ReadsOn(v, chain, f, n, ReadBytes(CrossingOf(v), k, f, n))
    decreases n
  {
    if n > 0 {
      var (k', f', ok) := TakeByte(CrossingOf(v), k, f);
      TakeStands(v, k, chain, f);
      HeadIsNext(v, chain, f);
      if ok {
        ReadIsNext(v, k', chain, f', n - 1);
        ReadsOnMore(v, chain, f, f', n - 1, ReadBytes(CrossingOf(v), k', f', n - 1));
      } else {
        AllNextMore(v, chain, f.position, ByteAt(f), []);
      }
    }
  }

  /** fat_read on a file: exactly the next bytes, as many as asked for but none
      behind its end. */
  lemma ReadFileIsNext(v: Volume, k: Cache, chain: seq<Word>, f: File, n: nat)
    requires CacheOk(v, k) && Standing(v, chain, f) && !f.isDirectory
    ensures var r := ReadFile(v, k, f, n);
      && |r.bytes| == (if n < f.size - f.position then n else f.size - f.position) &&
          AllNext(v, chain, f.position, r.bytes)
      && CacheOk(v, r.cache) && Standing(v, chain, r.file) && r.file.position == f.position + |r.bytes| &&
          r.file.size == f.size
  {
    CapIs(f, n);
    ReadIsNext(v, k, chain, f, Capped(f, n));
  }

  /** A file as it is opened. */
  function Opened(v: Volume, isDirectory: bool, size: Word, first: Word): File {
    File(isDirectory, 0, size, first, first, 0, SectorAt(v, v.dataAt(first, 0)))
  }

  lemma OpenedStands(v: Volume, chain: seq<Word>, isDirectory: bool, size: Word, first: Word)
    requires GoodChain(v, chain, size) && (size > 0 ==> chain != [] && chain[0] == first)
    ensures Standing(v, chain, Opened(v, isDirectory, size, first))
    ensures var f := Opened(v, isDirectory, size, first);
      f.position == 0 && f.size == size && f.isDirectory == isDirectory
  {
  }

  lemma SplitWithin(v: Volume, k: Cache, chain: seq<Word>, f: File, a: nat, b: nat)
    requires CacheOk(v, k) && Standing(v, chain, f) && a + b <= f.size - f.position
    ensures var r := ReadBytes(CrossingOf(v), k, f, a);
      var r' := ReadBytes(CrossingOf(v), r.cache, r.file, b);
      var both := ReadBytes(CrossingOf(v), k, f, a + b);
      both.bytes == r.bytes + r'.bytes && both.cache == r'.cache && both.file == r'.file
  {
    ReadIsNext(v, k, chain, f, a);
    ReadsCompose(CrossingOf(v), k, f, a, b);
  }

  /** Reading a bytes and then b bytes of a file is the same as reading a + b,
      in what is read and in the state of the file and of the cache. */
  lemma SplitRead(v: Volume, k: Cache, chain: seq<Word>, f: File, a: nat, b: nat)
    requires CacheOk(v, k) && Standing(v, chain, f) && !f.isDirectory
    ensures var r := ReadFile(v, k, f, a); var r', both := ReadFile(v, r.cache, r.file, b), ReadFile(v, k, f, a + b);
      both.bytes == r.bytes + r'.bytes && both.cache == r'.cache && both.file == r'.file
  {
    LimitsAdd(v, k, chain, f, a, b);
    SplitWithin(v, k, chain, f, Capped(f, a), Capped(ReadFile(v, k, f, a).file, b));
  }

  lemma LimitsAdd(v: Volume, k: Cache, chain: seq<Word>, f: File, a: nat, b: nat)
    requires CacheOk(v, k) && Standing(v, chain, f) && !f.isDirectory
    ensures Capped(f, a) + Capped(ReadFile(v, k, f, a).file, b) == Capped(f, a + b) <= f.size - f.position
  {
    CapIs(f, a);
    ReadIsNext(v, k, chain, f, Capped(f, a));
    KindKept(v, k, f, Capped(f, a));
    CapsAdd(f, ReadFile(v, k, f, a).file, a, b);
  }

  lemma CapsAdd(f: File, f': File, a: nat, b: nat)
    requires !f.isDirectory && !f'.isDirectory && f'.size == f.size &&
             f'.position == f.position + Capped(f, a) <= f.size
    ensures Capped(f, a) + Capped(f', b) == Capped(f, a + b) <= f.size - f.position
  {
    CapIs(f, a);
    CapIs(f, a + b);
    CapIs(f', b);
  }

  lemma CapIs(f: File, n: nat)
    requires !f.isDirectory && f.position <= f.size
    ensures Capped(f, n) == if n < f.size - f.position then n else f.size - f.position
  {
  }

  lemma {:induction false} KindKept(v: Volume, k: Cache, f: File, n: nat)
    ensures ReadBytes(CrossingOf(v), k, f, n).file.isDirectory == f.isDirectory
    decreases n
  {
    if n > 0 {
      var (k', f', ok) := TakeByte(CrossingOf(v), k, f);
      if ok { KindKept(v, k', f', n - 1); }
    }
  }
}
