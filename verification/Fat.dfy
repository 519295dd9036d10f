/** The FAT32 reader, with its buffers in memory. */
module Fat {
  import opened FatModel

  /** The number of files that can be open at a time. */
  const HANDLES: nat := 10

  class FileData {
    var inUse: bool
    var isDirectory: bool
    var position: nat
    var size: Word
    var firstCluster: Word
    var cluster: Word
    var sector: nat
    const buffer: array<Byte>

    constructor ()
      ensures !inUse && fresh(buffer) && buffer.Length == SECTOR
    {
      inUse, isDirectory, position, size, firstCluster, cluster, sector := false, false, 0, 0, 0, 0, 0;
      buffer := new Byte[SECTOR](_ => 0);
    }

    ghost function Now(): File
      reads this, buffer
      requires buffer.Length == SECTOR
    {
      File(isDirectory, position, size, firstCluster, cluster, sector, buffer[..])
    }
  }

  ghost function Overwritten(s: seq<Byte>, at: nat, t: seq<Byte>): seq<Byte>
    requires at + |t| <= |s|
  {
    s[..at] + t + s[at + |t|..]
  }

  /** A buffer whose first n sectors were read. */
  ghost function Loaded(v: Volume, lba: nat, n: nat, s: seq<Byte>): (s': seq<Byte>)
    requires n * SECTOR <= |s|
    ensures |s'| == |s|
  {
    SectorsAt(v, lba, n) + s[n * SECTOR..]
  }

  lemma OneMoreSector(v: Volume, lba: nat, n: nat, s: seq<Byte>)
    requires (n + 1) * SECTOR <= |s|
    ensures Overwritten(Loaded(v, lba, n, s), n * SECTOR, v.disk(DiskLba(v, lba) + n)) == Loaded(v, lba, n + 1, s)
  {
    var l := Loaded(v, lba, n, s);
    assert l[..n * SECTOR] == SectorsAt(v, lba, n);
    assert l[(n + 1) * SECTOR..] == s[(n + 1) * SECTOR..];
  }

  class Reader {
    const v: Volume
    const dataLba: Word
    const files: seq<FileData>
    const cache: array<Byte>
    var cachePosition: Word

    ghost predicate CacheFits()
      reads `cachePosition
    {
      cache.Length == CACHED * SECTOR && (cachePosition == NOWHERE || cachePosition < 0x80_0000)
    }

    ghost function CacheNow(): Cache
      reads `cachePosition, cache
      requires CacheFits()
    {
      CacheState(cachePosition, cache[..])
    }

    constructor (v: Volume, dataLba: Word, files: seq<FileData>)
      ensures this.v == v && this.dataLba == dataLba && this.files == files && cachePosition == NOWHERE
      ensures CacheFits() && CacheOk(v, CacheNow())
    {
      this.v, this.dataLba, this.files, cachePosition := v, dataLba, files, NOWHERE;
      cache := new Byte[CACHED * SECTOR](_ => 0);
    }

    /** mbr_read_sector: n sectors into the front of dst. */
    method ReadSectors(lba: nat, n: nat, dst: array<Byte>) returns (ok: bool)
      requires n * SECTOR <= dst.Length
      modifies dst
      ensures ok == Readable(v, lba)
      ensures ok ==> dst[..] == Loaded(v, lba, n, old(dst[..]))
      ensures !ok ==> dst[..] == old(dst[..])
    {
      ok := DiskLba(v, lba) < v.partSize;
      if ok {
        ReadAll(lba, n, dst);
      }
    }

    method ReadAll(lba: nat, n: nat, dst: array<Byte>)
      requires n * SECTOR <= dst.Length
      modifies dst
      ensures dst[..] == Loaded(v, lba, n, old(dst[..]))
    {
      var i := 0;
      ghost var s := dst[..];
      assert Loaded(v, lba, 0, s) == s;
      while i < n
        invariant i <= n && dst[..] == Loaded(v, lba, i, s)
      {
        ReadNext(lba, dst, i, s);
        i := i + 1;
      }
    }

    method ReadNext(lba: nat, dst: array<Byte>, i: nat, ghost s: seq<Byte>)
      requires (i + 1) * SECTOR <= |s| && dst[..] == Loaded(v, lba, i, s)
      modifies dst
      ensures dst[..] == Loaded(v, lba, i + 1, s)
    {
      ReadOne(DiskLba(v, lba) + i, dst, i);
      OneMoreSector(v, lba, i, s);
    }

    /** One sector of the disk into the place of sector i of dst. */
    method ReadOne(place: nat, dst: array<Byte>, i: nat)
      requires (i + 1) * SECTOR <= dst.Length
      modifies dst
      ensures dst[..] == Overwritten(old(dst[..]), i * SECTOR, v.disk(place))
    {
      var j := 0;
      while j < SECTOR
        invariant j <= SECTOR
        invariant forall k :: 0 <= k < dst.Length ==>
                    dst[k] == if i * SECTOR <= k < i * SECTOR + j then v.disk(place)[k - i * SECTOR] else old(dst[k])
      {
        dst[i * SECTOR + j] := v.disk(place)[j];
        j := j + 1;
      }
    }

    /** The table entry of a cluster, through the cache. */
    method NextCluster(cluster: Word) returns (next: Word)
      requires CacheFits()
      modifies `cachePosition, cache
      ensures CacheFits() && CacheNow() == Refilled(v, old(CacheNow()), cluster) &&
              next == LookedUp(v, old(CacheNow()), cluster)
    {
      var fatIndex := cluster * 4 % W;
      var s := fatIndex / SECTOR;
      FatSectorBound(cluster);
      if s < cachePosition || s >= (cachePosition + CACHED) % W {
        var _ := ReadSectors(v.reserved + s, CACHED, cache);
        cachePosition := s;
      }
      IndexInCache(cluster, cachePosition);
      next := Word32(cache[..], fatIndex - cachePosition * SECTOR);
    }

    ghost predicate LaidOut() { v.dataAt == Geometry(dataLba, v.perCluster) }

    /** The sector of the file's current cluster into its buffer. */
    method Fill(fd: FileData) returns (ok: bool)
      requires LaidOut() && fd.buffer.Length == SECTOR
      modifies fd.buffer
      ensures ok == Readable(v, v.dataAt(fd.cluster, fd.sector))
      ensures fd.buffer[..] == if ok then SectorAt(v, v.dataAt(fd.cluster, fd.sector)) else old(fd.buffer[..])
    {
      var lba := (ClusterLba(dataLba, v.perCluster, fd.cluster) + fd.sector) % W;
      assert lba == Geometry(dataLba, v.perCluster)(fd.cluster, fd.sector);
      ok := ReadSectors(lba, 1, fd.buffer);
      assert SectorsAt(v, lba, 1) == SectorsAt(v, lba, 0) + v.disk(DiskLba(v, lba) + 0) == SectorAt(v, lba);
    }

    /** On to the next sector of the file. */
    method Cross(fd: FileData) returns (ok: bool)
      requires CacheFits() && LaidOut() && fd.buffer.Length == SECTOR && fd.buffer != cache
      modifies `cachePosition, cache, fd, fd.buffer
      ensures CacheFits()
      ensures (CacheNow(), fd.Now(), ok) == Crossed(v, old(CacheNow()), old(fd.Now()))
      ensures fd.inUse == old(fd.inUse)
    {
      fd.sector := fd.sector + 1;
      if fd.sector >= v.perCluster {
        fd.sector := 0;
        fd.cluster := NextCluster(fd.cluster);
      }
      if fd.cluster >= CHAIN_END {
        fd.size := fd.position % W;
        return false;
      }
      ok := Fill(fd);
    }

    ghost predicate Apart(fd: FileData, out: array<Byte>) {
      fd.buffer.Length == SECTOR && fd.buffer != cache && out != fd.buffer && out != cache
    }

    /** memcpy from the buffer. */
    method CopyOut(fd: FileData, j: nat, n: nat, out: array<Byte>, at: nat)
      requires Apart(fd, out) && j + n <= SECTOR && at + n <= out.Length
      modifies out
      ensures out[..] == Overwritten(old(out[..]), at, fd.buffer[j..j + n])
    {
      var i := 0;
      while i < n
        invariant i <= n
        invariant forall k :: 0 <= k < out.Length ==>
                    out[k] == if at <= k < at + i then fd.buffer[j + k - at] else old(out[k])
      {
        out[at + i] := fd.buffer[j + i];
        i := i + 1;
      }
    }

    /** One round of the read loop. */
    method ReadRound(fd: FileData, n: nat, out: array<Byte>, at: nat) returns (ok: bool)
      requires CacheFits() && LaidOut() && Apart(fd, out) && fd.position % SECTOR + n <= SECTOR && at + n <= out.Length
      modifies `cachePosition, cache, fd, fd.buffer, out
      ensures CacheFits()
      ensures var r := Round(CrossingOf(v), old(CacheNow()), old(fd.Now()), n);
        CacheNow() == r.cache && fd.Now() == r.file && ok == r.ok &&
            out[..] == old(out[..at]) + r.bytes + old(out[at + n..])
      ensures fd.inUse == old(fd.inUse)
    {
      ghost var k, f := CacheNow(), fd.Now();
      var j := fd.position % SECTOR;
      CopyOut(fd, j, n, out, at);
      fd.position := fd.position + n;
      ok := true;
      if j + n == SECTOR {
        ok := Cross(fd);
      }
    }

    /** fat_read, for a file other than the root directory. */
    method Read(fd: FileData, byteCount: nat, out: array<Byte>) returns (done: nat)
      requires CacheFits() && LaidOut() && Apart(fd, out) && Capped(fd.Now(), byteCount) <= out.Length
      modifies `cachePosition, cache, fd, fd.buffer, out
      ensures CacheFits() && fd.inUse == old(fd.inUse)
      ensures var r := ReadFile(v, old(CacheNow()), old(fd.Now()), byteCount);
        CacheNow() == r.cache && fd.Now() == r.file && done == |r.bytes| <= out.Length && out[..done] == r.bytes
    {
      var count := byteCount;
      if !fd.isDirectory || fd.size != 0 {
        var left := (fd.size - fd.position) % W;
        count := if count < left then count else left;
      }
      done := ReadLoop(fd, count, out);
    }

    method ReadLoop(fd: FileData, n: nat, out: array<Byte>) returns (done: nat)
      requires CacheFits() && LaidOut() && Apart(fd, out) && n <= out.Length
      modifies `cachePosition, cache, fd, fd.buffer, out
      ensures CacheFits() && fd.inUse == old(fd.inUse) && done <= out.Length
      ensures var r := ReadBytes(CrossingOf(v), old(CacheNow()), old(fd.Now()), n);
        CacheNow() == r.cache && fd.Now() == r.file && out[..done] == r.bytes
    {
      ghost var k, f := CacheNow(), fd.Now();
      var count := n;
      done := 0;
      UnderwayStarts(CrossingOf(v), k, f, n);
      while count > 0
        invariant CacheFits() && fd.inUse == old(fd.inUse) && 0 <= count && done + count == n
        invariant Underway(CrossingOf(v), k, f, n, out[..done], CacheNow(), fd.Now(), count)
      {
        var left := SECTOR - fd.position % SECTOR;
        var take := if count < left then count else left;
        ghost var before := out[..done];
        UnderwayOn(CrossingOf(v), k, f, n, before, CacheNow(), fd.Now(), count, take);
        ghost var r := Round(CrossingOf(v), CacheNow(), fd.Now(), take);
        var ok := ReadRound(fd, take, out, done);
        assert out[..done + take] == before + r.bytes;
        done, count := done + take, count - take;
        if !ok {
          return;
        }
      }
      UnderwayEnds(CrossingOf(v), k, f, n, out[..done], CacheNow(), fd.Now());
    }

    /** Handles have their own state and their own buffers. */
    ghost predicate HandlesApart() {
      && |files| == HANDLES
      && (forall i :: 0 <= i < HANDLES ==> files[i].buffer.Length == SECTOR)
      && forall i, j :: 0 <= i < j < HANDLES ==> files[i] != files[j] && files[i].buffer != files[j].buffer
    }

    /** The lowest handle that is not in use, or -1. */
    method FindHandle() returns (handle: int)
      requires |files| == HANDLES
      ensures handle == -1 ==> forall i :: 0 <= i < HANDLES ==> files[i].inUse
      ensures handle != -1 ==>
                0 <= handle < HANDLES && !files[handle].inUse && forall i :: 0 <= i < handle ==> files[i].inUse
    {
      handle := -1;
      var i := 0;
      while i < HANDLES && handle < 0
        invariant i <= HANDLES && handle < i
        invariant handle == -1 ==> forall j :: 0 <= j < i ==> files[j].inUse
        invariant handle != -1 ==>
                    0 <= handle < HANDLES && !files[handle].inUse && forall j :: 0 <= j < handle ==> files[j].inUse
      {
        if !files[i].inUse {
          handle := i;
        }
        i := i + 1;
      }
    }

    method OpenAt(fd: FileData, isDirectory: bool, size: Word, first: Word) returns (ok: bool)
      requires LaidOut() && fd.buffer.Length == SECTOR
      modifies fd, fd.buffer
      ensures ok == Readable(v, v.dataAt(first, 0))
      ensures if ok then fd.Now() == Opened(v, isDirectory, size, first) && fd.inUse else fd.inUse == old(fd.inUse)
    {
      fd.isDirectory, fd.position, fd.size := isDirectory, 0, size;
      fd.firstCluster, fd.cluster, fd.sector := first, first, 0;
      ok := Fill(fd);
      if ok {
        fd.inUse := true;
      }
    }

    /** fat_open_entry: the file stands at its start, under a handle that was not
        in use; all other handles are left alone. It fails when all handles are
        in use or the first sector cannot be read. */
    method OpenEntry(isDirectory: bool, size: Word, first: Word) returns (handle: int)
      requires LaidOut() && HandlesApart()
      modifies files, set i | 0 <= i < |files| :: files[i].buffer
      ensures handle >= 0 ==>
                && handle < HANDLES && !old(files[handle].inUse) && files[handle].inUse
                && files[handle].Now() == Opened(v, isDirectory, size, first)
                && forall i :: 0 <= i < handle ==> old(files[i].inUse)
      ensures handle < 0 <==> (forall i :: 0 <= i < HANDLES ==> old(files[i].inUse)) || !Readable(v, v.dataAt(first, 0))
      ensures forall i :: 0 <= i < HANDLES && i != handle ==> files[i].inUse == old(files[i].inUse)
      ensures forall i :: 0 <= i < HANDLES && i != handle && files[i].inUse ==> files[i].Now() == old(files[i].Now())
    {
      handle := FindHandle();
      if handle >= 0 {
        var ok := OpenAt(files[handle], isDirectory, size, first);
        if !ok {
          handle := -1;
        }
      }
    }
  }
}
