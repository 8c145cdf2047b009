// The open-file part of the FAT driver: handles updated in place by FAT_Read and FAT_Close.
module FatFiles {
  import opened Basics
  import opened FatModel

  const MAX_FILE_HANDLES: nat := 10

  // FAT_FileData with the FAT_File it contains.
  class FileData {
    var buffer: seq<byte>
    var handle: int
    var isDirectory: bool
    var position: nat
    var size: nat
    var inUse: bool
    var firstCluster: nat
    var currentCluster: nat
    var sectorInCluster: nat

    constructor ()
      ensures !inUse && handle == 0
    {
      buffer, handle, isDirectory, position, size, inUse := [], 0, false, 0, 0, false;
      firstCluster, currentCluster, sectorInCluster := 0, 0, 0;
    }

    function View(): Cursor
      reads this
    {
      Cursor(handle, isDirectory, position, size, firstCluster, currentCluster, sectorInCluster, buffer)
    }

    // Reading the root directory never meets the end of a chain, so its size stays.
    ghost predicate RootKept(f: Cursor)
      reads this
    {
      f.IsRoot() ==> View() == f.(position := position, currentCluster := currentCluster,
                                  sectorInCluster := sectorInCluster, buffer := buffer)
    }
  }

  datatype Fetch = Fetched | ChainEnd | ReadError

  // DISK_ReadSectors for one sector; a failed read leaves anything in the buffer.
  method ReadSector(v: Volume, lba: nat) returns (ok: bool, data: seq<byte>)
    requires v.Mounted()
    ensures ok == v.readable(lba) && |data| == SECTOR_SIZE
    ensures ok ==> data == v.sector(lba)
  {
    ok := v.readable(lba);
    if ok {
      data := v.sector(lba);
    } else {
      var zeros: seq<byte> := seq(SECTOR_SIZE, _ => 0);
      assert |zeros| == SECTOR_SIZE;
      data :| |data| == SECTOR_SIZE;
    }
  }

  // Moving the cluster fields to the next sector, the s-th, along the root directory or the
  // chain; None past the end of the chain.
  method NextLba(v: Volume, fd: FileData, ghost s: nat) returns (lba: Option<nat>)
    requires v.Mounted() && s > 0 && (fd.handle != ROOT_DIRECTORY_HANDLE ==> fd.firstCluster < END_OF_CHAIN)
    requires PointsAt(v, fd.View(), s - 1)
    modifies fd`currentCluster, fd`sectorInCluster
    ensures lba == SectorLba(v, fd.View(), s)
    ensures lba.Some? ==> PointsAt(v, fd.View(), s)
  {
    if fd.handle == ROOT_DIRECTORY_HANDLE {
      fd.currentCluster := fd.currentCluster + 1;
      return Some(fd.currentCluster);
    }
    ChainStep(v, fd.View(), s - 1);
    fd.sectorInCluster := fd.sectorInCluster + 1;
    if fd.sectorInCluster >= v.sectorsPerCluster {
      fd.sectorInCluster := 0;
      fd.currentCluster := NextCluster(v.fat, fd.currentCluster);
    }
    if fd.currentCluster >= END_OF_CHAIN {
      return None;
    }
    return Some((ClusterToLba(v, fd.currentCluster) + fd.sectorInCluster) % U32);
  }

  // The same, said of a disk that shows the file alike.
  method SeenLba(v: Volume, ghost seen: Volume, fd: FileData, ghost s: nat) returns (lba: Option<nat>)
    requires Shows(v, seen, fd.View()) && s > 0 && PointsAt(seen, fd.View(), s - 1)
    modifies fd`currentCluster, fd`sectorInCluster
    ensures lba == SectorLba(seen, fd.View(), s)
    ensures lba.Some? ==> PointsAt(seen, fd.View(), s) && v.sector(lba.value) == seen.sector(lba.value)
  {
    hide SectorLba, PointsAt;
    ghost var f := fd.View();
    SameLba(v, seen, f, s - 1);
    lba := NextLba(v, fd, s);
    SameLba(v, seen, fd.View(), s);
    ShowsKept(v, seen, f, fd.View());
  }

  // The step of FAT_Read at the end of a sector: move on along the chain and fill the cache. The
  // disk is v; what is read of the file is that of seen, which can differ in its first sector.
  method FetchNext(v: Volume, ghost seen: Volume, fd: FileData) returns (r: Fetch)
    requires WellFormed(seen, fd.View()) && fd.position > 0 && fd.position % SECTOR_SIZE == 0
    requires PointsAt(seen, fd.View(), fd.position / SECTOR_SIZE - 1) && Shows(v, seen, fd.View())
    modifies fd`currentCluster, fd`sectorInCluster, fd`buffer, fd`size
    ensures WellFormed(seen, fd.View())
    ensures r.ChainEnd? <==> Location(seen, fd.View(), fd.position).None?
    ensures fd.size == if r.ChainEnd? then fd.position else old(fd.size)
    ensures !r.ReadError? ==> Coherent(seen, fd.View())
    ensures r.ReadError? ==> !v.readable(Location(seen, fd.View(), fd.position).value)
  {
    var lba := SeenLba(v, seen, fd, fd.position / SECTOR_SIZE);
    hide SectorLba, PointsAt;
    if lba == None {
      SizeDoesNotMatter(seen, fd.View(), fd.View().(size := fd.position), fd.position / SECTOR_SIZE);
      fd.size := fd.position;
      return ChainEnd;
    }
    ghost var f := fd.View();
    var ok;
    ok, fd.buffer := ReadSector(v, lba.value);
    SizeDoesNotMatter(seen, f, fd.View(), fd.position / SECTOR_SIZE);
    return if ok then Fetched else ReadError;
  }

  // Where the sectors of a file are does not depend on its size, position or cache.
  lemma SizeDoesNotMatter(v: Volume, f: Cursor, g: Cursor, s: nat)
    requires v.sectorsPerCluster > 0 && (!f.IsRoot() ==> f.firstCluster < END_OF_CHAIN)
    requires g == f.(size := g.size, position := g.position, buffer := g.buffer)
    ensures SectorLba(v, g, s) == SectorLba(v, f, s) && PointsAt(v, g, s) == PointsAt(v, f, s)
  {
  }

  // Copying out of the cached sector and moving the position on.
  method TakeChunk(ghost v: Volume, fd: FileData, take: nat) returns (chunk: seq<byte>)
    requires Coherent(v, fd.View()) && Location(v, fd.View(), fd.position).Some? && take > 0
    requires fd.position % SECTOR_SIZE + take <= SECTOR_SIZE
    requires fd.View().Unbounded() || fd.position + take <= fd.size
    modifies fd`position
    ensures |chunk| == take && chunk == Content(v, old(fd.View()), old(fd.position), take)
    ensures fd.View() == old(fd.View()).(position := old(fd.position) + take)
    ensures WellFormed(v, fd.View()) && SameFile(v, old(fd.View()), fd.View())
    ensures if old(fd.position) % SECTOR_SIZE + take < SECTOR_SIZE then Coherent(v, fd.View())
      else fd.position % SECTOR_SIZE == 0 && PointsAt(v, fd.View(), fd.position / SECTOR_SIZE - 1)
  {
    ContentInSector(v, fd.View(), fd.position, take);
    AdvanceInSector(v, fd.View(), take);
    var start := fd.position % SECTOR_SIZE;
    chunk := fd.buffer[start..start + take];
    fd.position := fd.position + take;
  }

  // One turn of the reading loop: the part of the cached sector that is wanted, and the next
  // sector when this one is used up.
  method ReadChunk(v: Volume, ghost seen: Volume, fd: FileData, byteCount: nat) returns (chunk: seq<byte>, r: Fetch)
    requires Coherent(seen, fd.View()) && Shows(v, seen, fd.View()) && byteCount > 0
    requires fd.View().Unbounded() || fd.position + byteCount <= fd.size
    modifies fd`currentCluster, fd`sectorInCluster, fd`buffer, fd`size, fd`position
    ensures 1 <= |chunk| <= byteCount && fd.position == old(fd.position) + |chunk|
    ensures WellFormed(seen, old(fd.View())) && chunk == Content(seen, old(fd.View()), old(fd.position), |chunk|)
    ensures SameFile(seen, old(fd.View()), fd.View())
    ensures fd.size == if r.ChainEnd? then fd.position else old(fd.size)
    ensures !r.ReadError? ==> Coherent(seen, fd.View())
    ensures r.ReadError? ==> var l := Location(seen, fd.View(), fd.position); l.Some? && !v.readable(l.value)
    ensures r.ChainEnd? ==> Location(seen, fd.View(), fd.position).None?
  {
    hide Content, SectorLba, PointsAt, SameFile, Shows;
    var leftInBuffer := SECTOR_SIZE - fd.position % SECTOR_SIZE;
    var take := if byteCount < leftInBuffer then byteCount else leftInBuffer;
    chunk := TakeChunk(seen, fd, take);
    r := Fetched;
    if leftInBuffer == take {
      ghost var f1 := fd.View();
      ShowsKept(v, seen, old(fd.View()), f1);
      r := FetchNext(v, seen, fd);
      AfterFetch(seen, old(fd.View()), f1, fd.View(), r);
    }
  }

  // The file a cursor reads does not change when the next sector is fetched.
  lemma AfterFetch(v: Volume, f0: Cursor, f1: Cursor, f2: Cursor, r: Fetch)
    requires SameFile(v, f0, f1) && WellFormed(v, f2) && f1.position > 0
    requires f2 == f1.(currentCluster := f2.currentCluster, sectorInCluster := f2.sectorInCluster,
                       buffer := f2.buffer, size := if r.ChainEnd? then f1.position else f1.size)
    requires r.ChainEnd? ==> Location(v, f2, f2.position).None?
    ensures SameFile(v, f0, f2)
  {
    if r.ChainEnd? {
      assert Location(v, f1, f1.position) == Location(v, f2, f2.position);
      TruncatedSame(v, f1, f2);
    } else {
      LikeSame(v, f1, f2);
    }
    SameFileTrans(v, f0, f1, f2);
  }

  // A read of n bytes that no disk error cut short: f and g are the handle before and after.
  ghost predicate ReadStep(v: Volume, f: Cursor, g: Cursor, n: nat, out: seq<byte>) {
    && Coherent(v, f) && Coherent(v, g) && SameFile(v, f, g)
    && g.position == f.position + |out| && out == Content(v, f, f.position, n)
  }

  function Flat(outs: seq<seq<byte>>): seq<byte> {
    if outs == [] then [] else outs[0] + Flat(outs[1..])
  }

  // Over any run of reads on a handle, whatever the sizes asked for, the outputs end to end are
  // the bytes of the file from where the first read began, as many as were asked for in all.
  lemma {:induction false} RunOfReads(v: Volume, fs: seq<Cursor>, requests: seq<nat>, outs: seq<seq<byte>>)
    requires |fs| == |requests| + 1 && |outs| == |requests| && Coherent(v, fs[0])
    requires forall k :: 0 <= k < |requests| ==> ReadStep(v, fs[k], fs[k + 1], requests[k], outs[k])
    ensures Flat(outs) == Content(v, fs[0], fs[0].position, Sum(requests))
    ensures Coherent(v, fs[|requests|]) && fs[|requests|].position == fs[0].position + |Flat(outs)|
  {
    if requests != [] {
      hide Content, SameFile;
      assert ReadStep(v, fs[0], fs[1], requests[0], outs[0]);
      RunOfReads(v, fs[1..], requests[1..], outs[1..]);
      ReadsJoin(v, fs[0], fs[1], requests[0], outs[0], Sum(requests[1..]));
    }
  }

  lemma ReadsJoin(v: Volume, f: Cursor, g: Cursor, n: nat, out: seq<byte>, m: nat)
    requires ReadStep(v, f, g, n, out)
    ensures out + Content(v, g, g.position, m) == Content(v, f, f.position, n + m)
  {
    ContentOfSameFile(v, f, g, g.position, m);
    BytesConcat(Has(v, f), At(v, f), f.position, n, m);
  }

  // FAT_Read. The bytes returned are those of the file from the current position on; a read
  // that no disk error cuts short returns all that were asked for, up to the end of the file.
  method Read(v: Volume, ghost seen: Volume, fd: FileData, byteCount: nat) returns (out: seq<byte>, ghost ok: bool)
    requires Coherent(seen, fd.View()) && Shows(v, seen, fd.View())
    modifies fd`currentCluster, fd`sectorInCluster, fd`buffer, fd`size, fd`position
    ensures SameFile(seen, old(fd.View()), fd.View())
    ensures fd.position == old(fd.position) + |out|
    ensures out <= Content(seen, old(fd.View()), old(fd.position), byteCount)
    ensures ok ==> ReadStep(seen, old(fd.View()), fd.View(), byteCount, out)
    ensures !ok ==> var l := Location(seen, fd.View(), fd.position); l.Some? && !v.readable(l.value)
    ensures fd.size == old(fd.size) || (fd.size == fd.position && Location(seen, fd.View(), fd.position).None?)
    ensures FileReadable(v, old(fd.View())) ==> ok && FileReadable(v, fd.View())
    ensures Shows(v, seen, fd.View())
  {
    var n: nat := byteCount;
    if !fd.isDirectory || fd.size != 0 {
      n := if n < fd.size - fd.position then n else fd.size - fd.position;
    }
    ContentClamp(seen, fd.View(), byteCount, n);
    out, ok := ReadLoop(v, seen, fd, n);
    ShowsKept(v, seen, old(fd.View()), fd.View());
    assert SectorLba(seen, fd.View(), 0).Some?;
    if FileReadable(v, old(fd.View())) {
      ReadableToTheEnd(v, seen, old(fd.View()), fd.View(), ok);
    }
  }

  // The reading loop, once the count is cut to the size of the file.
  method ReadLoop(v: Volume, ghost seen: Volume, fd: FileData, byteCount: nat) returns (out: seq<byte>, ghost ok: bool)
    requires Coherent(seen, fd.View()) && Shows(v, seen, fd.View())
    requires fd.View().Unbounded() || fd.position + byteCount <= fd.size
    modifies fd`currentCluster, fd`sectorInCluster, fd`buffer, fd`size, fd`position
    ensures SameFile(seen, old(fd.View()), fd.View())
    ensures fd.position == old(fd.position) + |out|
    ensures out <= Content(seen, old(fd.View()), old(fd.position), byteCount)
    ensures ok ==> out == Content(seen, old(fd.View()), old(fd.position), byteCount) && Coherent(seen, fd.View())
    ensures !ok ==> var l := Location(seen, fd.View(), fd.position); l.Some? && !v.readable(l.value)
    ensures fd.size == old(fd.size) || (fd.size == fd.position && Location(seen, fd.View(), fd.position).None?)
  {
    ghost var f0, all := fd.View(), Content(seen, fd.View(), fd.position, byteCount);
    LikeSame(seen, f0, f0);
    var n: nat := byteCount;
    out, ok := [], true;
    while n > 0
      invariant Underway(seen, f0, fd.View(), out, n, all)
      decreases n
    {
      ShowsKept(v, seen, f0, fd.View());
      var chunk, r := LoopTurn(v, seen, fd, n, f0, out, all);
      out := out + chunk;
      n := n - |chunk|;
      if r == ChainEnd {
        return;
      }
      if r == ReadError {
        return out, false;
      }
    }
  }

  // The loop has returned out and has n more bytes to read of all it will return.
  ghost predicate Underway(v: Volume, f0: Cursor, f: Cursor, out: seq<byte>, n: nat, all: seq<byte>) {
    && Coherent(v, f) && SameFile(v, f0, f) && f.size == f0.size
    && (f.Unbounded() || f.position + n <= f.size)
    && f.position == f0.position + |out|
    && out + Content(v, f0, f.position, n) == all
  }

  method LoopTurn(v: Volume, ghost seen: Volume, fd: FileData, n: nat,
                  ghost f0: Cursor, ghost out: seq<byte>, ghost all: seq<byte>)
    returns (chunk: seq<byte>, r: Fetch)
    requires Underway(seen, f0, fd.View(), out, n, all) && Shows(v, seen, fd.View()) && n > 0
    modifies fd`currentCluster, fd`sectorInCluster, fd`buffer, fd`size, fd`position
    ensures 1 <= |chunk| <= n && SameFile(seen, f0, fd.View()) && fd.position == f0.position + |out| + |chunk|
    ensures r.Fetched? ==> Underway(seen, f0, fd.View(), out + chunk, n - |chunk|, all)
    ensures r.ChainEnd? ==> out + chunk == all && Coherent(seen, fd.View()) && fd.size == fd.position
    ensures r.ChainEnd? ==> Location(seen, fd.View(), fd.position).None?
    ensures r.ReadError? ==> out + chunk <= all && fd.size == f0.size
    ensures r.ReadError? ==> var l := Location(seen, fd.View(), fd.position); l.Some? && !v.readable(l.value)
  {
    ghost var f := fd.View();
    chunk, r := ReadChunk(v, seen, fd, n);
    ReadTurn(seen, f0, f, fd.View(), chunk, out, n);
  }

  // Asking for no more than the size leaves is asking for as much as there is.
  lemma ContentClamp(v: Volume, f: Cursor, byteCount: nat, n: nat)
    requires WellFormed(v, f) && n <= byteCount
    requires n == byteCount || (!f.Unbounded() && n == f.size - f.position)
    ensures Content(v, f, f.position, byteCount) == Content(v, f, f.position, n)
  {
    if n < byteCount {
      BytesClamp(Has(v, f), At(v, f), f.position, n, byteCount);
    }
  }

  // One turn of the loop, with f and g the cursor before and after.
  lemma ReadTurn(v: Volume, f0: Cursor, f: Cursor, g: Cursor, chunk: seq<byte>, out: seq<byte>, n: nat)
    requires SameFile(v, f0, f) && SameFile(v, f, g) && |chunk| <= n
    requires chunk == Content(v, f, f.position, |chunk|) && g.position == f.position + |chunk|
    ensures SameFile(v, f0, g)
    ensures out + Content(v, f0, f.position, n) == out + chunk + Content(v, f0, g.position, n - |chunk|)
    ensures Location(v, g, g.position).None? ==> Content(v, f0, g.position, n - |chunk|) == []
  {
    SameFileTrans(v, f0, f, g);
    ContentOfSameFile(v, f0, f, f.position, |chunk|);
    BytesConcat(Has(v, f0), At(v, f0), f.position, |chunk|, n - |chunk|);
    assert InFile(v, f0, g.position) <==> InFile(v, g, g.position);
  }

  // No read of a readable file fails, and it stays readable when its size is cut.
  lemma ReadableToTheEnd(v: Volume, seen: Volume, f: Cursor, g: Cursor, ok: bool)
    requires WellFormed(v, f) && WellFormed(seen, g) && seen == v.(sector := seen.sector) && FileReadable(v, f)
    requires g.IsRoot() == f.IsRoot() && g.firstCluster == f.firstCluster && g.isDirectory == f.isDirectory
    requires g.size == f.size || (g.size == g.position > 0 && (f.Unbounded() || g.size <= f.size))
    requires !ok ==> var l := Location(seen, g, g.position); l.Some? && !v.readable(l.value)
    ensures ok && FileReadable(v, g)
  {
    var s := g.position / SECTOR_SIZE;
    SameLba(v, seen, g, s);
    assert SectorLba(v, g, s) == SectorLba(v, f, s);
    assert f.Unbounded() || SECTOR_SIZE * s <= f.size;
    ReadableKept(v, f, g);
  }
}
