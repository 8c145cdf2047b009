// The load loop of stage 2: read a file in 64 KiB chunks and copy each to its place.
module FileLoader {
  import opened FatModel
  import opened FatFiles

  const MEMORY_LOAD_SIZE: nat := 0x10000

  // memcpy takes its length as a uint16_t.
  function CopyLength(n: nat): nat { n % 0x10000 }

  // What the loop leaves at the destination: full chunks have a copy length of zero, so only
  // the bytes of the last, partial chunk arrive.
  function Loaded(dest: seq<byte>, file: seq<byte>): (r: seq<byte>)
    requires |file| <= |dest|
    ensures |r| == |dest|
  {
    var full := |file| / MEMORY_LOAD_SIZE * MEMORY_LOAD_SIZE;
    dest[..full] + file[full..] + dest[|file|..]
  }

  // memcpy of stage 2.
  method CopyBytes(dest: array<byte>, at: nat, src: seq<byte>, num: nat)
    requires num == CopyLength(|src|) && at + |src| <= dest.Length
    modifies dest
    ensures dest[..] == old(dest[..at]) + src[..num] + old(dest[at + num..])
  {
    for i := 0 to num
      invariant dest[..at] == old(dest[..at]) && dest[at..at + i] == src[..i]
      invariant dest[at + i..] == old(dest[at + i..])
    {
      dest[at + i] := src[i];
      assert dest[at..at + i + 1] == dest[at..at + i] + [src[i]];
    }
  }

  // The next chunk of a file at position p.
  function Chunk(file: seq<byte>, p: nat): seq<byte>
    requires p <= |file|
  {
    if MEMORY_LOAD_SIZE <= |file| - p then file[p..][..MEMORY_LOAD_SIZE] else file[p..]
  }

  // The whole file a cursor at its start reads.
  ghost function FileBytes(v: Volume, f: Cursor): seq<byte>
    requires WellFormed(v, f)
  {
    Content(v, f, 0, f.size)
  }

  // A chunk read at position p is that stretch of the file.
  lemma ChunkOfFile(v: Volume, f: Cursor, p: nat, n: nat)
    requires WellFormed(v, f) && !f.Unbounded() && p <= |FileBytes(v, f)|
    ensures var file := FileBytes(v, f);
      Content(v, f, p, n) == if n <= |file| - p then file[p..][..n] else file[p..]
  {
    BytesChunk(Has(v, f), At(v, f), f.size, p, n);
  }

  lemma LoadedWhole(was: seq<byte>, file: seq<byte>)
    requires |file| <= |was| && |file| % MEMORY_LOAD_SIZE == 0
    ensures Loaded(was, file) == was
  {
    assert |file| / MEMORY_LOAD_SIZE * MEMORY_LOAD_SIZE == |file|;
    assert file[|file|..] == [];
  }

  lemma LoadedLast(was: seq<byte>, file: seq<byte>, p: nat)
    requires p < |file| <= |was| && p % MEMORY_LOAD_SIZE == 0 && |file| - p < MEMORY_LOAD_SIZE
    ensures Loaded(was, file) == was[..p] + file[p..] + was[|file|..]
  {
    assert |file| / MEMORY_LOAD_SIZE * MEMORY_LOAD_SIZE == p;
  }

  lemma ModAdd(p: nat, n: nat)
    requires p % MEMORY_LOAD_SIZE == 0
    ensures (p + n) % MEMORY_LOAD_SIZE == n % MEMORY_LOAD_SIZE
  {
    assert p == p / MEMORY_LOAD_SIZE * MEMORY_LOAD_SIZE;
  }

  // The loop of start(): it ends with the first empty read.
  method LoadFile(v: Volume, fd: FileData, dest: array<byte>) returns (totalRead: nat)
    requires Coherent(v, fd.View()) && fd.position == 0 && !fd.isDirectory
    requires |FileBytes(v, fd.View())| <= dest.Length
    requires FileReadable(v, fd.View())
    modifies fd`currentCluster, fd`sectorInCluster, fd`buffer, fd`size, fd`position, dest
    ensures totalRead == |FileBytes(v, old(fd.View()))|
    ensures dest[..] == Loaded(old(dest[..]), FileBytes(v, old(fd.View())))
  {
    ghost var f0, file, was := fd.View(), FileBytes(v, fd.View()), dest[..];
    LikeSame(v, f0, f0);
    totalRead := 0;
    while true
      invariant Underway(v, fd.View(), f0, totalRead) && FileReadable(v, fd.View())
      invariant dest[..] == if totalRead % MEMORY_LOAD_SIZE == 0 then was else Loaded(was, file)
      decreases |file| - totalRead
    {
      var readSize := LoadTurn(v, fd, dest, f0, totalRead);
      if readSize == 0 {
        break;
      }
      ModAdd(totalRead, readSize);
      totalRead := totalRead + readSize;
    }
    if totalRead % MEMORY_LOAD_SIZE == 0 {
      LoadedWhole(was, file);
    }
  }

  // The file f0 has been read up to position p: whole chunks, or all of it.
  ghost predicate Underway(v: Volume, f: Cursor, f0: Cursor, p: nat) {
    && Coherent(v, f) && SameFile(v, f0, f) && !f0.isDirectory && f.position == p <= |FileBytes(v, f0)|
    && (p % MEMORY_LOAD_SIZE != 0 ==> p == |FileBytes(v, f0)|)
  }

  // One turn of the loop: a read and a copy; an empty read at the end of the file.
  method LoadTurn(v: Volume, fd: FileData, dest: array<byte>, ghost f0: Cursor, p: nat) returns (readSize: nat)
    requires Underway(v, fd.View(), f0, p) && |FileBytes(v, f0)| <= dest.Length
    requires FileReadable(v, fd.View())
    modifies fd`currentCluster, fd`sectorInCluster, fd`buffer, fd`size, fd`position, dest
    ensures Underway(v, fd.View(), f0, p + readSize) && FileReadable(v, fd.View())
    ensures readSize == 0 ==> p == |FileBytes(v, f0)|
    ensures dest[..] == if readSize % MEMORY_LOAD_SIZE == 0 then old(dest[..])
                        else Loaded(old(dest[..]), FileBytes(v, f0))
    ensures readSize > 0 ==> p % MEMORY_LOAD_SIZE == 0
  {
    hide FileBytes, Loaded, Coherent, InFile, Location;
    var chunk := ReadNext(v, fd, f0, p);
    if |chunk| > 0 {
      ModAdd(p, |chunk|);
      CopyChunk(dest, FileBytes(v, f0), p, chunk);
    }
    return |chunk|;
  }

  // One copy of the loop: a full chunk copies nothing, a partial one is the last.
  method CopyChunk(dest: array<byte>, ghost file: seq<byte>, p: nat, chunk: seq<byte>)
    requires p < |file| <= dest.Length && p % MEMORY_LOAD_SIZE == 0
    requires chunk == Chunk(file, p)
    modifies dest
    ensures dest[..] == if |chunk| == MEMORY_LOAD_SIZE then old(dest[..]) else Loaded(old(dest[..]), file)
  {
    hide Loaded;
    CopyBytes(dest, p, chunk, CopyLength(|chunk|));
    if |chunk| < MEMORY_LOAD_SIZE {
      LoadedLast(old(dest[..]), file, p);
    } else {
      assert dest[..] == old(dest[..])[..p] + old(dest[..])[p..];
    }
  }

  // One read of the loop, with the file f0 open at position p.
  method ReadNext(v: Volume, fd: FileData, ghost f0: Cursor, p: nat) returns (chunk: seq<byte>)
    requires Coherent(v, fd.View()) && SameFile(v, f0, fd.View()) && fd.position == p && !f0.isDirectory
    requires p <= |FileBytes(v, f0)| && FileReadable(v, fd.View())
    modifies fd`currentCluster, fd`sectorInCluster, fd`buffer, fd`size, fd`position
    ensures Coherent(v, fd.View()) && SameFile(v, f0, fd.View()) && fd.position == p + |chunk|
    ensures FileReadable(v, fd.View())
    ensures var file := FileBytes(v, f0);
      chunk == Chunk(file, p)
  {
    ghost var f := fd.View();
    ghost var ok;
    ShowsItself(v, f);
    chunk, ok := Read(v, v, fd, MEMORY_LOAD_SIZE);
    SameFileTrans(v, f0, f, fd.View());
    ContentOfSameFile(v, f0, f, p, MEMORY_LOAD_SIZE);
    ChunkOfFile(v, f0, p, MEMORY_LOAD_SIZE);
  }

  // The loop reproduces the file for every content of the destination exactly when the file
  // is shorter than one chunk, 64 KiB.
  lemma LoadReproduces(file: seq<byte>)
    ensures (forall dest: seq<byte> :: |file| <= |dest| ==> Loaded(dest, file)[..|file|] == file)
       <==> |file| < 0x1_0000
  {
    if |file| < MEMORY_LOAD_SIZE {
      forall dest: seq<byte> | |file| <= |dest|
        ensures Loaded(dest, file)[..|file|] == file
      {
      }
    } else {
      var other: byte := if file[0] == 0 then 1 else 0;
      var dest := [other] + file[1..];
      assert Loaded(dest, file)[..|file|][0] == other;
    }
  }
}
