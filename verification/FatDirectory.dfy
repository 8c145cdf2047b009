// Directories of the FAT driver: looking a name up, opening its entry, and walking a path.
module FatDirectory {
  import opened Basics
  import opened FatModel
  import opened FatNames
  import opened FatFiles
  import M = MemoryBytes

  const ENTRY_SIZE: nat := 32
  const SLASH: byte := 47
  const MAX_PATH_SIZE: nat := 256

  datatype Entry = Entry(name: seq<byte>, isDirectory: bool, firstCluster: nat, size: nat)

  // The fields of a 32-byte directory entry.
  function Parse(b: seq<byte>): (e: Entry)
    requires |b| == ENTRY_SIZE
    ensures |e.name| == NAME_LENGTH
  {
    Entry(b[..NAME_LENGTH], b[11] / 16 % 2 == 1, U16(b, 26) + 0x10000 * U16(b, 20), U16(b, 28) + 0x10000 * U16(b, 30))
  }

  // A directory entry field by field, in the order of the packed structure.
  datatype RawEntry = RawEntry(name: seq<byte>, attributes: byte, reserved: byte, tenths: byte,
                               createdTime: nat, createdDate: nat, accessedDate: nat, clusterHigh: nat,
                               modifiedTime: nat, modifiedDate: nat, clusterLow: nat, size: nat)

  function Packed(r: RawEntry): (b: seq<byte>)
    requires |r.name| == NAME_LENGTH
    ensures |b| == ENTRY_SIZE
  {
    r.name + [r.attributes, r.reserved, r.tenths]
    + (M.Bytes2(r.createdTime) + M.Bytes2(r.createdDate) + M.Bytes2(r.accessedDate) + M.Bytes2(r.clusterHigh))
    + (M.Bytes2(r.modifiedTime) + M.Bytes2(r.modifiedDate) + M.Bytes2(r.clusterLow) + M.Bytes4(r.size))
  }

  lemma U16OfBytes(b: seq<byte>, i: nat, n: nat)
    requires i + 2 <= |b| && b[i..i + 2] == M.Bytes2(n) && n < 0x10000
    ensures U16(b, i) == n
  {
    assert b[i] == b[i..i + 2][0] && b[i + 1] == b[i..i + 2][1];
  }

  // Reading an entry finds the name, the directory flag, the cluster in its two halves, and
  // the size.
  lemma ParseOfPacked(r: RawEntry)
    requires |r.name| == NAME_LENGTH
    requires r.clusterHigh < 0x10000 && r.clusterLow < 0x10000 && r.size < U32
    ensures Parse(Packed(r))
         == Entry(r.name, r.attributes / 16 % 2 == 1, r.clusterLow + 0x10000 * r.clusterHigh, r.size)
  {
    hide M.Bytes2, M.Bytes4, U16;
    var b := Packed(r);
    M.HalvesOfBytes(r.size);
    U16OfBytes(b, 20, r.clusterHigh);
    U16OfBytes(b, 26, r.clusterLow);
    U16OfBytes(b, 28, r.size % 0x10000);
    U16OfBytes(b, 30, r.size / 0x10000);
    assert b[..NAME_LENGTH] == r.name;
  }

  // ---------------------------------------------------------------- what a lookup means

  // The i-th entry of a directory; shorter than an entry at its end.
  ghost function Slot(v: Volume, f: Cursor, i: nat): seq<byte>
    requires WellFormed(v, f)
  {
    Content(v, f, ENTRY_SIZE * i, ENTRY_SIZE)
  }

  ghost predicate Holds(v: Volume, f: Cursor, i: nat, name: seq<byte>)
    requires WellFormed(v, f)
  {
    |Slot(v, f, i)| == ENTRY_SIZE && Slot(v, f, i)[..NAME_LENGTH] == name
  }

  // Entry i is the first one with that 11-byte name.
  ghost predicate IsFirst(v: Volume, f: Cursor, i: nat, name: seq<byte>)
    requires WellFormed(v, f)
  {
    Holds(v, f, i, name) && forall k: nat :: k < i ==> !Holds(v, f, k, name)
  }

  ghost predicate Missing(v: Volume, f: Cursor, name: seq<byte>)
    requires WellFormed(v, f)
  {
    forall k: nat :: !Holds(v, f, k, name)
  }

  // The cursor FAT_OpenEntry sets up.
  function Opened(v: Volume, e: Entry, handle: int): Cursor {
    Cursor(handle, e.isDirectory, 0, e.size, e.firstCluster, e.firstCluster, 0,
           v.sector(ClusterToLba(v, e.firstCluster)))
  }

  lemma OpenedCoherent(v: Volume, e: Entry, handle: nat)
    requires v.Mounted() && e.firstCluster < END_OF_CHAIN
    ensures Coherent(v, Opened(v, e, handle)) && SameFile(v, Opened(v, e, 0), Opened(v, e, handle))
  {
    assert v.ClusterOf(0) == 0 && v.SectorIn(0) == 0;
    assert |v.sector(ClusterToLba(v, e.firstCluster))| == SECTOR_SIZE;
    LikeSame(v, Opened(v, e, 0), Opened(v, e, handle));
  }

  lemma SameSlots(v: Volume, f: Cursor, g: Cursor, i: nat)
    requires SameFile(v, f, g)
    ensures Slot(v, f, i) == Slot(v, g, i)
  {
    ContentOfSameFile(v, f, g, ENTRY_SIZE * i, ENTRY_SIZE);
  }

  // Complete entries lie before incomplete ones.
  lemma SlotPrefix(v: Volume, f: Cursor, i: nat, j: nat)
    requires WellFormed(v, f) && i <= j && |Slot(v, f, j)| == ENTRY_SIZE
    ensures |Slot(v, f, i)| == ENTRY_SIZE
  {
    forall x: nat, y: nat | x <= y && Has(v, f)(y)
      ensures Has(v, f)(x)
    {
      InFilePrefix(v, f, x, y);
    }
    BytesFull(Has(v, f), At(v, f), ENTRY_SIZE * i, ENTRY_SIZE * j, ENTRY_SIZE);
  }

  lemma SlotBelow(v: Volume, f: Cursor, i: nat, bound: nat)
    requires WellFormed(v, f) && |Slot(v, f, i)| == ENTRY_SIZE && !InFile(v, f, bound)
    ensures ENTRY_SIZE * i < bound
  {
    BytesAre(Has(v, f), At(v, f), ENTRY_SIZE * i, ENTRY_SIZE);
    assert Has(v, f)(ENTRY_SIZE * i);
    if bound <= ENTRY_SIZE * i {
      InFilePrefix(v, f, bound, ENTRY_SIZE * i);
    }
  }

  // FAT_ReadEntry, for the entry the directory f0 has at the current position.
  method ReadEntry(v: Volume, ghost seen: Volume, fd: FileData, ghost f0: Cursor, ghost index: nat)
    returns (ok: bool, bytes: seq<byte>)
    requires Coherent(seen, fd.View()) && SameFile(seen, f0, fd.View()) && fd.position == ENTRY_SIZE * index
    requires Shows(v, seen, fd.View()) && FileReadable(v, fd.View())
    modifies fd`currentCluster, fd`sectorInCluster, fd`buffer, fd`size, fd`position
    ensures Coherent(seen, fd.View()) && SameFile(seen, f0, fd.View()) && fd.RootKept(old(fd.View()))
    ensures bytes == Slot(seen, f0, index) && ok == (|bytes| == ENTRY_SIZE)
    ensures fd.position == ENTRY_SIZE * index + |bytes|
    ensures Shows(v, seen, fd.View()) && FileReadable(v, fd.View())
  {
    ghost var f := fd.View();
    ghost var done;
    bytes, done := Read(v, seen, fd, ENTRY_SIZE);
    ok := |bytes| == ENTRY_SIZE;
    SameFileTrans(seen, f0, f, fd.View());
    SameSlots(seen, f0, f, index);
  }

  // The entries before index are complete and have other names.
  ghost predicate Passed(v: Volume, f: Cursor, index: nat, name: seq<byte>)
    requires WellFormed(v, f)
  {
    forall k: nat :: k < index ==> |Slot(v, f, k)| == ENTRY_SIZE && !Holds(v, f, k, name)
  }

  lemma NoneLeft(v: Volume, f: Cursor, index: nat, name: seq<byte>)
    requires WellFormed(v, f) && Passed(v, f, index, name) && |Slot(v, f, index)| != ENTRY_SIZE
    ensures Missing(v, f, name)
  {
    forall k: nat
      ensures !Holds(v, f, k, name)
    {
      if k >= index && |Slot(v, f, k)| == ENTRY_SIZE { SlotPrefix(v, f, index, k); }
    }
  }

  // An entry that is complete is the one looked for, or is passed over.
  lemma Compared(v: Volume, f: Cursor, index: nat, name: seq<byte>, bytes: seq<byte>)
    requires WellFormed(v, f) && Passed(v, f, index, name) && bytes == Slot(v, f, index) && |bytes| == ENTRY_SIZE
    ensures if bytes[..NAME_LENGTH] == name then IsFirst(v, f, index, name) else Passed(v, f, index + 1, name)
  {
    hide Slot;
    assert Holds(v, f, index, name) <==> bytes[..NAME_LENGTH] == name;
  }

  // An incomplete entry ends where the directory does.
  lemma EndOfSlots(v: Volume, f: Cursor, index: nat)
    requires WellFormed(v, f) && |Slot(v, f, index)| != ENTRY_SIZE
    ensures !InFile(v, f, ENTRY_SIZE * index + |Slot(v, f, index)|)
  {
    hide InFile, At;
    BytesAre(Has(v, f), At(v, f), ENTRY_SIZE * index, ENTRY_SIZE);
    assert !Has(v, f)(ENTRY_SIZE * index + |Slot(v, f, index)|);
  }

  // FAT_FindFile on a directory read from its start, as seen through its cache: the first entry
  // whose name matches.
  method FindFile(v: Volume, ghost seen: Volume, fd: FileData, name: seq<byte>, ghost bound: nat)
    returns (found: bool, entry: Entry, ghost index: nat)
    requires Coherent(seen, fd.View()) && fd.position == 0 && 0 !in name
    requires !InFile(seen, fd.View(), bound) && Shows(v, seen, fd.View()) && FileReadable(v, fd.View())
    modifies fd`currentCluster, fd`sectorInCluster, fd`buffer, fd`size, fd`position
    ensures SameFile(seen, old(fd.View()), fd.View()) && Coherent(seen, fd.View()) && fd.RootKept(old(fd.View()))
    ensures found ==> IsFirst(seen, old(fd.View()), index, FatName(name))
    ensures found ==> entry == Parse(Slot(seen, old(fd.View()), index)) && fd.position == ENTRY_SIZE * (index + 1)
    ensures !found ==> Missing(seen, old(fd.View()), FatName(name)) && !InFile(seen, old(fd.View()), fd.position)
  {
    hide Slot, Holds, IsFirst, Missing, FatName, InFile, Location;
    ghost var f0 := fd.View();
    var fatName := ConvertName(name);
    LikeSame(seen, f0, f0);
    index, entry, found := 0, Entry(fatName, false, 0, 0), false;
    while true
      invariant Coherent(seen, fd.View()) && SameFile(seen, f0, fd.View()) && fd.RootKept(f0)
      invariant Shows(v, seen, fd.View()) && FileReadable(v, fd.View())
      invariant fd.position == ENTRY_SIZE * index && Passed(seen, f0, index, fatName)
      decreases bound - ENTRY_SIZE * index
    {
      var ok, bytes := ReadEntry(v, seen, fd, f0, index);
      if !ok {
        NoneLeft(seen, f0, index, fatName);
        EndOfSlots(seen, f0, index);
        return;
      }
      Compared(seen, f0, index, fatName, bytes);
      if bytes[..NAME_LENGTH] == fatName {
        return true, Parse(bytes), index;
      }
      SlotBelow(seen, f0, index, bound);
      index := index + 1;
    }
  }
}
