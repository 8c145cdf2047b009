// FAT_OpenEntry, FAT_Close and FAT_Open over the table of file handles.
module FatDriver {
  import opened Basics
  import opened FatModel
  import opened FatNames
  import opened FatFiles
  import opened FatDirectory

  // ---------------------------------------------------------------- paths on values

  // The components of a path; each slash ends one.
  function Components(path: seq<byte>): seq<seq<byte>>
    decreases |path|
  {
    if path == [] then []
    else
      var k := Until(path, SLASH);
      if k < |path| then [path[..k]] + Components(path[k+1..]) else [path]
  }

  // A leading slash is skipped.
  function Relative(path: seq<byte>): seq<byte> {
    if path != [] && path[0] == SLASH then path[1..] else path
  }

  // The entry a directory has under a name, the first one when there are several.
  ghost function Named(v: Volume, dir: Cursor, name: seq<byte>): Option<Entry>
    requires WellFormed(v, dir)
  {
    if i: nat :| IsFirst(v, dir, i, name) then Some(Parse(Slot(v, dir, i))) else None
  }

  // The entry a path leads to from a directory, component by component. The directory itself is
  // as seen holds it, those further down as the disk v holds them.
  ghost function Resolve(seen: Volume, v: Volume, dir: Cursor, path: seq<seq<byte>>): Option<Entry>
    decreases |path|
  {
    if path == [] || !WellFormed(seen, dir) then None
    else match Named(seen, dir, FatName(path[0]))
      case None => None
      case Some(e) => if |path| == 1 then Some(e) else Resolve(v, v, Opened(v, e, 0), path[1..])
  }

  ghost predicate Ends(v: Volume, dir: Cursor)
    requires WellFormed(v, dir)
  {
    exists bound: nat :: !InFile(v, dir, bound)
  }

  // Every directory the path goes through ends and can be read, its components fit the name
  // buffer, and the entries on the way have clusters of a FAT12 volume that can be read.
  ghost predicate Walkable(seen: Volume, v: Volume, dir: Cursor, path: seq<seq<byte>>)
    decreases |path|
  {
    path == [] ||
    (&& v.Mounted() && WellFormed(seen, dir) && Ends(seen, dir) && FileReadable(v, dir)
     && |path[0]| < MAX_PATH_SIZE && 0 !in path[0]
     && match Named(seen, dir, FatName(path[0]))
        case None => true
        case Some(e) =>
          && e.firstCluster < END_OF_CHAIN && v.readable(ClusterToLba(v, e.firstCluster))
          && Walkable(v, v, Opened(v, e, 0), path[1..]))
  }

  function AfterFirst(path: seq<byte>): (r: seq<byte>)
    requires path != []
    ensures |r| < |path|
  {
    var k := Until(path, SLASH);
    if k < |path| then path[k+1..] else []
  }

  // What the first component of a path does to where the path leads.
  lemma ResolveStep(seen: Volume, v: Volume, dir: Cursor, path: seq<byte>)
    requires path != [] && Walkable(seen, v, dir, Components(path))
    ensures WellFormed(seen, dir) && Ends(seen, dir) && 0 !in path[..Until(path, SLASH)]
    ensures v.Mounted() && FileReadable(v, dir)
    ensures match Named(seen, dir, FatName(path[..Until(path, SLASH)]))
      case None => Resolve(seen, v, dir, Components(path)) == None
      case Some(e) =>
        && e.firstCluster < END_OF_CHAIN && v.readable(ClusterToLba(v, e.firstCluster))
        && Walkable(v, v, Opened(v, e, 0), Components(AfterFirst(path)))
        && Resolve(seen, v, dir, Components(path))
           == if AfterFirst(path) == [] then Some(e) else Resolve(v, v, Opened(v, e, 0), Components(AfterFirst(path)))
  {
    var c := Components(path);
    assert Until(path, SLASH) == |path| ==> path[..|path|] == path;
    assert c[0] == path[..Until(path, SLASH)] && c[1..] == Components(AfterFirst(path));
    assert |c| == 1 <==> AfterFirst(path) == [];
  }

  lemma NamedIs(v: Volume, dir: Cursor, i: nat, name: seq<byte>)
    requires WellFormed(v, dir) && IsFirst(v, dir, i, name)
    ensures Named(v, dir, name) == Some(Parse(Slot(v, dir, i)))
  {
    forall j: nat | IsFirst(v, dir, j, name)
      ensures j == i
    {
      FirstIsUnique(v, dir, i, j, name);
    }
  }

  lemma FirstIsUnique(v: Volume, dir: Cursor, i: nat, j: nat, name: seq<byte>)
    requires WellFormed(v, dir) && IsFirst(v, dir, i, name) && IsFirst(v, dir, j, name)
    ensures i == j
  {
  }

  lemma NamedSame(v: Volume, f: Cursor, g: Cursor, name: seq<byte>)
    requires SameFile(v, f, g)
    ensures Named(v, f, name) == Named(v, g, name)
  {
    forall i: nat
      ensures Holds(v, f, i, name) == Holds(v, g, i, name) && Slot(v, f, i) == Slot(v, g, i)
    {
      SameSlots(v, f, g, i);
    }
    if i: nat :| IsFirst(v, f, i, name) {
      assert IsFirst(v, g, i, name);
      NamedIs(v, f, i, name);
      NamedIs(v, g, i, name);
    } else {
      if j: nat :| IsFirst(v, g, j, name) {
        assert IsFirst(v, f, j, name);
      }
    }
  }

  // ---------------------------------------------------------------- the cached root

  // The root directory as FAT_Initialize and FAT_Close leave it: at its start, with some sector
  // in its cache.
  predicate Rewound(f: Cursor) {
    && f.IsRoot() && f.isDirectory && f.size > 0 && f.position == 0
    && f.currentCluster == f.firstCluster && |f.buffer| == SECTOR_SIZE
  }

  // The disk as it looks through that cache: the root's first sector is what the cache holds.
  function Seen(v: Volume, f: Cursor): Volume {
    v.(sector := (lba: nat) => if lba == f.firstCluster then f.buffer else v.sector(lba))
  }

  lemma SeenCoherent(v: Volume, f: Cursor)
    requires v.Mounted() && Rewound(f)
    ensures Coherent(Seen(v, f), f) && Shows(v, Seen(v, f), f)
  {
  }

  // How far a lookup goes: past the entry it finds, or to the end of the root.
  ghost function ScanEnd(v: Volume, f: Cursor, name: seq<byte>): nat
    requires WellFormed(v, f)
  {
    if i: nat :| IsFirst(v, f, i, name) then ENTRY_SIZE * (i + 1) else f.size
  }

  lemma ScanEndFound(v: Volume, f: Cursor, i: nat, name: seq<byte>)
    requires WellFormed(v, f) && IsFirst(v, f, i, name)
    ensures ScanEnd(v, f, name) == ENTRY_SIZE * (i + 1)
  {
    forall j: nat | IsFirst(v, f, j, name)
      ensures j == i
    {
      FirstIsUnique(v, f, i, j, name);
    }
  }

  // The root f, looked through up to position p and closed: rewound, with the sector of p left
  // in the cache.
  predicate LeftRoot(seen: Volume, f: Cursor, g: Cursor, p: nat) {
    g == f.(position := 0, currentCluster := f.firstCluster, sectorInCluster := g.sectorInCluster,
            buffer := seen.sector(f.firstCluster + p / SECTOR_SIZE))
  }

  lemma ScanEndMissing(v: Volume, f: Cursor, name: seq<byte>)
    requires WellFormed(v, f) && Missing(v, f, name)
    ensures ScanEnd(v, f, name) == f.size && Named(v, f, name) == None
  {
  }

  // The root f has been looked through up to where f1 is.
  predicate Scanned(f: Cursor, f1: Cursor) {
    f.IsRoot() && f1 == f.(position := f1.position, currentCluster := f1.currentCluster,
                           sectorInCluster := f1.sectorInCluster, buffer := f1.buffer)
  }

  lemma ScannedEnd(seen: Volume, f: Cursor, f1: Cursor)
    requires WellFormed(seen, f) && Coherent(seen, f1) && Scanned(f, f1)
    ensures !InFile(seen, f, f1.position) ==> f1.position == f.size
  {
  }

  // A lookup that ended at position p, then the closing.
  lemma LeftAfter(seen: Volume, f: Cursor, f1: Cursor, p: nat)
    requires Coherent(seen, f1) && Scanned(f, f1) && p == f1.position
    ensures LeftRoot(seen, f, f1.(position := 0, currentCluster := f.firstCluster), p)
  {
  }

  // The 11-byte name of the first component of a path.
  function FirstName(path: seq<byte>): seq<byte> {
    FatName(Relative(path)[..Until(Relative(path), SLASH)])
  }

  // What a path that begins with a name leaves of the root f.
  ghost predicate Left(v: Volume, f: Cursor, g: Cursor, name: seq<byte>) {
    WellFormed(Seen(v, f), f) && LeftRoot(Seen(v, f), f, g, ScanEnd(Seen(v, f), f, name))
  }

  lemma LeftIsRewound(v: Volume, f: Cursor, g: Cursor, name: seq<byte>)
    requires v.Mounted() && Rewound(f) && Left(v, f, g, name)
    ensures Rewound(g)
  {
    SeenCoherent(v, f);
  }

  // ---------------------------------------------------------------- the handle table

  class Driver {
    const v: Volume
    const root: FileData
    const files: seq<FileData>

    ghost predicate Valid()
      reads this, root, files
    {
      && |files| == MAX_FILE_HANDLES && root !in files
      && (forall i, j :: 0 <= i < j < |files| ==> files[i] != files[j])
      && v.Mounted() && root.handle == ROOT_DIRECTORY_HANDLE
    }

    // The handle FAT_OpenEntry will take: the lowest that is not in use, or the one past the last
    // when the table is full.
    ghost predicate NextHandle(h: nat)
      reads this, files
    {
      h <= |files| && (h < |files| ==> !files[h].inUse) && forall k :: 0 <= k < h ==> files[k].inUse
    }

    // That handle's slot in the table, if there is one.
    ghost function SlotOf(h: nat): set<FileData> { if h < |files| then {files[h]} else {} }

    constructor (v: Volume, root: FileData, files: seq<FileData>)
      ensures this.v == v && this.root == root && this.files == files
    {
      this.v, this.root, this.files := v, root, files;
    }

    // FAT_OpenEntry, with null for its failures.
    method OpenEntry(entry: Entry, ghost h: nat) returns (fd: FileData?)
      requires Valid() && NextHandle(h)
      modifies SlotOf(h)
      ensures Valid()
      ensures fd != null <==> h < 10 && v.readable(ClusterToLba(v, entry.firstCluster))
      ensures fd != null ==> fd == files[h] && fd.inUse && fd.View() == Opened(v, entry, h)
      ensures fd == null && h < |files| ==> !files[h].inUse
    {
      var handle := -1;
      var i := 0;
      while i < MAX_FILE_HANDLES && handle < 0
        invariant i <= MAX_FILE_HANDLES && -1 <= handle < i
        invariant handle < 0 ==> i <= h
        invariant handle >= 0 ==> handle == h
        decreases MAX_FILE_HANDLES - i
      {
        if !files[i].inUse {
          handle := i;
        }
        i := i + 1;
      }
      if handle < 0 {
        return null;
      }
      fd := files[handle];
      fd.handle, fd.isDirectory, fd.position, fd.size := handle, entry.isDirectory, 0, entry.size;
      fd.firstCluster, fd.currentCluster, fd.sectorInCluster := entry.firstCluster, entry.firstCluster, 0;
      var ok;
      ok, fd.buffer := ReadSector(v, ClusterToLba(v, fd.currentCluster));
      if !ok {
        return null;
      }
      fd.inUse := true;
    }

    // The directory being searched: the root, as seen through its cache, or the one open under
    // handle h.
    ghost predicate Searching(seen: Volume, current: FileData, dir: Cursor, h: nat)
      requires |files| == MAX_FILE_HANDLES
      reads this, root, files
    {
      && h <= |files| && (forall k :: 0 <= k < h ==> files[k].inUse)
      && (current == root || (h < |files| && current == files[h]))
      && (h < |files| && current == files[h] ==> current.handle == h && current.inUse)
      && (h < |files| && current == root ==> !files[h].inUse)
      && current.position == 0 && Coherent(seen, current.View()) && Shows(v, seen, current.View())
      && WellFormed(seen, dir) && Like(dir, current.View())
    }

    // The lookup half of one turn of FAT_Open: find the component, close the directory.
    method LookUp(ghost seen: Volume, current: FileData, name: seq<byte>, ghost dir: Cursor, ghost h: nat)
      returns (found: bool, entry: Entry)
      requires Valid() && Searching(seen, current, dir, h) && Ends(seen, dir) && FileReadable(v, dir) && 0 !in name
      modifies current
      ensures Valid() && NextHandle(h)
      ensures Named(seen, dir, FatName(name)) == if found then Some(entry) else None
      ensures current == root ==>
        LeftRoot(seen, old(root.View()), root.View(), ScanEnd(seen, old(root.View()), FatName(name)))
    {
      hide Named, ScanEnd, FatName, LeftRoot, Content, Location;
      ghost var f0 := current.View();
      LikeSame(seen, dir, f0);
      ReadableKept(v, dir, f0);
      ghost var bound: nat :| !InFile(seen, dir, bound);
      assert !InFile(seen, f0, bound);
      NamedSame(seen, dir, f0, FatName(name));
      ghost var index;
      found, entry, index := FindFile(v, seen, current, name, bound);
      if found {
        NamedIs(seen, f0, index, FatName(name));
        ScanEndFound(seen, f0, index, FatName(name));
      } else {
        ScanEndMissing(seen, f0, FatName(name));
      }
      if current == root {
        ScannedEnd(seen, f0, current.View());
        LeftAfter(seen, f0, current.View(), ScanEnd(seen, f0, FatName(name)));
      }
      Close(current);
    }

    // One turn of FAT_Open: look the component up and open its entry. With a full table it is
    // found and not opened.
    method Descend(ghost seen: Volume, current: FileData, name: seq<byte>, ghost dir: Cursor, ghost h: nat)
      returns (found: bool, fd: FileData?)
      requires Valid() && Searching(seen, current, dir, h) && Ends(seen, dir) && FileReadable(v, dir) && 0 !in name
      requires var e := Named(seen, dir, FatName(name));
        e.Some? ==> e.value.firstCluster < END_OF_CHAIN && v.readable(ClusterToLba(v, e.value.firstCluster))
      modifies current, SlotOf(h)
      ensures Valid() && found == Named(seen, dir, FatName(name)).Some?
      ensures current == root ==>
        LeftRoot(seen, old(root.View()), root.View(), ScanEnd(seen, old(root.View()), FatName(name)))
      ensures fd == null <==> !found || h == |files|
      ensures fd == null ==> NextHandle(h)
      ensures fd != null ==> var e := Named(seen, dir, FatName(name)).value;
        fd == files[h] && fd.View() == Opened(v, e, h) && Searching(v, fd, Opened(v, e, 0), h)
    {
      hide Named, FatName, LeftRoot, ScanEnd;
      var entry;
      found, entry := LookUp(seen, current, name, dir, h);
      if !found {
        return false, null;
      }
      OpenedCoherent(v, entry, h);
      ShowsItself(v, Opened(v, entry, h));
      fd := OpenEntry(entry, h);
    }

    // FAT_Open. The root is looked through its cache, whatever sector that holds. A path that is
    // found opens exactly the handle h, the lowest free one, however deep it is; a path that is
    // not found leaves every handle as it was. With all handles in use nothing is opened: when the
    // first component is found and more follow, the walk goes on with a null directory, which
    // the code dereferences, and nullDirectory says so. The test for a directory in the middle of
    // a path masks the attributes with 0, so it is not there.
    method Open(path: seq<byte>, ghost h: nat) returns (fd: FileData?, nullDirectory: bool)
      requires Valid() && NextHandle(h) && Rewound(root.View())
      requires Walkable(Seen(v, root.View()), v, root.View(), Components(Relative(path)))
      modifies root, SlotOf(h)
      ensures Valid() && Rewound(root.View())
      ensures Relative(path) == [] ==> fd == root && unchanged(root) && unchanged(SlotOf(h))
      ensures Relative(path) != [] && h < |files| ==>
        match Resolve(Seen(v, old(root.View())), v, old(root.View()), Components(Relative(path)))
        case None => fd == null && !files[h].inUse
        case Some(e) => fd == files[h] && fd.inUse && fd.View() == Opened(v, e, h) && Coherent(v, fd.View())
      ensures Relative(path) != [] && h == |files| ==> fd == null
      ensures nullDirectory
         <==> Relative(path) != [] && h == |files| && AfterFirst(Relative(path)) != []
              && Named(Seen(v, old(root.View())), old(root.View()), FirstName(path)).Some?
      ensures Relative(path) != [] ==> Left(v, old(root.View()), root.View(), FirstName(path))
    {
      hide Named, ScanEnd, FatName, LeftRoot, Shows, Coherent, Location;
      var rest := Relative(path);
      ghost var start, seen := root.View(), Seen(v, root.View());
      SeenCoherent(v, start);
      ghost var dir, disk, last := start, seen, None;
      var current: FileData? := root;
      while rest != []
        invariant Valid() && Rewound(root.View())
        invariant current != null ==>
          Searching(disk, current, dir, h) && Walkable(disk, v, dir, Components(rest))
        invariant current != null && rest != [] ==>
          Resolve(seen, v, start, Components(Relative(path))) == Resolve(disk, v, dir, Components(rest))
        invariant if current == root
          then rest == Relative(path) && dir == start && disk == seen && unchanged(root) && unchanged(SlotOf(h))
          else Relative(path) != [] && Left(v, start, root.View(), FirstName(path))
        invariant current == null ==>
          h == |files| && rest == AfterFirst(Relative(path)) && Named(seen, start, FirstName(path)).Some?
        invariant current != null && current != root ==>
          last.Some? && disk == v && current.View() == Opened(v, last.value, h)
        invariant rest == [] && current != null && current != root ==>
          Resolve(seen, v, start, Components(Relative(path))) == last
        decreases |rest|
      {
        if current == null {
          return null, true;
        }
        var k := Until(rest, SLASH);
        var name := rest[..k];
        ResolveStep(disk, v, dir, rest);
        var found;
        found, fd := Descend(disk, current, name, dir, h);
        if current == root {
          LeftIsRewound(v, start, root.View(), FirstName(path));
        }
        rest := if k < |rest| then rest[k+1..] else [];
        last := Named(disk, dir, FatName(name));
        if !found {
          return null, false;
        }
        dir, disk := Opened(v, last.value, 0), v;
        current := fd;
      }
      return current, false;
    }

    // FAT_Close. The root directory is rewound, but its cache is left as it is.
    method Close(fd: FileData)
      requires Valid() && (fd == root || (fd in files && fd.handle != ROOT_DIRECTORY_HANDLE))
      modifies fd`position, fd`currentCluster, fd`inUse
      ensures Valid()
      ensures fd == root ==> fd.View() == old(fd.View()).(position := 0, currentCluster := fd.firstCluster)
      ensures fd != root ==> !fd.inUse && fd.View() == old(fd.View())
    {
      if fd.handle == ROOT_DIRECTORY_HANDLE {
        fd.position := 0;
        fd.currentCluster := fd.firstCluster;
      } else {
        fd.inUse := false;
      }
    }
  }
}
