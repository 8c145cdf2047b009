// Opening a second path: what FAT_Close leaves in the cache of the root directory, when that
// is harmless, and when an entry that is there is not found.
module FatReopen {
  import opened Basics
  import opened FatModel
  import opened FatNames
  import opened FatDirectory
  import opened FatDriver

  const ENTRIES_PER_SECTOR: nat := 16

  // After a lookup that ended at position p and the closing, the cache is right for the next
  // lookup exactly when the sector reached reads like the first.
  lemma RootReopened(v: Volume, f: Cursor, g: Cursor, p: nat)
    requires v.Mounted() && Rewound(f) && LeftRoot(Seen(v, f), f, g, p)
    ensures Rewound(g)
    ensures Coherent(v, g) <==> Seen(v, f).sector(f.firstCluster + p / SECTOR_SIZE) == v.sector(f.firstCluster)
  {
    SeenCoherent(v, f);
  }

  // ---------------------------------------------------------------- the directory in the cache

  // Entry i of the root lies in one sector.
  lemma RootSlot(v: Volume, f: Cursor, i: nat)
    requires WellFormed(v, f) && f.IsRoot() && ENTRY_SIZE * (i + 1) <= f.size
    ensures var sector := v.sector(f.firstCluster + i / ENTRIES_PER_SECTOR);
      var at := ENTRY_SIZE * (i % ENTRIES_PER_SECTOR);
      |sector| == SECTOR_SIZE && Slot(v, f, i) == sector[at..at + ENTRY_SIZE]
  {
    var p := ENTRY_SIZE * i;
    assert p / SECTOR_SIZE == i / ENTRIES_PER_SECTOR && p % SECTOR_SIZE == ENTRY_SIZE * (i % ENTRIES_PER_SECTOR);
    ContentInSector(v, f, p, ENTRY_SIZE);
  }

  // With a right cache the root is seen as it is.
  lemma SlotThroughCache(v: Volume, f: Cursor, g: Cursor, i: nat)
    requires WellFormed(v, f) && Rewound(g) && Coherent(v, g) && Like(f, g)
    ensures WellFormed(Seen(v, g), g) && Slot(Seen(v, g), g, i) == Slot(v, f, i)
  {
    var seen := Seen(v, g);
    SeenCoherent(v, g);
    forall q: nat
      ensures Has(seen, g)(q) == Has(v, f)(q) && (Has(v, f)(q) ==> At(seen, g)(q) == At(v, f)(q))
    {
      assert Location(seen, g, q) == Location(v, f, q);
    }
    BytesEqual(Has(seen, g), At(seen, g), Has(v, f), At(v, f), ENTRY_SIZE * i, ENTRY_SIZE);
  }

  lemma NamedThroughCache(v: Volume, f: Cursor, g: Cursor, name: seq<byte>)
    requires WellFormed(v, f) && Rewound(g) && Coherent(v, g) && Like(f, g)
    ensures WellFormed(Seen(v, g), g) && Named(Seen(v, g), g, name) == Named(v, f, name)
  {
    var seen := Seen(v, g);
    SlotThroughCache(v, f, g, 0);
    forall i: nat
      ensures Holds(seen, g, i, name) == Holds(v, f, i, name) && Slot(seen, g, i) == Slot(v, f, i)
    {
      SlotThroughCache(v, f, g, i);
    }
    SameNamed(seen, g, v, f, name);
  }

  lemma SameNamed(u: Volume, g: Cursor, v: Volume, f: Cursor, name: seq<byte>)
    requires WellFormed(u, g) && WellFormed(v, f)
    requires forall i: nat :: Holds(u, g, i, name) == Holds(v, f, i, name) && Slot(u, g, i) == Slot(v, f, i)
    ensures Named(u, g, name) == Named(v, f, name)
  {
    if i: nat :| IsFirst(v, f, i, name) {
      assert IsFirst(u, g, i, name);
      NamedIs(v, f, i, name);
      NamedIs(u, g, i, name);
    } else {
      if j: nat :| IsFirst(u, g, j, name) {
        assert IsFirst(v, f, j, name);
      }
    }
  }

  // With a right cache every path leads where it leads on the disk.
  lemma ResolveThroughCache(v: Volume, f: Cursor, g: Cursor, path: seq<seq<byte>>)
    requires WellFormed(v, f) && Rewound(g) && Coherent(v, g) && Like(f, g)
    ensures Resolve(Seen(v, g), v, g, path) == Resolve(v, v, f, path)
  {
    hide Named, Seen, Coherent, Rewound;
    if path != [] {
      NamedThroughCache(v, f, g, FatName(path[0]));
    }
  }

  // A second path leads where it leads on the disk when the first one began with an entry among
  // the first fifteen of the root, or the sector of the next entry reads like the first sector.
  lemma SecondOpen(v: Volume, f: Cursor, g: Cursor, name: seq<byte>, i: nat, path: seq<seq<byte>>)
    requires Rewound(f) && Coherent(v, f) && Left(v, f, g, name) && IsFirst(v, f, i, name)
    requires i < ENTRIES_PER_SECTOR - 1
      || v.sector(f.firstCluster + (i + 1) / ENTRIES_PER_SECTOR) == v.sector(f.firstCluster)
    ensures Rewound(g) && Coherent(v, g)
    ensures Resolve(Seen(v, g), v, g, path) == Resolve(v, v, f, path)
  {
    hide Resolve, IsFirst, Left, Seen;
    LeftAt(v, f, g, name, i);
    RootReopened(v, f, g, ENTRY_SIZE * (i + 1));
    ResolveThroughCache(v, f, g, path);
  }

  lemma LeftAt(v: Volume, f: Cursor, g: Cursor, name: seq<byte>, i: nat)
    requires Rewound(f) && Coherent(v, f) && Left(v, f, g, name) && IsFirst(v, f, i, name)
    ensures LeftRoot(Seen(v, f), f, g, ENTRY_SIZE * (i + 1))
    ensures (ENTRY_SIZE * (i + 1)) / SECTOR_SIZE == (i + 1) / ENTRIES_PER_SECTOR
    ensures forall l :: Seen(v, f).sector(l) == v.sector(l)
  {
    var seen := Seen(v, f);
    forall k: nat
      ensures Holds(seen, f, k, name) == Holds(v, f, k, name)
    {
      SlotThroughCache(v, f, f, k);
    }
    assert IsFirst(seen, f, i, name);
    ScanEndFound(seen, f, i, name);
  }

  // After a first path whose first component is missing, the sector behind the root is in the
  // cache: a second path leads where it leads on the disk when that reads like the first sector.
  lemma SecondOpenAfterMiss(v: Volume, f: Cursor, g: Cursor, name: seq<byte>, path: seq<seq<byte>>)
    requires Rewound(f) && Coherent(v, f) && Left(v, f, g, name) && Named(v, f, name) == None
    ensures Rewound(g)
    ensures Coherent(v, g) <==> v.sector(f.firstCluster + f.size / SECTOR_SIZE) == v.sector(f.firstCluster)
    ensures Coherent(v, g) ==> Resolve(Seen(v, g), v, g, path) == Resolve(v, v, f, path)
  {
    hide Resolve, Left, Seen;
    LeftAfterMiss(v, f, g, name);
    RootReopened(v, f, g, f.size);
    if Coherent(v, g) {
      ResolveThroughCache(v, f, g, path);
    }
  }

  lemma LeftAfterMiss(v: Volume, f: Cursor, g: Cursor, name: seq<byte>)
    requires Rewound(f) && Coherent(v, f) && Left(v, f, g, name) && Named(v, f, name) == None
    ensures LeftRoot(Seen(v, f), f, g, f.size) && forall l :: Seen(v, f).sector(l) == v.sector(l)
  {
    var seen := Seen(v, f);
    NamedThroughCache(v, f, f, name);
    if i: nat :| IsFirst(seen, f, i, name) {
      NamedIs(seen, f, i, name);
      assert false;
    }
  }

  // ---------------------------------------------------------------- a second path that fails

  // A root directory of 32 entries in sectors 19 and 20: entry e has the name of eleven bytes
  // 128 + e, and is empty.
  function EntrySector(lba: nat): seq<byte> {
    seq(SECTOR_SIZE, k requires 0 <= k < SECTOR_SIZE =>
      if 19 <= lba <= 20 && k % ENTRY_SIZE < NAME_LENGTH
      then 128 + ENTRIES_PER_SECTOR * (lba - 19) + k / ENTRY_SIZE else 0)
  }

  function Disk(): Volume {
    Volume(1, 33, (_: nat) => 0, (lba: nat) => EntrySector(lba), (_: nat) => true)
  }

  function Root(): Cursor { Cursor(ROOT_DIRECTORY_HANDLE, true, 0, 1024, 19, 19, 0, EntrySector(19)) }

  function Eleven(e: nat): seq<byte>
    requires e < 32
  {
    seq(NAME_LENGTH, _ => 128 + e)
  }

  // The path of entry e.
  function Text(e: nat): seq<byte>
    requires e < 32
  {
    seq(12, k => if k == 8 then DOT else 128 + e)
  }

  lemma TextIsEleven(e: nat)
    requires e < 32
    ensures FatName(Text(e)) == Eleven(e)
  {
    var t := Text(e);
    UntilIs(t, DOT, 8);
    assert t[8] == DOT && DOT in t;
    assert forall i :: 0 <= i < NAME_LENGTH ==> FatName(t)[i] == Eleven(e)[i];
  }

  lemma RootIsCoherent()
    ensures Disk().Mounted() && Rewound(Root()) && Coherent(Disk(), Root())
  {
  }

  lemma SectorNames(lba: nat, j: nat)
    requires 19 <= lba <= 20 && j < ENTRIES_PER_SECTOR
    ensures EntrySector(lba)[ENTRY_SIZE * j..ENTRY_SIZE * j + ENTRY_SIZE][..NAME_LENGTH]
         == Eleven(ENTRIES_PER_SECTOR * (lba - 19) + j)
  {
    var names := EntrySector(lba)[ENTRY_SIZE * j..ENTRY_SIZE * j + ENTRY_SIZE][..NAME_LENGTH];
    forall m | 0 <= m < NAME_LENGTH
      ensures names[m] == 128 + ENTRIES_PER_SECTOR * (lba - 19) + j
    {
      InEntry(j, m);
    }
  }

  lemma InEntry(j: nat, m: nat)
    requires m < ENTRY_SIZE
    ensures (ENTRY_SIZE * j + m) % ENTRY_SIZE == m && (ENTRY_SIZE * j + m) / ENTRY_SIZE == j
  {
  }

  // The entries of the directory, with some sector in place of its first one.
  lemma EntriesOf(u: Volume, g: Cursor, first: nat, i: nat)
    requires WellFormed(u, g) && g.IsRoot() && g.size == 1024 && g.firstCluster == 19 && i < 32 && 19 <= first <= 20
    requires u.sector(19) == EntrySector(first) && u.sector(20) == EntrySector(20)
    ensures |Slot(u, g, i)| == ENTRY_SIZE
    ensures Slot(u, g, i)[..NAME_LENGTH]
         == Eleven(if i < ENTRIES_PER_SECTOR then ENTRIES_PER_SECTOR * (first - 19) + i else i)
  {
    hide EntrySector, Eleven, Slot;
    RootSlot(u, g, i);
    SectorNames(if i < ENTRIES_PER_SECTOR then first else 20, i % ENTRIES_PER_SECTOR);
  }

  lemma NoMoreEntries(u: Volume, g: Cursor, i: nat)
    requires WellFormed(u, g) && g.IsRoot() && g.size == 1024 && i >= 32
    ensures |Slot(u, g, i)| != ENTRY_SIZE
  {
    if |Slot(u, g, i)| == ENTRY_SIZE {
      SlotBelow(u, g, i, 1024);
    }
  }

  lemma ElevensDiffer(a: nat, b: nat)
    requires a < 32 && b < 32
    ensures Eleven(a) == Eleven(b) <==> a == b
  {
    if a != b { assert Eleven(a)[0] != Eleven(b)[0]; }
  }

  // Entry e is the first of its name on the disk.
  lemma EntryIsFirst(e: nat)
    requires e < 32
    ensures WellFormed(Disk(), Root()) && IsFirst(Disk(), Root(), e, Eleven(e))
  {
    RootIsCoherent();
    EntriesOf(Disk(), Root(), 19, e);
    forall k: nat | k < e
      ensures !Holds(Disk(), Root(), k, Eleven(e))
    {
      EntriesOf(Disk(), Root(), 19, k);
      ElevensDiffer(k, e);
    }
  }

  // With the second sector in the cache none of the first sixteen entries is there.
  lemma FirstEntriesHidden(u: Volume, g: Cursor, e: nat)
    requires WellFormed(u, g) && g.IsRoot() && g.size == 1024 && g.firstCluster == 19 && e < ENTRIES_PER_SECTOR
    requires u.sector(19) == EntrySector(20) && u.sector(20) == EntrySector(20)
    ensures Named(u, g, Eleven(e)) == None
  {
    forall k: nat
      ensures !Holds(u, g, k, Eleven(e))
    {
      if k < 32 {
        EntriesOf(u, g, 20, k);
        ElevensDiffer(if k < ENTRIES_PER_SECTOR then ENTRIES_PER_SECTOR + k else k, e);
      } else {
        NoMoreEntries(u, g, k);
      }
    }
    ScanEndMissing(u, g, Eleven(e));
  }

  // What opening the sixteenth entry leaves.
  lemma StaleCache(g: Cursor)
    requires WellFormed(Seen(Disk(), Root()), Root()) && Left(Disk(), Root(), g, Eleven(15))
    ensures Rewound(g) && !Coherent(Disk(), g) && g.IsRoot() && g.size == 1024 && g.firstCluster == 19
    ensures var seen := Seen(Disk(), g);
      WellFormed(seen, g) && seen.sector(19) == EntrySector(20) && seen.sector(20) == EntrySector(20)
  {
    RootIsCoherent();
    EntryIsFirst(15);
    LeftAt(Disk(), Root(), g, Eleven(15), 15);
    RootReopened(Disk(), Root(), g, 512);
    assert EntrySector(19)[0] != EntrySector(20)[0];
    SeenCoherent(Disk(), g);
  }

  // Opening the sixteenth entry, and then the first: the first is on the disk, and is not found.
  lemma SecondOpenFails(g: Cursor)
    requires WellFormed(Seen(Disk(), Root()), Root()) && Left(Disk(), Root(), g, FatName(Text(15)))
    ensures Rewound(g) && !Coherent(Disk(), g)
    ensures Resolve(Disk(), Disk(), Root(), [Text(0)]).Some?
    ensures Resolve(Seen(Disk(), g), Disk(), g, [Text(0)]) == None
  {
    hide Left, LeftRoot, Rewound, Text, Eleven, EntrySector, Seen, Named, Coherent, SectorLba;
    TextIsEleven(0);
    TextIsEleven(15);
    EntryIsFirst(0);
    NamedIs(Disk(), Root(), 0, Eleven(0));
    StaleCache(g);
    FirstEntriesHidden(Seen(Disk(), g), g, 0);
  }
}
