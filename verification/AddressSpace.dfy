// The kernel's address space as vmm.c changes it: directory and table entries written in
// place in physical memory, with tables taken from the frame allocator.
module AddressSpace {
  import opened Basics
  import opened PageTables
  import FrameAllocator
  import FramePool
  import KernelFrames

  class PageDirectory {
    const pmm: FrameAllocator.FrameManager
    var directory: nat   // the frame current_page_directory points at

    constructor (pmm: FrameAllocator.FrameManager, directory: nat)
      ensures this.pmm == pmm && this.directory == directory
    {
      this.pmm, this.directory := pmm, directory;
    }

    ghost function Used(): set<nat>
      reads pmm, pmm.bitmap
    {
      FramePool.Frames(pmm.View())
    }

    // At most 128 MiB of memory are managed, and frame 0 is never handed out.
    ghost predicate Valid()
      reads this, pmm, pmm.bitmap, pmm.ram
    {
      && pmm.Valid() && FramePool.Ready(pmm.View())
      && WellFormed(pmm.ram[..], directory, Used())
    }

    // The frame that is taken next lies where its own address reaches it.
    ghost predicate InReach()
      reads pmm, pmm.bitmap
    {
      WINDOW <= pmm.reach || KernelFrames.FreeBelow(Used(), pmm.reach) > 0
    }

    // Paging is on, and the kernel's pages translate as they should.
    ghost predicate Running()
      reads this, pmm, pmm.bitmap, pmm.ram
    {
      Valid() && pmm.reach == WINDOW && KernelMapped(pmm.ram[..], directory)
    }

    method WriteEntry(table: nat, i: nat, e: nat)
      requires Word(table, i) < pmm.ram.Length
      modifies pmm.ram
      ensures pmm.ram[..] == old(pmm.ram[..])[Word(table, i) := e]
    {
      pmm.ram[table * ENTRIES + i] := e;
    }

    // allocate_block(1): the lowest frame that was not in use, cleared, or 0. It lies in the window.
    method AllocateFrame() returns (frame: nat)
      requires Valid() && (FramePool.Guarded(pmm.View()) ==> InReach())
      modifies pmm`usedBlocks, pmm.bitmap, pmm.ram
      ensures Valid()
      ensures frame == 0 <==> old(pmm.usedBlocks >= pmm.totalBlock)
      ensures frame == 0 ==> Used() == old(Used()) && pmm.ram[..] == old(pmm.ram[..])
      ensures frame == 0 ==> pmm.usedBlocks == old(pmm.usedBlocks)
      ensures frame != 0 ==> frame < WINDOW && KernelFrames.LowestFree(old(Used()), frame)
      ensures frame != 0 ==> Used() == old(Used()) + {frame} && pmm.usedBlocks == old(pmm.usedBlocks) + 1
      ensures frame != 0 ==> FrameAllocator.Zeroed(old(pmm.ram[..]), pmm.ram[..], frame, 1)
    {
      ghost var p, r0 := pmm.View(), pmm.ram[..];
      if pmm.usedBlocks < pmm.totalBlock {
        FramePool.GuardMeansRun(p, 1);
      }
      var addr, f := pmm.AllocateBlock(1);
      frame := addr / PAGE_SIZE;
      if FramePool.Guarded(p) {
        FramePool.SingleFrameIsIdentityMapped(p, f);
        FramePool.AllocateFrames(p, f, 1);
        assert FramePool.Span(f, 1) == {f};
        KernelFrames.LowestIsFree(p, f);
        KernelFrames.FreeBelowTaken(FramePool.Frames(p), pmm.reach, f);
        FreshFrameCleared(r0, pmm.ram[..], directory, FramePool.Frames(p), f);
      }
    }

    // The part of map_page and map_page_user that makes a missing table: allocate_block has
    // cleared it, so the second clearing there changes nothing.
    method NewTable(i: nat, user: bool) returns (ok: bool)
      requires Valid() && i < ENTRIES && Target(pmm.ram[..], directory, i) == None
      requires FramePool.Guarded(pmm.View()) ==> InReach()
      modifies pmm`usedBlocks, pmm.bitmap, pmm.ram
      ensures Valid() && (ok ==> KernelFrames.OneTaken(old(Used()), Used()))
      ensures pmm.usedBlocks == old(pmm.usedBlocks) + (if ok then 1 else 0)
      ensures ok == old(FramePool.Guarded(pmm.View()))
      ensures !ok ==> Used() == old(Used()) && pmm.ram[..] == old(pmm.ram[..])
      ensures ok ==> TableMade(old(pmm.ram[..]), pmm.ram[..], directory, old(Used()), Used(), i, user)
      ensures ok ==> FreshTable(old(pmm.ram[..]), pmm.ram[..], directory, i, user)
    {
      ghost var r0, u0 := pmm.ram[..], Used();
      var table := AllocateFrame();
      if table == 0 {
        return false;
      }
      EnterTable(i, table, user, r0, u0);
      return true;
    }

    // The directory entry of a table just taken from memory r0 with u0 in use.
    method EnterTable(i: nat, table: nat, user: bool, ghost r0: seq<nat>, ghost u0: set<nat>)
      requires Valid() && i < ENTRIES && WellFormed(r0, directory, u0) && Target(r0, directory, i) == None
      requires 0 < table < WINDOW && table !in u0 && Used() == u0 + {table}
      requires FrameAllocator.Zeroed(r0, pmm.ram[..], table, 1)
      modifies pmm.ram
      ensures Valid() && TableMade(r0, pmm.ram[..], directory, u0, Used(), i, user)
      ensures FreshTable(r0, pmm.ram[..], directory, i, user)
    {
      hide WellFormed, TableMade, FreshTable, FrameAllocator.Zeroed, Target;
      DirectoryInRam(pmm.ram[..], directory, Used(), i);
      var e := TableEntry(pmm.ram[directory * ENTRIES + i], table, user);
      NewTableAdded(r0, pmm.ram[..], directory, u0, i, table, user);
      NewTableFresh(r0, pmm.ram[..], directory, u0, i, table, user);
      WriteEntry(directory, i, e);
    }

    // The last step of map_page and map_page_user: the entry in a table that is there.
    method MapLeaf(page: nat, frame: nat, user: bool)
      requires Valid() && page < PAGES && frame < 0x8_0000
      requires Target(pmm.ram[..], directory, page / ENTRIES).Some?
      modifies pmm.ram
      ensures Valid() && OnePage(old(pmm.ram[..]), pmm.ram[..], directory, Used(), Used(), page, Some(frame))
      ensures TablesOf(pmm.ram[..], directory) == old(TablesOf(pmm.ram[..], directory))
      ensures pmm.ram[Word(directory, page / ENTRIES)] == old(pmm.ram[Word(directory, page / ENTRIES)])
      ensures user && Has(old(pmm.ram[Word(directory, page / ENTRIES)]), User)
        ==> UserPage(pmm.ram[..], directory, page)
      ensures LeafStep(old(pmm.ram[..]), pmm.ram[..], directory, page, frame, user)
    {
      hide OnePage, LeafStep, Mapped;
      var table := FrameOf(pmm.ram[directory * ENTRIES + page / ENTRIES]);
      TableInWindow(pmm.ram[..], directory, Used(), page / ENTRIES, table);
      var j := page % ENTRIES;
      var e := pmm.ram[table * ENTRIES + j];
      EntryOfTable(pmm.ram[..], table, j);
      MappedFields(e, frame, user);
      LeafIsOnePage(pmm.ram[..], directory, Used(), page, table, Mapped(e, frame, user));
      WordsApart(table, j, directory, page / ENTRIES);
      WrittenIsStep(pmm.ram[..], directory, Used(), page, table, frame, user);
      WriteEntry(table, j, Mapped(e, frame, user));
    }

    // map_page. A page that was already mapped is mapped anew.
    method MapPage(physAddress: nat, virtAddress: nat) returns (ok: bool)
      requires Running() && IsFrameAddress(physAddress) && IsVirtual(virtAddress)
      modifies pmm`usedBlocks, pmm.bitmap, pmm.ram
      ensures Valid()
      ensures Running() <==> !ok || KeepsKernel(virtAddress / PAGE_SIZE, physAddress / PAGE_SIZE)
      ensures ok == old(TableAvailable(virtAddress / PAGE_SIZE))
      ensures ok ==> OnePage(old(pmm.ram[..]), pmm.ram[..], directory, old(Used()), Used(),
                             virtAddress / PAGE_SIZE, Some(physAddress / PAGE_SIZE))
      ensures ok ==> Written(old(pmm.ram[..]), pmm.ram[..], directory,
                             virtAddress / PAGE_SIZE, physAddress / PAGE_SIZE, false)
      ensures !ok ==> Used() == old(Used()) && pmm.ram[..] == old(pmm.ram[..])
    {
      var page := virtAddress / PAGE_SIZE;
      hide Written, TableStep, LeafStep, FreshTable, LeafWord;
      ghost var r0, u0 := pmm.ram[..], Used();
      ok := true;
      if !Has(pmm.ram[directory * ENTRIES + page / ENTRIES], Present) {
        ok := NewTable(page / ENTRIES, false);
        if ok { FreshIsStep(r0, pmm.ram[..], directory, page, false); }
      } else {
        SameIsTableMade(r0, directory, u0, page / ENTRIES, false);
        KeptIsStep(r0, directory, u0, page);
      }
      if ok {
        ghost var r1 := pmm.ram[..];
        MapLeaf(page, physAddress / PAGE_SIZE, false);
        StepsWritten(r0, r1, pmm.ram[..], directory, page, physAddress / PAGE_SIZE, false);
        OnePageCompose(r0, r1, pmm.ram[..], directory, u0, Used(), page, Some(physAddress / PAGE_SIZE));
        KernelMapKept(r0, pmm.ram[..], directory, u0, Used(), page, Some(physAddress / PAGE_SIZE));
      }
    }

    // The branch of map_page_user for a table that is there: ring 3 is let through.
    method OpenTable(i: nat)
      requires Valid() && i < ENTRIES && Target(pmm.ram[..], directory, i).Some?
      modifies pmm.ram
      ensures Valid() && TableMade(old(pmm.ram[..]), pmm.ram[..], directory, Used(), Used(), i, true)
      ensures var w := Word(directory, i);
        pmm.ram[..] == old(pmm.ram[..])[w := SetAttribute(old(pmm.ram[..])[w], User)]
    {
      hide WellFormed, TableMade, SetAttribute;
      DirectoryInRam(pmm.ram[..], directory, Used(), i);
      var e := pmm.ram[directory * ENTRIES + i];
      TableOpened(pmm.ram[..], directory, Used(), i, SetAttribute(e, User));
      WriteEntry(directory, i, SetAttribute(e, User));
    }

    // map_page_user.
    method MapPageUser(physAddress: nat, virtAddress: nat) returns (ok: bool)
      requires Running() && IsFrameAddress(physAddress) && IsVirtual(virtAddress)
      modifies pmm`usedBlocks, pmm.bitmap, pmm.ram
      ensures Valid()
      ensures Running() <==> !ok || KeepsKernel(virtAddress / PAGE_SIZE, physAddress / PAGE_SIZE)
      ensures ok == old(TableAvailable(virtAddress / PAGE_SIZE))
      ensures ok ==>
        TablesOf(pmm.ram[..], directory) == old(TablesOf(pmm.ram[..], directory)) + {virtAddress / PAGE_SIZE / ENTRIES}
      ensures pmm.usedBlocks == old(pmm.usedBlocks)
        + (if ok && virtAddress / PAGE_SIZE / ENTRIES !in old(TablesOf(pmm.ram[..], directory)) then 1 else 0)
      ensures ok ==> OnePage(old(pmm.ram[..]), pmm.ram[..], directory, old(Used()), Used(),
                             virtAddress / PAGE_SIZE, Some(physAddress / PAGE_SIZE))
      ensures ok ==> Written(old(pmm.ram[..]), pmm.ram[..], directory,
                             virtAddress / PAGE_SIZE, physAddress / PAGE_SIZE, true)
      ensures ok ==> UserPage(pmm.ram[..], directory, virtAddress / PAGE_SIZE)
      ensures if ok && virtAddress / PAGE_SIZE / ENTRIES !in old(TablesOf(pmm.ram[..], directory))
        then KernelFrames.OneTaken(old(Used()), Used()) else Used() == old(Used())
      ensures !ok ==> pmm.ram[..] == old(pmm.ram[..])
    {
      var page := virtAddress / PAGE_SIZE;
      hide Written, TableStep, LeafStep, FreshTable, LeafWord;
      ghost var r0, u0 := pmm.ram[..], Used();
      ok := true;
      if !Has(pmm.ram[directory * ENTRIES + page / ENTRIES], Present) {
        ok := NewTable(page / ENTRIES, true);
        if ok { FreshIsStep(r0, pmm.ram[..], directory, page, true); }
      } else {
        OpenTable(page / ENTRIES);
        OpenedIsStep(r0, directory, u0, page, SetAttribute(r0[Word(directory, page / ENTRIES)], User));
      }
      if ok {
        ghost var r1 := pmm.ram[..];
        MapLeaf(page, physAddress / PAGE_SIZE, true);
        StepsWritten(r0, r1, pmm.ram[..], directory, page, physAddress / PAGE_SIZE, true);
        OnePageCompose(r0, r1, pmm.ram[..], directory, u0, Used(), page, Some(physAddress / PAGE_SIZE));
        KernelMapKept(r0, pmm.ram[..], directory, u0, Used(), page, Some(physAddress / PAGE_SIZE));
      }
    }

    // The word that get_page points at, whether the page has a table or not.
    ghost function EntryWord(page: nat): nat
      requires Valid() && page < PAGES
      reads this, pmm, pmm.bitmap, pmm.ram
    {
      Word(FrameOf(pmm.ram[Word(directory, page / ENTRIES)]), page % ENTRIES)
    }

    // The frame is in the window, and its own address leads to it.
    ghost predicate Reached(frame: nat)
      requires Valid()
      reads this, pmm, pmm.bitmap, pmm.ram
    {
      frame < WINDOW && Walk(pmm.ram[..], directory, frame) == Some(frame)
    }

    // unmap_page. It takes the table for granted: without one, the word is in the frame that the
    // absent directory entry names, frame 0 for an empty one.
    method UnmapPage(virtAddress: nat)
      requires Valid() && IsVirtual(virtAddress)
      requires Reached(directory) && Reached(EntryWord(virtAddress / PAGE_SIZE) / ENTRIES)
      modifies pmm.ram
      ensures var w := old(EntryWord(virtAddress / PAGE_SIZE));
        pmm.ram[..] == old(pmm.ram[..])[w := Unmapped(old(pmm.ram[..])[w])]
      ensures old(Target(pmm.ram[..], directory, virtAddress / PAGE_SIZE / ENTRIES).Some?) ==>
        Valid() && OnePage(old(pmm.ram[..]), pmm.ram[..], directory, Used(), Used(), virtAddress / PAGE_SIZE, None)
      ensures old(!HoldsTable(pmm.ram[..], directory, EntryWord(virtAddress / PAGE_SIZE) / ENTRIES)) ==>
        Valid() && SameWalk(old(pmm.ram[..]), pmm.ram[..], directory)
    {
      hide IsTable, EntriesOk, OnePage, SameWalk, HoldsTable, Target, Unmapped, Walk;
      var page := virtAddress / PAGE_SIZE;
      DirectoryInRam(pmm.ram[..], directory, Used(), page / ENTRIES);
      var table := FrameOf(pmm.ram[directory * ENTRIES + page / ENTRIES]);
      var j := page % ENTRIES;
      var e := pmm.ram[table * ENTRIES + j];
      EntryUnmapped(pmm.ram[..], directory, Used(), page, table, Unmapped(e));
      WriteEntry(table, j, Unmapped(e));
    }

    // Mapping can succeed: the page's table is there or there is a frame for it.
    ghost predicate TableAvailable(page: nat)
      requires Valid() && page < PAGES
      reads this, pmm, pmm.bitmap, pmm.ram
    {
      Target(pmm.ram[..], directory, page / ENTRIES).Some? || FramePool.Guarded(pmm.View())
    }
  }

  // Mapping the page to the frame leaves the kernel's pages as they are.
  predicate KeepsKernel(page: nat, frame: nat) { KernelMap(page).None? || KernelMap(page) == Some(frame) }

  // A page-aligned physical address below 2 GiB, all that SET_FRAME has room for.
  predicate IsFrameAddress(a: nat) { a % PAGE_SIZE == 0 && a < 0x8000_0000 }

  predicate IsVirtual(a: nat) { a < U32 }

  lemma DirectoryInRam(ram: seq<nat>, pd: nat, used: set<nat>, i: nat)
    requires WellFormed(ram, pd, used) && i < ENTRIES
    ensures Word(pd, i) < WINDOW * ENTRIES <= |ram|
  {
  }

  lemma SameIsTableMade(ram: seq<nat>, pd: nat, used: set<nat>, i: nat, user: bool)
    requires WellFormed(ram, pd, used) && i < ENTRIES && Target(ram, pd, i).Some?
    requires user ==> Has(ram[Word(pd, i)], User)
    ensures TableMade(ram, ram, pd, used, used, i, user)
  {
  }

  lemma LeafUnmapped(ram: seq<nat>, pd: nat, used: set<nat>, page: nat, t: nat)
    requires WellFormed(ram, pd, used) && page < PAGES && Target(ram, pd, page / ENTRIES) == Some(t)
    ensures var w := Word(t, page % ENTRIES);
      && w < |ram| && HoldsTable(ram, pd, w / ENTRIES)
      && OnePage(ram, ram[w := Unmapped(ram[w])], pd, used, used, page, None)
  {
    TableInWindow(ram, pd, used, page / ENTRIES, t);
    EntryOfTable(ram, t, page % ENTRIES);
    UnmappedFields(ram[Word(t, page % ENTRIES)]);
    LeafIsOnePage(ram, pd, used, page, t, Unmapped(ram[Word(t, page % ENTRIES)]));
    assert Word(t, page % ENTRIES) / ENTRIES == t;
  }

  // A write into a frame that holds no table leaves every translation alone.
  lemma StrayWrite(ram: seq<nat>, pd: nat, used: set<nat>, t: nat, j: nat, e: nat)
    requires WellFormed(ram, pd, used) && j < ENTRIES && Word(t, j) < |ram|
    ensures !HoldsTable(ram, pd, Word(t, j) / ENTRIES) ==>
      var r := ram[Word(t, j) := e]; WellFormed(r, pd, used) && SameWalk(ram, r, pd)
  {
    assert Word(t, j) / ENTRIES == t;
    if !HoldsTable(ram, pd, t) {
      forall f, k | 0 <= f < WINDOW && f != t && 0 <= k < ENTRIES
        ensures Word(f, k) != Word(t, j)
      {
        WordsApart(f, k, t, j);
      }
      TablesUntouched(ram, ram[Word(t, j) := e], pd, used, used);
    }
  }

  // unmap_page's write: the page's own entry, or a word elsewhere when the page has no table.
  lemma EntryUnmapped(ram: seq<nat>, pd: nat, used: set<nat>, page: nat, t: nat, e: nat)
    requires WellFormed(ram, pd, used) && page < PAGES && t == FrameOf(ram[Word(pd, page / ENTRIES)])
    requires Word(t, page % ENTRIES) < |ram| && e == Unmapped(ram[Word(t, page % ENTRIES)])
    ensures var w := Word(t, page % ENTRIES);
      var r := ram[w := e];
      && (Target(ram, pd, page / ENTRIES).Some? ==>
            WellFormed(r, pd, used) && OnePage(ram, r, pd, used, used, page, None))
      && (!HoldsTable(ram, pd, w / ENTRIES) ==> WellFormed(r, pd, used) && SameWalk(ram, r, pd))
  {
    StrayWrite(ram, pd, used, t, page % ENTRIES, e);
    if Target(ram, pd, page / ENTRIES).Some? {
      LeafUnmapped(ram, pd, used, page, t);
    }
  }

  // Letting ring 3 through keeps the table and the other flags.
  lemma TableOpened(ram: seq<nat>, pd: nat, used: set<nat>, i: nat, e: nat)
    requires WellFormed(ram, pd, used) && i < ENTRIES && Target(ram, pd, i).Some?
    requires e == SetAttribute(ram[Word(pd, i)], User)
    ensures var r := ram[Word(pd, i) := e]; WellFormed(r, pd, used) && TableMade(ram, r, pd, used, used, i, true)
  {
    var was := ram[Word(pd, i)];
    EntryOfTable(ram, pd, i);
    SetFields(was, User, Present);
    SetFields(was, User, ReadWrite);
    SetFields(was, User, User);
    DirectoryFlags(ram, pd, used, i, e);
    TableWrite(ram, pd, used, pd, i, e);
    assert i in TablesOf(ram, pd);
  }

  lemma TableInWindow(ram: seq<nat>, pd: nat, used: set<nat>, i: nat, t: nat)
    requires WellFormed(ram, pd, used) && i < ENTRIES && Target(ram, pd, i) == Some(t)
    ensures t < WINDOW && t != pd && t in used && EntriesOk(ram, t)
  {
  }

  lemma EntryOfTable(ram: seq<nat>, t: nat, j: nat)
    requires t < WINDOW && WINDOW * ENTRIES <= |ram| && EntriesOk(ram, t) && j < ENTRIES
    ensures Word(t, j) < |ram| && IsEntry(ram[Word(t, j)])
  {
  }

  // A cleared fresh frame entered into the directory.
  lemma NewTableAdded(r0: seq<nat>, r1: seq<nat>, pd: nat, used: set<nat>, i: nat, t: nat, user: bool)
    requires WellFormed(r0, pd, used) && i < ENTRIES && Target(r0, pd, i) == None
    requires 0 < t < WINDOW && t !in used && FrameAllocator.Zeroed(r0, r1, t, 1)
    ensures var r2 := r1[Word(pd, i) := TableEntry(r1[Word(pd, i)], t, user)];
      WellFormed(r2, pd, used + {t}) && TableMade(r0, r2, pd, used, used + {t}, i, user)
  {
    FreshFrameCleared(r0, r1, pd, used, t);
    assert SameFrame(r0, r1, pd) by {
      assert pd != t;
    }
    var e := r1[Word(pd, i)];
    EntryOfTable(r1, pd, i);
    TableEntryFields(e, t, user);
    assert ZeroFrame(r1, t);
    TableAdded(r1, pd, used, i, t, TableEntry(e, t, user));
    var r2 := r1[Word(pd, i) := TableEntry(e, t, user)];
    forall a | 0 <= a < |r0| && !HoldsTable(r2, pd, a / ENTRIES)
      ensures r2[a] == r0[a]
    {
      assert a / ENTRIES != pd && a / ENTRIES != t;
    }
  }

  lemma NewTableFresh(r0: seq<nat>, r1: seq<nat>, pd: nat, used: set<nat>, i: nat, t: nat, user: bool)
    requires WellFormed(r0, pd, used) && i < ENTRIES && Target(r0, pd, i) == None
    requires 0 < t < WINDOW && t !in used && FrameAllocator.Zeroed(r0, r1, t, 1)
    ensures FreshTable(r0, r1[Word(pd, i) := TableEntry(r1[Word(pd, i)], t, user)], pd, i, user)
  {
    var e := r1[Word(pd, i)];
    assert e == r0[Word(pd, i)] by {
      assert pd != t;
    }
    TableEntryFields(e, t, user);
    forall k | 0 <= k < ENTRIES
      ensures r1[Word(pd, i) := TableEntry(e, t, user)][Word(t, k)] == 0
    {
      WordsApart(pd, i, t, k);
    }
  }

  // Clearing a frame that was not in use leaves the tables alone.
  lemma FreshFrameCleared(ram: seq<nat>, ram': seq<nat>, pd: nat, used: set<nat>, f: nat)
    requires WellFormed(ram, pd, used) && f !in used && FrameAllocator.Zeroed(ram, ram', f, 1)
    ensures WellFormed(ram', pd, used + {f}) && WellFormed(ram', pd, used) && SameWalk(ram, ram', pd)
    ensures forall g: nat :: HoldsTable(ram', pd, g) == HoldsTable(ram, pd, g)
  {
    forall g | 0 <= g < WINDOW && HoldsTable(ram, pd, g)
      ensures SameFrame(ram, ram', g)
    {
      assert g in used;
    }
    TablesUntouched(ram, ram', pd, used, used + {f});
    TablesUntouched(ram, ram', pd, used, used);
  }
}
