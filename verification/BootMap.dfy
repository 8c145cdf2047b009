// INITIALIZE_VMEMORY and the unmapping loop of stage 2: which address translates to what once
// paging is on.
module BootMap {
  import opened Basics
  import opened PageTables
  import opened AddressSpace
  import FrameAllocator
  import FramePool
  import FrameRuns
  import KernelFrames

  // What stage 2 leaves of it: the identity map ends at the kernel's load address.
  function BootloaderMap(page: nat): Option<nat> {
    if KERNEL_FRAME <= page < WINDOW then None else KernelMap(page)
  }

  // The maps in byte addresses: the kernel finds the first 4 MiB where they are and the 4 MiB from
  // 1 MiB on at 3 GiB, and nothing else; stage 2 leaves the first 1 MiB and the latter.
  lemma MapsInBytes(a: nat)
    requires a < 0x1_0000_0000
    ensures KernelMap(a / 4096)
         == if a < 0x40_0000 then Some(a / 4096)
            else if 0xC000_0000 <= a < 0xC040_0000 then Some((a - 0xC000_0000 + 0x10_0000) / 4096)
            else None
    ensures BootloaderMap(a / 4096)
         == if a < 0x10_0000 then Some(a / 4096)
            else if 0xC000_0000 <= a < 0xC040_0000 then Some((a - 0xC000_0000 + 0x10_0000) / 4096)
            else None
  {
    assert (a - 0xC000_0000 + 0x10_0000) / 4096 == a / 4096 - 0xC_0000 + 0x100;
  }

  // A table that maps its pages to consecutive frames.
  ghost predicate Linear(ram: seq<nat>, t: nat, frame: nat)
    requires Word(t, ENTRIES) <= |ram|
  {
    EntriesOk(ram, t) && forall k :: 0 <= k < ENTRIES ==> Target(ram, t, k) == Some(frame + k)
  }

  // The filling loop of setup_higher_half_kernel and setup_page_table.
  method FillTable(d: PageDirectory, t: nat, first: nat)
    requires t < WINDOW && WINDOW * ENTRIES <= d.pmm.ram.Length && first + ENTRIES < 0x8_0000
    modifies d.pmm.ram
    ensures Linear(d.pmm.ram[..], t, first)
    ensures forall k :: 0 <= k < 1024 ==> d.pmm.ram[Word(t, k)] == (first + k) * 4096 + 3
    ensures forall a :: 0 <= a < d.pmm.ram.Length && !(Word(t, 0) <= a < Word(t, ENTRIES)) ==>
      d.pmm.ram[a] == old(d.pmm.ram[a])
  {
    ghost var ram := d.pmm.ram;
    for i := 0 to ENTRIES
      invariant forall k :: 0 <= k < i ==> ram[Word(t, k)] == TableEntry(0, first + k, false)
      invariant forall a :: 0 <= a < ram.Length && !(Word(t, 0) <= a < Word(t, ENTRIES)) ==> ram[a] == old(ram[a])
    {
      d.pmm.ram[t * ENTRIES + i] := TableEntry(0, first + i, false);
    }
    forall k | 0 <= k < ENTRIES
      ensures IsEntry(ram[Word(t, k)]) && Target(ram[..], t, k) == Some(first + k)
      ensures ram[Word(t, k)] == (first + k) * 4096 + 3
    {
      TableEntryFields(0, first + k, false);
      TableEntryWord(0, first + k);
    }
  }

  // The pages of one directory slot translate to consecutive frames, the others as before.
  ghost predicate SlotMapped(r0: seq<nat>, r1: seq<nat>, pd: nat, slot: nat, first: nat)
    requires pd < WINDOW && WINDOW * ENTRIES <= |r0| && |r1| == |r0|
  {
    && (forall q :: 0 <= q < PAGES ==>
          Walk(r1, pd, q) == if q / ENTRIES == slot then Some(first + q % ENTRIES) else Walk(r0, pd, q))
    && (forall k :: 0 <= k < ENTRIES && k != slot ==> Target(r1, pd, k) == Target(r0, pd, k))
  }

  // From memory r0 with u0 in use: the frames taken since are those that hold the directory and its
  // tables, these are in the slots named, and the rest of memory is as it was.
  ghost predicate TablesBuilt(r0: seq<nat>, r1: seq<nat>, pd: nat, u0: set<nat>, u1: set<nat>, slots: set<nat>)
    requires pd < WINDOW && WINDOW * ENTRIES <= |r0| && |r1| == |r0|
  {
    && u0 <= u1 && TablesOf(r1, pd) == slots
    && (forall f: nat :: HoldsTable(r1, pd, f) <==> f in u1 && f !in u0)
    && (forall a :: 0 <= a < |r0| && !HoldsTable(r1, pd, a / ENTRIES) ==> r1[a] == r0[a])
  }

  // One more table: frame t, in a slot that had none.
  ghost predicate TableEntered(r0: seq<nat>, r1: seq<nat>, pd: nat, slot: nat, t: nat)
    requires pd < WINDOW && WINDOW * ENTRIES <= |r0| && |r1| == |r0|
  {
    && TablesOf(r1, pd) == TablesOf(r0, pd) + {slot}
    && (forall f: nat :: HoldsTable(r1, pd, f) <==> f == t || HoldsTable(r0, pd, f))
    && (forall a :: 0 <= a < |r0| && a / ENTRIES != t && a / ENTRIES != pd ==> r1[a] == r0[a])
  }

  lemma OneMoreBuilt(r0: seq<nat>, r1: seq<nat>, r2: seq<nat>, pd: nat, u0: set<nat>, u1: set<nat>, u2: set<nat>,
                     slots: set<nat>, slot: nat, t: nat)
    requires pd < WINDOW && WINDOW * ENTRIES <= |r0| && |r2| == |r1| == |r0|
    requires TablesBuilt(r0, r1, pd, u0, u1, slots) && TableEntered(r1, r2, pd, slot, t)
    requires t !in u1 && u2 == u1 + {t}
    ensures TablesBuilt(r0, r2, pd, u0, u2, slots + {slot})
  {
    assert HoldsTable(r2, pd, pd);
  }

  // Allocating and filling a table; nothing points at it yet.
  method FilledTable(d: PageDirectory, first: nat) returns (t: nat)
    requires d.Valid() && FramePool.Guarded(d.pmm.View()) && d.InReach() && first + ENTRIES < 0x8_0000
    modifies d.pmm`usedBlocks, d.pmm.bitmap, d.pmm.ram
    ensures d.Valid() && d.pmm.usedBlocks == old(d.pmm.usedBlocks) + 1
    ensures KernelFrames.LowestFree(old(d.Used()), t) && d.Used() == old(d.Used()) + {t}
    ensures forall a :: 0 <= a < d.pmm.ram.Length && a / ENTRIES != t ==> d.pmm.ram[a] == old(d.pmm.ram[a])
    ensures 0 < t < WINDOW && !HoldsTable(d.pmm.ram[..], d.directory, t)
    ensures Linear(d.pmm.ram[..], t, first) && SameWalk(old(d.pmm.ram[..]), d.pmm.ram[..], d.directory)
    ensures forall k :: 0 <= k < ENTRIES ==>
      Target(d.pmm.ram[..], d.directory, k) == Target(old(d.pmm.ram[..]), d.directory, k)
  {
    ghost var r0, u0 := d.pmm.ram[..], d.Used();
    t := d.AllocateFrame();
    ghost var r1 := d.pmm.ram[..];
    FillTable(d, t, first);
    FilledApart(r0, r1, d.pmm.ram[..], d.directory, u0, t);
  }

  // setup_higher_half_kernel and setup_page_table: a table is allocated, filled and entered
  // into the directory.
  method SetupTable(d: PageDirectory, slot: nat, first: nat) returns (ghost t: nat)
    requires d.Valid() && slot < ENTRIES && Target(d.pmm.ram[..], d.directory, slot) == None
    requires FramePool.Guarded(d.pmm.View()) && d.InReach() && first + ENTRIES < 0x8_0000
    modifies d.pmm`usedBlocks, d.pmm.bitmap, d.pmm.ram
    ensures d.Valid() && d.pmm.usedBlocks == old(d.pmm.usedBlocks) + 1
    ensures KernelFrames.LowestFree(old(d.Used()), t) && d.Used() == old(d.Used()) + {t}
    ensures SlotMapped(old(d.pmm.ram[..]), d.pmm.ram[..], d.directory, slot, first)
    ensures TableEntered(old(d.pmm.ram[..]), d.pmm.ram[..], d.directory, slot, t)
  {
    ghost var r0 := d.pmm.ram[..];
    var table := FilledTable(d, first);
    ghost var r1 := d.pmm.ram[..];
    var e := TableEntry(d.pmm.ram[d.directory * ENTRIES + slot], table, false);
    SlotAttached(r0, r1, d.directory, d.Used(), slot, table, first);
    d.WriteEntry(d.directory, slot, e);
    t := table;
  }

  lemma SlotAttached(r0: seq<nat>, r1: seq<nat>, pd: nat, used: set<nat>, slot: nat, t: nat, first: nat)
    requires WellFormed(r1, pd, used) && |r0| == |r1| && SameWalk(r0, r1, pd) && slot < ENTRIES
    requires Target(r0, pd, slot) == None
    requires forall k :: 0 <= k < ENTRIES ==> Target(r1, pd, k) == Target(r0, pd, k)
    requires t < WINDOW && t in used && !HoldsTable(r1, pd, t) && Linear(r1, t, first)
    requires forall a :: 0 <= a < |r0| && a / ENTRIES != t ==> r1[a] == r0[a]
    ensures var r2 := r1[Word(pd, slot) := TableEntry(r1[Word(pd, slot)], t, false)];
      && WellFormed(r2, pd, used) && SlotMapped(r0, r2, pd, slot, first) && TableEntered(r0, r2, pd, slot, t)
  {
    EntryOfTable(r1, pd, slot);
    var e := TableEntry(r1[Word(pd, slot)], t, false);
    TableEntryFields(r1[Word(pd, slot)], t, false);
    TableAttached(r1, pd, used, slot, t, e);
    forall q | 0 <= q < PAGES
      ensures Walk(r1[Word(pd, slot) := e], pd, q)
           == if q / ENTRIES == slot then Some(first + q % ENTRIES) else Walk(r0, pd, q)
    {
      assert Walk(r1, pd, q) == Walk(r0, pd, q);
    }
    SlotHolds(r0, r1[Word(pd, slot) := e], pd, slot, t);
  }

  // The directory points where it did, and in one slot at t.
  lemma SlotHolds(r0: seq<nat>, r1: seq<nat>, pd: nat, slot: nat, t: nat)
    requires pd < WINDOW && WINDOW * ENTRIES <= |r0| && |r1| == |r0| && slot < ENTRIES
    requires Target(r0, pd, slot) == None && Target(r1, pd, slot) == Some(t)
    requires forall k :: 0 <= k < ENTRIES && k != slot ==> Target(r1, pd, k) == Target(r0, pd, k)
    requires forall a :: 0 <= a < |r0| && a / ENTRIES != t && a != Word(pd, slot) ==> r1[a] == r0[a]
    ensures TableEntered(r0, r1, pd, slot, t)
  {
    assert Word(pd, slot) / ENTRIES == pd;
    forall f: nat
      ensures HoldsTable(r1, pd, f) <==> f == t || HoldsTable(r0, pd, f)
    {
      if k :| 0 <= k < ENTRIES && Target(r0, pd, k) == Some(f) {
        assert Target(r1, pd, k) == Some(f);
      }
    }
  }

  lemma FilledApart(r0: seq<nat>, r1: seq<nat>, r2: seq<nat>, pd: nat, used: set<nat>, t: nat)
    requires WellFormed(r0, pd, used) && t < WINDOW && t !in used && FrameAllocator.Zeroed(r0, r1, t, 1)
    requires |r2| == |r1| && forall a :: 0 <= a < |r1| && !(Word(t, 0) <= a < Word(t, ENTRIES)) ==> r2[a] == r1[a]
    ensures WellFormed(r2, pd, used + {t}) && SameWalk(r0, r2, pd) && !HoldsTable(r2, pd, t)
    ensures forall k :: 0 <= k < ENTRIES ==> Target(r2, pd, k) == Target(r0, pd, k)
  {
    forall g | 0 <= g < WINDOW && HoldsTable(r0, pd, g)
      ensures SameFrame(r0, r2, g)
    {
      assert g in used;
    }
    TablesUntouched(r0, r2, pd, used, used + {t});
    assert HoldsTable(r0, pd, pd) && SameFrame(r0, r2, pd);
    assert HoldsTable(r0, pd, t) ==> t in used;
  }

  // A frame for the directory, before there are any tables.
  method FirstFrame(d: PageDirectory) returns (f: nat)
    requires d.pmm.Valid() && FramePool.Ready(d.pmm.View()) && FramePool.Guarded(d.pmm.View()) && d.InReach()
    modifies d.pmm`usedBlocks, d.pmm.bitmap, d.pmm.ram
    ensures d.pmm.Valid() && FramePool.Ready(d.pmm.View()) && d.pmm.usedBlocks == old(d.pmm.usedBlocks) + 1
    ensures KernelFrames.LowestFree(old(d.Used()), f) && d.Used() == old(d.Used()) + {f}
    ensures f < WINDOW && FrameAllocator.Zeroed(old(d.pmm.ram[..]), d.pmm.ram[..], f, 1)
  {
    ghost var p := d.pmm.View();
    FramePool.GuardMeansRun(p, 1);
    var addr, frame := d.pmm.AllocateBlock(1);
    FramePool.SingleFrameIsIdentityMapped(p, frame);
    FramePool.AllocateFrames(p, frame, 1);
    assert FramePool.Span(frame, 1) == {frame};
    KernelFrames.LowestIsFree(p, frame);
    KernelFrames.FreeBelowTaken(FramePool.Frames(p), d.pmm.reach, frame);
    f := addr / PAGE_SIZE;
  }

  // setup_page_directory_table: a cleared frame becomes the directory.
  method SetupDirectory(d: PageDirectory)
    requires d.pmm.Valid() && FramePool.Ready(d.pmm.View()) && FramePool.Guarded(d.pmm.View()) && d.InReach()
    requires WINDOW * ENTRIES <= d.pmm.ram.Length
    modifies d`directory, d.pmm`usedBlocks, d.pmm.bitmap, d.pmm.ram
    ensures d.Valid() && d.pmm.usedBlocks == old(d.pmm.usedBlocks) + 1
    ensures KernelFrames.LowestFree(old(d.Used()), d.directory) && d.Used() == old(d.Used()) + {d.directory}
    ensures forall q :: 0 <= q < PAGES ==> Walk(d.pmm.ram[..], d.directory, q) == None
    ensures forall k :: 0 <= k < ENTRIES ==> Target(d.pmm.ram[..], d.directory, k) == None
    ensures TablesBuilt(old(d.pmm.ram[..]), d.pmm.ram[..], d.directory, old(d.Used()), d.Used(), {})
  {
    hide Walk, Target, WellFormed, TablesBuilt;
    ghost var r0, u0 := d.pmm.ram[..], d.Used();
    var f := FirstFrame(d);
    d.directory := f;
    assert ZeroFrame(d.pmm.ram[..], f);
    EmptyDirectory(d.pmm.ram[..], f, d.Used());
    OnlyDirectory(r0, d.pmm.ram[..], f, u0);
  }

  lemma OnlyDirectory(r0: seq<nat>, r1: seq<nat>, pd: nat, u0: set<nat>)
    requires pd < WINDOW && WINDOW * ENTRIES <= |r0| && pd !in u0 && FrameAllocator.Zeroed(r0, r1, pd, 1)
    requires forall k :: 0 <= k < ENTRIES ==> Target(r1, pd, k) == None
    ensures TablesBuilt(r0, r1, pd, u0, u0 + {pd}, {})
  {
    hide Target;
    assert HoldsTable(r1, pd, pd);
    forall a | 0 <= a < |r0| && a / ENTRIES != pd
      ensures r1[a] == r0[a]
    {
    }
  }

  lemma StillInReach(d: PageDirectory, u0: set<nat>, n: nat)
    requires d.pmm.reach < WINDOW ==> KernelFrames.FreeBelow(u0, d.pmm.reach) > n
    requires KernelFrames.OneTaken(u0, d.Used())
    ensures d.pmm.reach < WINDOW ==> KernelFrames.FreeBelow(d.Used(), d.pmm.reach) >= n
  {
    KernelFrames.OneTakenBelow(u0, d.Used(), d.pmm.reach);
  }

  // The directory and the tables lie below the kernel.
  ghost predicate TablesBelowKernel(ram: seq<nat>, pd: nat)
    requires pd < WINDOW && WINDOW * ENTRIES <= |ram|
  {
    forall f: nat :: HoldsTable(ram, pd, f) ==> f < KERNEL_FRAME
  }

  // What the set-up makes of memory r0 with u0 in use: three frames more, for the directory and
  // the tables of the two slots.
  ghost predicate Built(r0: seq<nat>, r1: seq<nat>, pd: nat, u0: set<nat>, u1: set<nat>)
    requires pd < WINDOW && WINDOW * ENTRIES <= |r0| && |r1| == |r0|
  {
    KernelFrames.FramesTaken(u0, u1, 3) && TablesBuilt(r0, r1, pd, u0, u1, {0, KERNEL_SLOT})
  }

  // They lie below the kernel exactly when three frames were free there.
  lemma BuiltBelowKernel(r0: seq<nat>, r1: seq<nat>, pd: nat, u0: set<nat>, u1: set<nat>)
    requires pd < WINDOW && WINDOW * ENTRIES <= |r0| && |r1| == |r0| && Built(r0, r1, pd, u0, u1)
    ensures TablesBelowKernel(r1, pd) <==> KernelFrames.FreeBelow(u0, KERNEL_FRAME) >= 3
  {
    hide KernelFrames.FreeBelow, KernelFrames.FramesTaken, HoldsTable, TablesOf;
    KernelFrames.TakenBelow(u0, u1, 3, KERNEL_FRAME);
    assert forall f :: f in u1 && f !in u0 ==> HoldsTable(r1, pd, f);
  }

  // INITIALIZE_VMEMORY, when its three allocations succeed: the address map is exactly
  // KernelMap, and the window is what addresses reach from then on. The three frames are cleared
  // through the map that is active before.
  method InitializeVMemory(d: PageDirectory)
    requires d.pmm.Valid() && FramePool.Ready(d.pmm.View()) && d.pmm.usedBlocks + 3 <= d.pmm.totalBlock
    requires d.pmm.reach < WINDOW ==> KernelFrames.FreeBelow(d.Used(), d.pmm.reach) >= 3
    requires WINDOW * ENTRIES <= d.pmm.ram.Length
    modifies d`directory, d.pmm`reach, d.pmm`usedBlocks, d.pmm.bitmap, d.pmm.ram
    ensures d.Running() && d.pmm.usedBlocks == old(d.pmm.usedBlocks) + 3
    ensures forall q :: 0 <= q < PAGES ==> Walk(d.pmm.ram[..], d.directory, q) == KernelMap(q)
    ensures Target(d.pmm.ram[..], d.directory, 0).Some?
    ensures Built(old(d.pmm.ram[..]), d.pmm.ram[..], d.directory, old(d.Used()), d.Used())
    ensures TablesBelowKernel(d.pmm.ram[..], d.directory)
       <==> old(KernelFrames.FreeBelow(d.Used(), KERNEL_FRAME)) >= 3
  {
    hide IsTable, EntriesOk, Walk, Target, Built, TablesBelowKernel, KernelFrames.FreeBelow, FramePool.Inv;
    MapKernel(d);
    d.pmm.reach := WINDOW;
  }

  // The three set-up functions in turn.
  method MapKernel(d: PageDirectory)
    requires d.pmm.Valid() && FramePool.Ready(d.pmm.View()) && d.pmm.usedBlocks + 3 <= d.pmm.totalBlock
    requires d.pmm.reach < WINDOW ==> KernelFrames.FreeBelow(d.Used(), d.pmm.reach) >= 3
    requires WINDOW * ENTRIES <= d.pmm.ram.Length
    modifies d`directory, d.pmm`usedBlocks, d.pmm.bitmap, d.pmm.ram
    ensures d.Valid() && d.pmm.usedBlocks == old(d.pmm.usedBlocks) + 3
    ensures forall q :: 0 <= q < PAGES ==> Walk(d.pmm.ram[..], d.directory, q) == KernelMap(q)
    ensures Target(d.pmm.ram[..], d.directory, 0).Some?
    ensures Built(old(d.pmm.ram[..]), d.pmm.ram[..], d.directory, old(d.Used()), d.Used())
    ensures TablesBelowKernel(d.pmm.ram[..], d.directory)
       <==> old(KernelFrames.FreeBelow(d.Used(), KERNEL_FRAME)) >= 3
  {
    hide TablesBuilt, TableEntered, Built, TablesBelowKernel;
    hide KernelFrames.FreeBelow, KernelFrames.FramesTaken, KernelFrames.LowestFree;
    ghost var r0, u0 := d.pmm.ram[..], d.Used();
    SetupDirectory(d);
    ghost var r1, u1 := d.pmm.ram[..], d.Used();
    StillInReach(d, u0, 2);
    ghost var t1 := SetupTable(d, KERNEL_SLOT, KERNEL_FRAME);
    ghost var r2, u2 := d.pmm.ram[..], d.Used();
    StillInReach(d, u1, 1);
    ghost var t2 := SetupTable(d, 0, 0);
    MapsAsKernel(r1, r2, d.pmm.ram[..], d.directory);
    BuiltInTurn(r0, r1, r2, d.pmm.ram[..], d.directory, u0, u1, u2, d.Used(), t1, t2);
    BuiltBelowKernel(r0, d.pmm.ram[..], d.directory, u0, d.Used());
  }

  lemma BuiltInTurn(r0: seq<nat>, r1: seq<nat>, r2: seq<nat>, r3: seq<nat>, pd: nat,
                    u0: set<nat>, u1: set<nat>, u2: set<nat>, u3: set<nat>, t1: nat, t2: nat)
    requires pd < WINDOW && WINDOW * ENTRIES <= |r0| && |r3| == |r2| == |r1| == |r0|
    requires KernelFrames.LowestFree(u0, pd) && KernelFrames.LowestFree(u1, t1) && KernelFrames.LowestFree(u2, t2)
    requires u1 == u0 + {pd} && u2 == u1 + {t1} && u3 == u2 + {t2}
    requires TablesBuilt(r0, r1, pd, u0, u1, {}) && TableEntered(r1, r2, pd, KERNEL_SLOT, t1)
    requires TableEntered(r2, r3, pd, 0, t2)
    ensures Built(r0, r3, pd, u0, u3)
  {
    hide TablesBuilt, TableEntered;
    KernelFrames.ThreeTaken(u0, u1, u2, u3);
    OneMoreBuilt(r0, r1, r2, pd, u0, u1, u2, {}, KERNEL_SLOT, t1);
    OneMoreBuilt(r0, r2, r3, pd, u0, u2, u3, {} + {KERNEL_SLOT}, 0, t2);
    assert {} + {KERNEL_SLOT} + {0} == {0, KERNEL_SLOT};
  }

  function BootReservations(kernelStart: nat, kernelEnd: nat, bitmapAddr: nat, memory: nat,
                            modules: seq<FramePool.Range>)
    : seq<FramePool.Range>
    requires kernelStart <= kernelEnd
  {
    FramePool.BootRanges(kernelStart, kernelEnd, bitmapAddr, FramePool.BitmapBytes(memory), modules)
  }

  // Three frames are left after the reservations, where their addresses reach them: the kernel
  // finds the map of stage 2, which ends at 1 MiB.
  ghost predicate CanBoot(d: PageDirectory, regions: seq<FramePool.Region>, rs: seq<FramePool.Range>)
    reads d, d.pmm, d.pmm.bitmap
  {
    && d.pmm.usedBlocks == 0 && FrameRuns.BootInput(regions, d.pmm.bitmap[..], rs)
    && d.pmm.bitmap as object != d.pmm.ram as object && 0x8000 * ENTRIES <= d.pmm.ram.Length
    && var p := PoolAtBoot(d, regions, rs);
    && p.used + 3 <= p.words
    && (d.pmm.reach < WINDOW ==> KernelFrames.FreeBelow(FramePool.Frames(p), d.pmm.reach) >= 3)
  }

  // The pool that the reservations leave.
  ghost function PoolAtBoot(d: PageDirectory, regions: seq<FramePool.Region>, rs: seq<FramePool.Range>)
    : (p: FramePool.Pool)
    requires FrameRuns.BootInput(regions, d.pmm.bitmap[..], rs)
    reads d, d.pmm, d.pmm.bitmap
    ensures p.words == FramePool.WordsOf(FramePool.TotalMemory(regions))
  {
    FrameRuns.BootPool(d.pmm.bitmap[..], FramePool.TotalMemory(regions), rs)
  }

  // Initialize_memories: from the memory regions to an address space that can be worked with. The
  // pool is what the reservations leave, with three frames taken for the directory and its tables,
  // and all other memory is as it was.
  method InitializeMemories(d: PageDirectory, regions: seq<FramePool.Region>, kernelStart: nat, kernelEnd: nat,
                            bitmapAddr: nat, modules: seq<FramePool.Range>, ghost rs: seq<FramePool.Range>)
    requires kernelStart <= kernelEnd
    requires rs == BootReservations(kernelStart, kernelEnd, bitmapAddr, FramePool.TotalMemory(regions), modules)
    requires CanBoot(d, regions, rs)
    modifies d`directory, d.pmm, d.pmm.bitmap, d.pmm.ram
    ensures d.Running()
    ensures forall q :: 0 <= q < PAGES ==> Walk(d.pmm.ram[..], d.directory, q) == KernelMap(q)
    ensures Target(d.pmm.ram[..], d.directory, 0).Some?
    ensures d.pmm.totalBlock == old(PoolAtBoot(d, regions, rs)).words
    ensures d.pmm.usedBlocks == old(PoolAtBoot(d, regions, rs)).used + 3
    ensures Built(old(d.pmm.ram[..]), d.pmm.ram[..], d.directory,
                  old(FramePool.Frames(PoolAtBoot(d, regions, rs))), d.Used())
    ensures TablesBelowKernel(d.pmm.ram[..], d.directory)
       <==> old(KernelFrames.FreeBelow(FramePool.Frames(PoolAtBoot(d, regions, rs)), KERNEL_FRAME)) >= 3
  {
    hide Built, TablesBelowKernel, Walk, Target, WellFormed, KernelFrames.FreeBelow;
    FrameRuns.BootIsReady(regions, d.pmm.bitmap[..], rs);
    d.pmm.InitMemory(regions, kernelStart, kernelEnd, bitmapAddr, modules);
    InitializeVMemory(d);
  }

  lemma MapsAsKernel(r1: seq<nat>, r2: seq<nat>, r3: seq<nat>, pd: nat)
    requires pd < WINDOW && WINDOW * ENTRIES <= |r1| && |r1| == |r2| == |r3|
    requires forall q :: 0 <= q < PAGES ==> Walk(r1, pd, q) == None
    requires SlotMapped(r1, r2, pd, KERNEL_SLOT, KERNEL_FRAME) && SlotMapped(r2, r3, pd, 0, 0)
    ensures forall q :: 0 <= q < PAGES ==> Walk(r3, pd, q) == KernelMap(q)
    ensures Target(r3, pd, 0).Some?
  {
    forall q | 0 <= q < PAGES
      ensures Walk(r3, pd, q) == KernelMap(q)
    {
      assert Walk(r2, pd, q) == if q / ENTRIES == KERNEL_SLOT then Some(KERNEL_FRAME + q % ENTRIES) else None;
    }
    assert Walk(r3, pd, 0) == Some(0);
  }

  // The kernel's map without the identity map from 1 MiB up to a page.
  ghost predicate UnmappedTo(ram: seq<nat>, pd: nat, page: nat)
    requires pd < WINDOW && WINDOW * ENTRIES <= |ram|
  {
    forall q :: 0 <= q < PAGES ==> Walk(ram, pd, q) == if KERNEL_FRAME <= q < page then None else KernelMap(q)
  }

  // The unmapping loop of stage 2, from the kernel's load address to 4 MiB. It works through the
  // map it unmaps, so the tables have to lie below.
  method UnmapIdentity(d: PageDirectory)
    requires d.Running() && Target(d.pmm.ram[..], d.directory, 0).Some?
    requires forall q :: 0 <= q < PAGES ==> Walk(d.pmm.ram[..], d.directory, q) == KernelMap(q)
    requires TablesBelowKernel(d.pmm.ram[..], d.directory)
    modifies d.pmm`reach, d.pmm.ram
    ensures d.Valid() && d.pmm.reach == KERNEL_FRAME
    ensures forall q :: 0 <= q < PAGES ==> Walk(d.pmm.ram[..], d.directory, q) == BootloaderMap(q)
  {
    hide HoldsTable, IsTable, EntriesOk, Walk;
    var virt := 0x100000;
    ghost var page := KERNEL_FRAME;
    assert UnmappedTo(d.pmm.ram[..], d.directory, page);
    while virt < 0x400000
      invariant d.Valid() && virt == page * PAGE_SIZE && KERNEL_FRAME <= page <= WINDOW
      invariant Target(d.pmm.ram[..], d.directory, 0).Some? && TablesBelowKernel(d.pmm.ram[..], d.directory)
      invariant UnmappedTo(d.pmm.ram[..], d.directory, page)
      decreases 0x400000 - virt
    {
      UnmapLow(d, virt, page);
      virt := virt + PAGE_SIZE;
      page := page + 1;
    }
    d.pmm.reach := KERNEL_FRAME;
  }

  // What stage 2 does before it jumps to the kernel: both set-ups and the unmapping loop. With
  // three frames free below 1 MiB the loop does not unmap what it works through.
  method PrepareJump(d: PageDirectory, regions: seq<FramePool.Region>, kernelStart: nat, kernelEnd: nat,
                     bitmapAddr: nat, ghost rs: seq<FramePool.Range>)
    requires kernelStart <= kernelEnd
    requires rs == BootReservations(kernelStart, kernelEnd, bitmapAddr, FramePool.TotalMemory(regions), [])
    requires CanBoot(d, regions, rs)
    requires KernelFrames.FreeBelow(FramePool.Frames(PoolAtBoot(d, regions, rs)), KERNEL_FRAME) >= 3
    modifies d`directory, d.pmm, d.pmm.bitmap, d.pmm.ram
    ensures d.Valid() && d.pmm.reach == KERNEL_FRAME
    ensures forall q :: 0 <= q < PAGES ==> Walk(d.pmm.ram[..], d.directory, q) == BootloaderMap(q)
  {
    hide Built, TablesBelowKernel, Walk, Target, WellFormed, KernelFrames.FreeBelow;
    InitializeMemories(d, regions, kernelStart, kernelEnd, bitmapAddr, [], rs);
    UnmapIdentity(d);
  }

  // One turn of that loop.
  method UnmapLow(d: PageDirectory, virt: nat, ghost page: nat)
    requires d.Valid() && virt == page * PAGE_SIZE && KERNEL_FRAME <= page < WINDOW
    requires Target(d.pmm.ram[..], d.directory, 0).Some? && TablesBelowKernel(d.pmm.ram[..], d.directory)
    requires UnmappedTo(d.pmm.ram[..], d.directory, page)
    modifies d.pmm.ram
    ensures d.Valid() && UnmappedTo(d.pmm.ram[..], d.directory, page + 1)
    ensures Target(d.pmm.ram[..], d.directory, 0).Some? && TablesBelowKernel(d.pmm.ram[..], d.directory)
  {
    hide HoldsTable, IsTable, EntriesOk, Walk, OnePage, UnmappedTo, TablesBelowKernel;
    ghost var r0 := d.pmm.ram[..];
    assert page / ENTRIES == 0;
    TableReached(d, page);
    d.UnmapPage(virt);
    UnmappedNext(r0, d.pmm.ram[..], d.directory, d.Used(), page);
  }

  lemma UnmappedNext(r0: seq<nat>, r1: seq<nat>, pd: nat, used: set<nat>, page: nat)
    requires WellFormed(r0, pd, used) && KERNEL_FRAME <= page < WINDOW
    requires OnePage(r0, r1, pd, used, used, page, None)
    requires UnmappedTo(r0, pd, page) && TablesBelowKernel(r0, pd)
    ensures UnmappedTo(r1, pd, page + 1) && TablesBelowKernel(r1, pd) && Target(r1, pd, 0).Some?
  {
    TablesStay(r0, r1, pd, used, page);
    forall q | 0 <= q < PAGES
      ensures Walk(r1, pd, q) == if KERNEL_FRAME <= q < page + 1 then None else KernelMap(q)
    {
      assert Walk(r0, pd, q) == if KERNEL_FRAME <= q < page then None else KernelMap(q);
    }
    assert Walk(r1, pd, 0) == KernelMap(0);
  }

  lemma TableReached(d: PageDirectory, page: nat)
    requires d.Valid() && page < WINDOW && Target(d.pmm.ram[..], d.directory, 0).Some?
    requires TablesBelowKernel(d.pmm.ram[..], d.directory) && UnmappedTo(d.pmm.ram[..], d.directory, page)
    ensures Target(d.pmm.ram[..], d.directory, page / ENTRIES).Some?
    ensures d.Reached(d.directory) && d.Reached(d.EntryWord(page) / ENTRIES)
  {
    assert HoldsTable(d.pmm.ram[..], d.directory, d.directory);
    assert HoldsTable(d.pmm.ram[..], d.directory, d.EntryWord(page) / ENTRIES);
  }

  lemma TablesStay(r0: seq<nat>, r1: seq<nat>, pd: nat, used: set<nat>, page: nat)
    requires WellFormed(r0, pd, used) && page < PAGES && OnePage(r0, r1, pd, used, used, page, None)
    ensures TablesBelowKernel(r0, pd) ==> TablesBelowKernel(r1, pd)
  {
    forall f: nat | HoldsTable(r1, pd, f)
      ensures HoldsTable(r0, pd, f)
    {
      assert f in used;
    }
  }
}
