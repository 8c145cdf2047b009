// From the memory regions to a loaded program: what Initialize_memories leaves is what elf_load
// relies on, for a module whose frames were reserved.
module BootLoad {
  import opened MemoryBytes
  import opened PageTables
  import opened ElfModel
  import opened ElfFate
  import AddressSpace
  import BootMap
  import ElfLoader
  import FramePool
  import FrameRuns
  import KernelFrames

  lemma {:induction false} CoveredHas(rs: seq<FramePool.Range>, r: FramePool.Range)
    requires r in rs
    ensures FramePool.Span(r.First(), r.Pages()) <= FramePool.Covered(rs)
  {
    if r != rs[0] {
      CoveredHas(rs[1..], r);
    }
  }

  // The reservations of INIT_MEMORY all count, the one of r covers every byte of it, and it lies
  // in the window and in the bitmap.
  ghost predicate Reserved(p: FramePool.Pool, rs: seq<FramePool.Range>, r: FramePool.Range) {
    && FramePool.InMap(p, rs) && FramePool.AllGuarded(p, rs) && r in rs
    && r.size > 0 && r.base % PAGE_SIZE + r.size <= r.Pages() * PAGE_SIZE
    && r.base + r.size <= WINDOW * PAGE_SIZE && r.First() + r.Pages() <= 32 * p.words
  }

  lemma ReservedInUse(p: FramePool.Pool, rs: seq<FramePool.Range>, r: FramePool.Range)
    requires Reserved(p, rs, r)
    ensures FramePool.Span(r.First(), r.Pages()) <= FramePool.Frames(FramePool.ReserveAll(p, rs))
  {
    CoveredHas(rs, r);
    FramePool.ReserveAllFrames(p, rs);
  }

  // Setting up the tables leaves an image in frames that were in use where it is.
  lemma ImageAfterBoot(r0: seq<nat>, r1: seq<nat>, pd: nat, u0: set<nat>, u1: set<nat>,
                       r: FramePool.Range, img: seq<nat>)
    requires pd < WINDOW && WINDOW * ENTRIES <= |r0| && |r1| == |r0| && BootMap.Built(r0, r1, pd, u0, u1)
    requires ElfLoader.HasImage(r0, r.base, img) && r.size == |img| > 0 && r.base + r.size <= WINDOW * PAGE_SIZE
    requires FramePool.Span(r.First(), r.Pages()) <= u0 && r.base % PAGE_SIZE + r.size <= r.Pages() * PAGE_SIZE
    ensures ElfLoader.ImageAt(r1, pd, u1, r.base, img)
  {
    hide HoldsTable, KernelFrames.FramesTaken;
    FramePool.PagesCoverRange(r);
    forall k | 0 <= k < |img|
      ensures img[k] == ByteAt(r1, r.base + k)
    {
      var x := r.base + k;
      assert x / 4 / ENTRIES == x / PAGE_SIZE && x / PAGE_SIZE in FramePool.Span(r.First(), r.Pages());
    }
    assert forall f :: f in FramePool.Span(r.First(), r.Pages()) ==> !HoldsTable(r1, pd, f);
    ElfLoader.ReservedImage(r1, pd, u1, r, img);
  }

  lemma ImageHeld(ram: seq<nat>, pd: nat, used: set<nat>, kernel: set<nat>, data: nat, img: seq<nat>)
    requires pd < WINDOW && WINDOW * ENTRIES <= |ram| && ElfLoader.ImageAt(ram, pd, used, data, img)
    ensures ElfLoader.ImageAt(ram, pd, used + kernel, data, img)
  {
    forall x | data <= x < data + |img|
      ensures DataFrame(ram, pd, used + kernel, x / PAGE_SIZE)
    {
      assert DataFrame(ram, pd, used, x / PAGE_SIZE);
    }
  }

  // How a load right after the boot ends, and the frames it takes: the directory has tables for
  // the window and the kernel.
  ghost function BootFate(p: FramePool.Pool, img: seq<nat>): Fate
    requires Loadable(img) && CheckHeader(img) == Loaded
  {
    Outcome(p.used + 3, p.words, {0, KERNEL_SLOT}, Plan(Segments(img)))
  }

  ghost function BootTakes(p: FramePool.Pool, img: seq<nat>): nat
    requires Loadable(img) && CheckHeader(img) == Loaded
  {
    Takes(p.used + 3, p.words, {0, KERNEL_SLOT}, Plan(Segments(img)))
  }

  // The pool before the reservations.
  ghost function StartPool(d: AddressSpace.PageDirectory, regions: seq<FramePool.Region>, rs: seq<FramePool.Range>)
    : FramePool.Pool
    requires FrameRuns.BootInput(regions, d.pmm.bitmap[..], rs)
    reads d, d.pmm, d.pmm.bitmap
  {
    var memory := FramePool.TotalMemory(regions);
    FramePool.Pool(FramePool.ClearBytes(d.pmm.bitmap[..], FramePool.BitmapBytes(memory)), FramePool.WordsOf(memory), 0)
  }

  // What elf_load requires, right after Initialize_memories.
  lemma ReadyToLoad(d: AddressSpace.PageDirectory, r0: seq<nat>, u0: set<nat>, p: FramePool.Pool,
                    r: FramePool.Range, img: seq<nat>, kernel: set<nat>, n: nat)
    requires d.Running() && |r0| == d.pmm.ram.Length && BootMap.Built(r0, d.pmm.ram[..], d.directory, u0, d.Used())
    requires d.pmm.usedBlocks == p.used + 3 && d.pmm.totalBlock == p.words
    requires ElfLoader.HasImage(r0, r.base, img) && r.size == |img| > 0 && r.base + r.size <= WINDOW * PAGE_SIZE
    requires FramePool.Span(r.First(), r.Pages()) <= u0 && r.base % PAGE_SIZE + r.size <= r.Pages() * PAGE_SIZE
    requires KernelFrames.Spares(u0, 3 + n, kernel)
    ensures ElfLoader.ImageAt(d.pmm.ram[..], d.directory, ElfLoader.Held(d, kernel), r.base, img)
    ensures KernelFrames.Spares(d.Used(), n, kernel) && u0 <= d.Used() && (d.Used() - u0) !! kernel
    ensures ElfLoader.InWindow(d)
    ensures Loadable(img) && CheckHeader(img) == Loaded ==>
      ElfLoader.FateOf(d, Segments(img)) == BootFate(p, img) && ElfLoader.TakesOf(d, Segments(img)) == BootTakes(p, img)
  {
    hide KernelFrames.Spares, KernelFrames.FramesTaken, ElfLoader.ImageAt, ElfLoader.HasImage, TablesOf, HoldsTable;
    hide CheckHeader, Segments, Plan, Outcome, Takes;
    ImageAfterBoot(r0, d.pmm.ram[..], d.directory, u0, d.Used(), r, img);
    ImageHeld(d.pmm.ram[..], d.directory, d.Used(), kernel, r.base, img);
    KernelFrames.SparesAfter(u0, d.Used(), 3, n, kernel);
  }

  // How many frames boot and load take.
  ghost function AllTakes(p: FramePool.Pool, img: seq<nat>): nat
    requires Loadable(img)
  {
    3 + (if CheckHeader(img) == Loaded then BootTakes(p, img) else 0)
  }

  // The load ended as counted from pool p, the program placed over memory r0.
  ghost predicate LoadedFrom(d: AddressSpace.PageDirectory, p: FramePool.Pool, r0: seq<nat>, img: seq<nat>,
                             kernel: set<nat>, code: Code, entry: nat)
    requires ElfLoader.InWindow(d) && |r0| == d.pmm.ram.Length && Loadable(img)
    reads d, d.pmm, d.pmm.bitmap, d.pmm.ram
  {
    && ElfLoader.SystemKept(r0, d.pmm.ram[..], d.directory) && d.pmm.usedBlocks == p.used + AllTakes(p, img)
    && (d.Used() - FramePool.Frames(p)) !! kernel
    && (CheckHeader(img) != Loaded ==> code == CheckHeader(img) && d.pmm.ram[..] == r0)
    && (CheckHeader(img) == Loaded ==>
          && code == (if BootFate(p, img) == Exhausted then OutOfMemory
                      else if NoLoadHeader(img) then NoSegment else Loaded)
          && (code == Loaded ==> entry == Entry(img))
          && (code == Loaded && BootFate(p, img) == AllMapped ==>
                Placed(r0, d.pmm.ram[..], d.directory, ElfLoader.Held(d, kernel), img, Segments(img), Count(img), 0)))
  }

  // elf_load right after Initialize_memories, which found memory r0 and left the pool p its
  // reservations.
  method LoadReserved(d: AddressSpace.PageDirectory, r: FramePool.Range, ghost r0: seq<nat>, ghost p: FramePool.Pool,
                      ghost img: seq<nat>, ghost kernel: set<nat>)
    returns (code: Code, entry: nat)
    requires d.Running() && |r0| == d.pmm.ram.Length
    requires BootMap.Built(r0, d.pmm.ram[..], d.directory, FramePool.Frames(p), d.Used())
    requires d.pmm.usedBlocks == p.used + 3 && d.pmm.totalBlock == p.words && Loadable(img)
    requires ElfLoader.HasImage(r0, r.base, img) && r.size == |img| && r.base + r.size <= WINDOW * PAGE_SIZE
    requires FramePool.Span(r.First(), r.Pages()) <= FramePool.Frames(p)
    requires r.base % PAGE_SIZE + r.size <= r.Pages() * PAGE_SIZE
    requires KernelFrames.IsKernel(kernel) && KernelFrames.Spares(FramePool.Frames(p), AllTakes(p, img), kernel)
    modifies d.pmm`usedBlocks, d.pmm.bitmap, d.pmm.ram
    ensures d.Running() && LoadedFrom(d, p, old(d.pmm.ram[..]), img, kernel, code, entry)
  {
    hide BootMap.Built, KernelFrames.Spares, KernelMapped, IsTable, EntriesOk, ElfLoader.HasImage, ElfLoader.ImageAt;
    hide ElfLoader.FateOf, ElfLoader.TakesOf, BootFate, BootTakes, CheckHeader, Segments, Placed, KeepsData;
    hide KernelFrames.IsKernel, ElfLoader.SystemKept, Walk, NoLoadHeader, Plan;
    hide FramePool.Span, FramePool.Inv, TableFits;
    ghost var u0, u1 := FramePool.Frames(p), d.Used();
    ReadyToLoad(d, r0, u0, p, r, img, kernel, AllTakes(p, img) - 3);
    code, entry := ElfLoader.Load(d, r.base, img, kernel);
    assert d.Used() - u0 == (d.Used() - u1) + (u1 - u0);
  }

  // Initialize_memories and then elf_load of a reserved module, when the frames that both take are
  // none of the kernel's. booted is memory in between, with exactly the kernel's map.
  method BootAndLoad(d: AddressSpace.PageDirectory, regions: seq<FramePool.Region>, kernelStart: nat, kernelEnd: nat,
                     bitmapAddr: nat, modules: seq<FramePool.Range>, i: nat, ghost rs: seq<FramePool.Range>,
                     ghost img: seq<nat>, ghost kernel: set<nat>)
    returns (code: Code, entry: nat, ghost booted: seq<nat>)
    requires kernelStart <= kernelEnd && i < |modules| && modules[i].size == |img| && Loadable(img)
    requires var memory := FramePool.TotalMemory(regions);
      && rs == BootMap.BootReservations(kernelStart, kernelEnd, bitmapAddr, memory, modules)
      && KernelFrames.HoldsKernel(kernel, kernelEnd - kernelStart, memory)
    requires BootMap.CanBoot(d, regions, rs) && Reserved(StartPool(d, regions, rs), rs, modules[i])
    requires ElfLoader.HasImage(d.pmm.ram[..], modules[i].base, img)
    requires var p := BootMap.PoolAtBoot(d, regions, rs);
      KernelFrames.Spares(FramePool.Frames(p), AllTakes(p, img), kernel)
    modifies d`directory, d.pmm, d.pmm.bitmap, d.pmm.ram
    ensures d.Running() && |booted| == d.pmm.ram.Length
    ensures forall q :: 0 <= q < PAGES ==> Walk(booted, d.directory, q) == KernelMap(q)
    ensures LoadedFrom(d, old(BootMap.PoolAtBoot(d, regions, rs)), booted, img, kernel, code, entry)
  {
    hide BootMap.Built, KernelFrames.Spares, KernelFrames.FreeBelow, Walk, IsTable, EntriesOk, ElfLoader.HasImage;
    hide Segments, Reserved, LoadedFrom, AllTakes, Loadable, FrameRuns.BootPool, FrameRuns.BootInput;
    ghost var r0, p := d.pmm.ram[..], BootMap.PoolAtBoot(d, regions, rs);
    ModuleInUse(d, regions, rs, modules[i]);
    BootMap.InitializeMemories(d, regions, kernelStart, kernelEnd, bitmapAddr, modules, rs);
    booted := d.pmm.ram[..];
    code, entry := LoadReserved(d, modules[i], r0, p, img, kernel);
  }

  lemma ModuleInUse(d: AddressSpace.PageDirectory, regions: seq<FramePool.Region>, rs: seq<FramePool.Range>,
                    r: FramePool.Range)
    requires FrameRuns.BootInput(regions, d.pmm.bitmap[..], rs) && Reserved(StartPool(d, regions, rs), rs, r)
    ensures FramePool.Span(r.First(), r.Pages()) <= FramePool.Frames(BootMap.PoolAtBoot(d, regions, rs))
    ensures r.base % PAGE_SIZE + r.size <= r.Pages() * PAGE_SIZE && r.base + r.size <= WINDOW * PAGE_SIZE
  {
    ReservedInUse(StartPool(d, regions, rs), rs, r);
  }
}
