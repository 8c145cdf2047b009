// elf_load: the program headers of an image in memory are gone through, and every page of
// every loadable segment is allocated, filled and mapped for user code.
module ElfLoader {
  import opened Basics
  import opened MemoryBytes
  import opened PageTables
  import opened ElfModel
  import opened ElfFate
  import AddressSpace
  import FrameAllocator
  import FramePool
  import KernelFrames

  // The bytes from address data on are those of img.
  ghost predicate HasImage(ram: seq<nat>, data: nat, img: seq<nat>) {
    data + |img| <= 4 * |ram| && forall k :: 0 <= k < |img| ==> img[k] == ByteAt(ram, data + k)
  }

  // They lie in the identity-mapped window, where the loader reads them, in frames that are in
  // use and hold no table.
  ghost predicate ImageAt(ram: seq<nat>, pd: nat, used: set<nat>, data: nat, img: seq<nat>)
    requires pd < WINDOW && WINDOW * ENTRIES <= |ram|
  {
    && HasImage(ram, data, img) && data + |img| <= WINDOW * PAGE_SIZE
    && forall x :: data <= x < data + |img| ==> DataFrame(ram, pd, used, x / PAGE_SIZE)
  }

  lemma ImageKept(r0: seq<nat>, r1: seq<nat>, pd: nat, u0: set<nat>, u1: set<nat>, data: nat, img: seq<nat>)
    requires pd < WINDOW && WINDOW * ENTRIES <= |r0|
    requires ImageAt(r0, pd, u0, data, img) && KeepsData(r0, r1, pd, u0, u1)
    ensures ImageAt(r1, pd, u1, data, img)
  {
    forall k | 0 <= k < |img|
      ensures img[k] == ByteAt(r1, data + k)
    {
      ByteKept(r0, r1, pd, u0, u1, data + k);
    }
  }

  // An image in frames that were reserved for it, and that hold no table, is safe from the
  // loader. Reserving covers it when its base leaves room in the last page.
  lemma ReservedImage(ram: seq<nat>, pd: nat, used: set<nat>, r: FramePool.Range, img: seq<nat>)
    requires pd < WINDOW && WINDOW * ENTRIES <= |ram| && HasImage(ram, r.base, img) && r.size == |img| > 0
    requires r.base + r.size <= WINDOW * PAGE_SIZE
    requires FramePool.Span(r.First(), r.Pages()) <= used && r.base % PAGE_SIZE + r.size <= r.Pages() * PAGE_SIZE
    requires forall f :: f in FramePool.Span(r.First(), r.Pages()) ==> !HoldsTable(ram, pd, f)
    ensures ImageAt(ram, pd, used, r.base, img)
  {
    FramePool.PagesCoverRange(r);
    forall x | r.base <= x < r.base + |img|
      ensures DataFrame(ram, pd, used, x / PAGE_SIZE)
    {
      assert x / PAGE_SIZE in FramePool.Span(r.First(), r.Pages());
    }
  }

  // ---------------------------------------------------------------- reading the image

  method ReadByte(ram: array<nat>, data: nat, k: nat, ghost img: seq<nat>) returns (b: nat)
    requires HasImage(ram[..], data, img) && k < |img|
    ensures b == img[k]
  {
    b := Lane(ram[(data + k) / 4], (data + k) % 4);
    assert b == ByteAt(ram[..], data + k);
  }

  method ReadHalf(ram: array<nat>, data: nat, k: nat, ghost img: seq<nat>) returns (v: nat)
    requires HasImage(ram[..], data, img) && k + 2 <= |img|
    ensures v == Le16(img, k)
  {
    var b0 := ReadByte(ram, data, k, img);
    var b1 := ReadByte(ram, data, k + 1, img);
    v := b0 + 256 * b1;
  }

  method ReadWord(ram: array<nat>, data: nat, k: nat, ghost img: seq<nat>) returns (v: nat)
    requires HasImage(ram[..], data, img) && k + 4 <= |img|
    ensures v == Le32(img, k)
  {
    var b0 := ReadByte(ram, data, k, img);
    var b1 := ReadByte(ram, data, k + 1, img);
    var b2 := ReadByte(ram, data, k + 2, img);
    var b3 := ReadByte(ram, data, k + 3, img);
    v := Compose(b0, b1, b2, b3);
  }

  method ReadSegment(ram: array<nat>, data: nat, k: nat, ghost img: seq<nat>) returns (s: Segment)
    requires HasImage(ram[..], data, img) && k + 24 <= |img|
    ensures s == SegmentAt(img, k)
  {
    hide HasImage, Le32;
    var kind := ReadWord(ram, data, k, img);
    var offset := ReadWord(ram, data, k + 4, img);
    var vaddr := ReadWord(ram, data, k + 8, img);
    var filesz := ReadWord(ram, data, k + 16, img);
    var memsz := ReadWord(ram, data, k + 20, img);
    s := Segment(kind, offset, vaddr, filesz, memsz);
  }

  // The checks of the file header, in the order of the source.
  method ValidateHeader(ram: array<nat>, data: nat, ghost img: seq<nat>) returns (code: Code)
    requires HasImage(ram[..], data, img) && |img| >= 52
    ensures code == CheckHeader(img)
  {
    var m0 := ReadByte(ram, data, 0, img);
    var m1 := ReadByte(ram, data, 1, img);
    var m2 := ReadByte(ram, data, 2, img);
    var m3 := ReadByte(ram, data, 3, img);
    if m0 != 0x7F || m1 != 0x45 || m2 != 0x4C || m3 != 0x46 {
      return BadMagic;
    }
    var elfClass := ReadByte(ram, data, 4, img);
    if elfClass != 1 {
      return BadClass;
    }
    var kind := ReadHalf(ram, data, 16, img);
    if kind != 2 {
      return BadType;
    }
    return Loaded;
  }

  // ---------------------------------------------------------------- filling a page

  method StoreByte(ram: array<nat>, addr: nat, b: nat)
    requires addr / 4 < ram.Length
    modifies ram
    ensures ram[..] == Stored(old(ram[..]), addr, b)
  {
    ram[addr / 4] := SetLane(ram[addr / 4], addr % 4, b);
  }

  // Frame f holds the first n bytes from address src, and behind them what it held before.
  ghost predicate Copied(was: seq<nat>, ram: seq<nat>, f: nat, src: nat, n: nat)
    requires f < WINDOW && WINDOW * ENTRIES <= |was| && |ram| == |was| && src + n <= 4 * |was|
  {
    && (forall a :: 0 <= a < |was| && a / ENTRIES != f ==> ram[a] == was[a])
    && (forall b :: 0 <= b < PAGE_SIZE ==>
          PageByte(ram, f, b) == if b < n then ByteAt(was, src + b) else PageByte(was, f, b))
  }

  lemma SourceKept(was: seq<nat>, ram: seq<nat>, f: nat, src: nat, n: nat, x: nat)
    requires f < WINDOW && WINDOW * ENTRIES <= |was| && |ram| == |was| && src + n <= 4 * |was|
    requires Copied(was, ram, f, src, n) && x / 4 < |was| && x / PAGE_SIZE != f
    ensures ByteAt(ram, x) == ByteAt(was, x)
  {
    assert x / 4 / ENTRIES == x / PAGE_SIZE;
  }

  lemma CopyStep(was: seq<nat>, ram: seq<nat>, f: nat, src: nat, i: nat, v: nat)
    requires f < WINDOW && WINDOW * ENTRIES <= |was| && |ram| == |was| && src + i + 1 <= 4 * |was| && i < PAGE_SIZE
    requires Copied(was, ram, f, src, i) && v == ByteAt(was, src + i)
    ensures Copied(was, Stored(ram, f * PAGE_SIZE + i, v), f, src, i + 1)
  {
    hide ByteAt, SetLane;
    var r := Stored(ram, f * PAGE_SIZE + i, v);
    assert (f * PAGE_SIZE + i) / 4 / ENTRIES == f;
    forall b | 0 <= b < PAGE_SIZE
      ensures PageByte(r, f, b) == if b == i then v else PageByte(ram, f, b)
    {
      ByteOfStored(ram, f * PAGE_SIZE + i, v, f * PAGE_SIZE + b);
    }
  }

  // memcpy into a frame, from outside it.
  method CopyToFrame(ram: array<nat>, f: nat, src: nat, n: nat)
    requires f < WINDOW && WINDOW * ENTRIES <= ram.Length && n <= PAGE_SIZE && src + n <= 4 * ram.Length
    requires forall j :: src <= j < src + n ==> j / PAGE_SIZE != f
    modifies ram
    ensures Copied(old(ram[..]), ram[..], f, src, n)
  {
    for i := 0 to n
      invariant Copied(old(ram[..]), ram[..], f, src, i)
    {
      SourceKept(old(ram[..]), ram[..], f, src, i, src + i);
      CopyStep(old(ram[..]), ram[..], f, src, i, ByteAt(ram[..], src + i));
      StoreByte(ram, f * PAGE_SIZE + i, Lane(ram[(src + i) / 4], (src + i) % 4));
    }
  }

  lemma ZeroedBytes(r0: seq<nat>, ram: seq<nat>, f: nat, b: nat)
    requires f < WINDOW && WINDOW * ENTRIES <= |ram| && b < PAGE_SIZE && FrameAllocator.Zeroed(r0, ram, f, 1)
    ensures PageByte(ram, f, b) == 0
  {
    ZeroWordBytes(ram, f * PAGE_SIZE + b);
  }

  // The cleared frame f of memory r1, filled with page p of a segment from the image.
  lemma PageFilled(r0: seq<nat>, r1: seq<nat>, r2: seq<nat>, data: nat, img: seq<nat>,
                   s: Segment, p: nat, f: nat, n: nat)
    requires WINDOW * ENTRIES <= |r0| && f < WINDOW && FrameAllocator.Zeroed(r0, r1, f, 1) && |r2| == |r1|
    requires HasImage(r1, data, img) && s.DataFits(|img|) && p < s.Pages()
    requires n == PageCopy(s, p) && (n == 0 ==> r2 == r1)
    requires n > 0 ==> Copied(r1, r2, f, data + s.offset + p * PAGE_SIZE, n)
    ensures FrameHolds(r2, f, img, s, p)
  {
    forall b | 0 <= b < PAGE_SIZE
      ensures PageByte(r2, f, b) == SegmentByte(img, s, p * PAGE_SIZE + b)
    {
      ZeroedBytes(r0, r1, f, b);
      if b < n {
        PageCopyFits(s, p, |img|);
        assert img[s.offset + p * PAGE_SIZE + b] == ByteAt(r1, data + (s.offset + p * PAGE_SIZE + b));
      }
    }
  }

  // How much of page p of a segment comes from the file.
  function PageCopy(s: Segment, p: nat): nat {
    if s.filesz <= p * PAGE_SIZE then 0
    else if s.filesz - p * PAGE_SIZE > PAGE_SIZE then PAGE_SIZE
    else s.filesz - p * PAGE_SIZE
  }

  lemma PageCopyFits(s: Segment, p: nat, size: nat)
    requires s.DataFits(size) && p < s.Pages() && PageCopy(s, p) > 0
    ensures s.offset + p * PAGE_SIZE + PageCopy(s, p) <= size
  {
  }

  // The copying step of the page loop.
  method FillPage(ram: array<nat>, data: nat, s: Segment, p: nat, f: nat, ghost img: seq<nat>, ghost r0: seq<nat>)
    requires WINDOW * ENTRIES <= ram.Length && HasImage(ram[..], data, img)
    requires s.DataFits(|img|) && p < s.Pages() && f < WINDOW && FrameAllocator.Zeroed(r0, ram[..], f, 1)
    requires forall x :: data <= x < data + |img| ==> x / PAGE_SIZE != f
    modifies ram
    ensures FrameHolds(ram[..], f, img, s, p)
    ensures forall a :: 0 <= a < ram.Length && a / ENTRIES != f ==> ram[a] == old(ram[a])
  {
    hide FrameHolds, PageByte, ByteAt;
    ghost var r1 := ram[..];
    var pageOff := p * PAGE_SIZE;
    if pageOff < s.filesz {
      var copy := s.filesz - pageOff;
      if copy > PAGE_SIZE {
        copy := PAGE_SIZE;
      }
      PageCopyFits(s, p, |img|);
      CopyToFrame(ram, f, data + s.offset + pageOff, copy);
    }
    PageFilled(r0, r1, ram[..], data, img, s, p, f, PageCopy(s, p));
  }

  // ---------------------------------------------------------------- loading

  // The frames that a load leaves alone: those in use, and the kernel's, which need not be.
  ghost function Held(d: AddressSpace.PageDirectory, kernel: set<nat>): set<nat>
    reads d.pmm, d.pmm.bitmap
  {
    d.Used() + kernel
  }

  // A frame just taken and filled: the image and all other data stay as they were.
  lemma FilledKeeps(r0: seq<nat>, r1: seq<nat>, r2: seq<nat>, pd: nat, used: set<nat>, kernel: set<nat>, f: nat)
    requires WellFormed(r0, pd, used) && f !in used + kernel && f < WINDOW && FrameAllocator.Zeroed(r0, r1, f, 1)
    requires |r2| == |r1| && forall a :: 0 <= a < |r1| && a / ENTRIES != f ==> r2[a] == r1[a]
    ensures WellFormed(r2, pd, used + {f}) && SameWalk(r0, r2, pd) && TablesOf(r2, pd) == TablesOf(r0, pd)
    ensures KeepsData(r0, r2, pd, used + kernel, used + {f} + kernel) && DataFrame(r2, pd, used + {f} + kernel, f)
  {
    assert forall a :: 0 <= a < |r0| && a / ENTRIES != f ==> r2[a] == r0[a];
    forall g | 0 <= g < WINDOW && HoldsTable(r0, pd, g)
      ensures SameFrame(r0, r2, g)
    {
      assert g in used;
      assert forall i :: 0 <= i < ENTRIES ==> Word(g, i) / ENTRIES == g;
    }
    TablesUntouched(r0, r2, pd, used, used + {f});
    assert HoldsTable(r0, pd, f) ==> f in used;
  }

  // A data frame is not one that was free.
  lemma ImageElsewhere(ram: seq<nat>, pd: nat, used: set<nat>, data: nat, img: seq<nat>, f: nat)
    requires pd < WINDOW && WINDOW * ENTRIES <= |ram| && ImageAt(ram, pd, used, data, img) && f !in used
    ensures forall x :: data <= x < data + |img| ==> x / PAGE_SIZE != f
  {
    forall x | data <= x < data + |img|
      ensures x / PAGE_SIZE != f
    {
      assert DataFrame(ram, pd, used, x / PAGE_SIZE);
    }
  }

  // The page is filled from the image; memory was r0, with u0 in use, before its frame was taken.
  method PreparePage(d: AddressSpace.PageDirectory, data: nat, s: Segment, p: nat, f: nat, ghost img: seq<nat>,
                     ghost kernel: set<nat>, ghost r0: seq<nat>, ghost u0: set<nat>)
    requires d.Valid() && WellFormed(r0, d.directory, u0) && ImageAt(r0, d.directory, u0 + kernel, data, img)
    requires s.DataFits(|img|) && p < s.Pages() && f < WINDOW && f !in u0 + kernel && d.Used() == u0 + {f}
    requires FrameAllocator.Zeroed(r0, d.pmm.ram[..], f, 1)
    requires KeepsData(r0, d.pmm.ram[..], d.directory, u0 + kernel, Held(d, kernel))
    modifies d.pmm.ram
    ensures d.Valid() && SameWalk(r0, d.pmm.ram[..], d.directory)
    ensures TablesOf(d.pmm.ram[..], d.directory) == TablesOf(r0, d.directory)
    ensures KeepsData(r0, d.pmm.ram[..], d.directory, u0 + kernel, Held(d, kernel))
    ensures DataFrame(d.pmm.ram[..], d.directory, Held(d, kernel), f) && FrameHolds(d.pmm.ram[..], f, img, s, p)
  {
    ghost var r1 := d.pmm.ram[..];
    ImageKept(r0, r1, d.directory, u0 + kernel, Held(d, kernel), data, img);
    ImageElsewhere(r0, d.directory, u0 + kernel, data, img, f);
    FillPage(d.pmm.ram, data, s, p, f, img, r0);
    FilledKeeps(r0, r1, d.pmm.ram[..], d.directory, u0, kernel, f);
  }

  lemma AddressesOfPage(s: Segment, p: nat, f: nat, phys: nat, virt: nat)
    requires s.Placeable() && p < s.Pages() && f < WINDOW
    requires phys == f * PAGE_SIZE && virt == s.vaddr + p * PAGE_SIZE
    ensures AddressSpace.IsFrameAddress(phys) && phys / PAGE_SIZE == f
    ensures AddressSpace.IsVirtual(virt) && virt / PAGE_SIZE == s.First() + p < PAGES
    ensures KernelMap(s.First() + p).None?
  {
    assert s.vaddr == s.First() * PAGE_SIZE + s.vaddr % PAGE_SIZE;
  }

  // map_page_user for page p of a segment.
  method MapSegmentPage(d: AddressSpace.PageDirectory, s: Segment, p: nat, f: nat) returns (done: bool)
    requires d.Running() && s.Placeable() && p < s.Pages() && f < WINDOW
    modifies d.pmm`usedBlocks, d.pmm.bitmap, d.pmm.ram
    ensures d.Running() && s.First() + p < PAGES
    ensures done == old(Slot(s.First() + p) in TablesOf(d.pmm.ram[..], d.directory) || FramePool.Guarded(d.pmm.View()))
    ensures done ==>
      OnePage(old(d.pmm.ram[..]), d.pmm.ram[..], d.directory, old(d.Used()), d.Used(), s.First() + p, Some(f))
    ensures !done ==> d.pmm.ram[..] == old(d.pmm.ram[..])
    ensures done ==>
      TablesOf(d.pmm.ram[..], d.directory) == old(TablesOf(d.pmm.ram[..], d.directory)) + {Slot(s.First() + p)}
    ensures d.pmm.usedBlocks == old(d.pmm.usedBlocks)
      + (if done && Slot(s.First() + p) !in old(TablesOf(d.pmm.ram[..], d.directory)) then 1 else 0)
    ensures if done && Slot(s.First() + p) !in old(TablesOf(d.pmm.ram[..], d.directory))
      then KernelFrames.OneTaken(old(d.Used()), d.Used()) else d.Used() == old(d.Used())
  {
    hide OnePage, WellFormed, KernelMapped;
    var phys, virt := f * PAGE_SIZE, s.vaddr + p * PAGE_SIZE;
    AddressesOfPage(s, p, f, phys, virt);
    done := d.MapPageUser(phys, virt);
  }

  // The pages outside user space, those of the kernel and of its heap, translate as before.
  ghost predicate SystemKept(r0: seq<nat>, r1: seq<nat>, pd: nat)
    requires pd < WINDOW && WINDOW * ENTRIES <= |r0| && |r1| == |r0|
  {
    forall q :: 0 <= q < PAGES && !(WINDOW <= q < KERNEL_PAGE) ==> Walk(r1, pd, q) == Walk(r0, pd, q)
  }

  lemma PutKeepsSystem(ra: seq<nat>, rc: seq<nat>, pd: nat, ua: set<nat>, uc: set<nat>,
                       img: seq<nat>, s: Segment, p: nat)
    requires pd < WINDOW && WINDOW * ENTRIES <= |ra| && s.Placeable() && p < s.Pages()
    requires PagePut(ra, rc, pd, ua, uc, img, s, p)
    ensures SystemKept(ra, rc, pd)
  {
  }

  // Seen with the kernel's frames among those in use, one page has changed all the same.
  lemma OnePageHeld(r0: seq<nat>, r1: seq<nat>, pd: nat, u0: set<nat>, u1: set<nat>, kernel: set<nat>,
                    page: nat, target: Option<nat>)
    requires pd < WINDOW && page < PAGES && WINDOW * ENTRIES <= |r0|
    requires OnePage(r0, r1, pd, u0, u1, page, target) && (u1 - u0) !! kernel
    ensures OnePage(r0, r1, pd, u0 + kernel, u1 + kernel, page, target)
  {
    forall f: nat | HoldsTable(r1, pd, f)
      ensures f in u1
    {
    }
  }

  // What map_page_user has taken of the n frames that can be spared.
  lemma TableSpared(u0: set<nat>, u1: set<nat>, n: nat, taken: nat, kernel: set<nat>)
    requires KernelFrames.Spares(u0, n, kernel) && taken <= n && taken <= 1
    requires if taken == 1 then KernelFrames.OneTaken(u0, u1) else u1 == u0
    ensures KernelFrames.Spares(u1, n - taken, kernel) && u0 <= u1 && (u1 - u0) !! kernel
  {
    hide KernelFrames.Spares, KernelFrames.OneTaken;
    if taken == 1 {
      KernelFrames.SpareTaken(u0, u1, n, kernel);
    }
  }

  lemma SameWalkKeepsSystem(r0: seq<nat>, r1: seq<nat>, pd: nat)
    requires pd < WINDOW && WINDOW * ENTRIES <= |r0| && |r1| == |r0| && SameWalk(r0, r1, pd)
    ensures SystemKept(r0, r1, pd)
  {
  }

  lemma StillRunning(d: AddressSpace.PageDirectory, r0: seq<nat>)
    requires d.Valid() && d.pmm.reach == WINDOW && |r0| == d.pmm.ram.Length && KernelMapped(r0, d.directory)
    requires SystemKept(r0, d.pmm.ram[..], d.directory)
    ensures d.Running()
  {
    forall q | 0 <= q < PAGES && KernelMap(q).Some?
      ensures Walk(d.pmm.ram[..], d.directory, q) == KernelMap(q)
    {
      assert Walk(r0, d.directory, q) == KernelMap(q);
    }
  }

  // The frame is filled and mapped. Mapping can fail for want of a table; the loader does not
  // look, and mapped records it here.
  method EnterPage(d: AddressSpace.PageDirectory, data: nat, s: Segment, p: nat, f: nat, ghost img: seq<nat>,
                   ghost kernel: set<nat>, ghost n: nat, ghost r0: seq<nat>, ghost u0: set<nat>)
    returns (ghost mapped: bool)
    requires d.Valid() && d.pmm.reach == WINDOW && WellFormed(r0, d.directory, u0) && KernelMapped(r0, d.directory)
    requires ImageAt(r0, d.directory, u0 + kernel, data, img)
    requires s.Placeable() && s.DataFits(|img|) && p < s.Pages()
    requires f < WINDOW && f !in u0 + kernel && d.Used() == u0 + {f}
    requires FrameAllocator.Zeroed(r0, d.pmm.ram[..], f, 1)
    requires KeepsData(r0, d.pmm.ram[..], d.directory, u0 + kernel, Held(d, kernel))
    requires 0 < d.pmm.usedBlocks <= d.pmm.totalBlock && KernelFrames.Spares(d.Used(), n, kernel)
    requires 1 + n >= TurnTakes(d.pmm.usedBlocks - 1, d.pmm.totalBlock, TablesOf(r0, d.directory), Slot(s.First() + p))
    modifies d.pmm`usedBlocks, d.pmm.bitmap, d.pmm.ram
    ensures d.Running() && KeepsData(r0, d.pmm.ram[..], d.directory, u0 + kernel, Held(d, kernel))
    ensures SystemKept(r0, d.pmm.ram[..], d.directory)
    ensures mapped ==> PagePut(r0, d.pmm.ram[..], d.directory, u0 + kernel, Held(d, kernel), img, s, p)
    ensures s.First() + p < PAGES && Spent(old(d.pmm.usedBlocks) - 1, d.pmm.totalBlock, TablesOf(r0, d.directory),
                  d.pmm.usedBlocks, TablesOf(d.pmm.ram[..], d.directory), Slot(s.First() + p), true, mapped)
    ensures old(d.pmm.usedBlocks) <= d.pmm.usedBlocks <= old(d.pmm.usedBlocks) + n
    ensures KernelFrames.Spares(d.Used(), n - (d.pmm.usedBlocks - old(d.pmm.usedBlocks)), kernel)
    ensures u0 <= d.Used() && (d.Used() - u0) !! kernel
  {
    hide HoldsTable, OnePage, FrameHolds, ImageAt, TablesOf, KernelFrames.Spares, KernelFrames.OneTaken, FramePool.Span;
    hide KernelMapped, KeepsData, SystemKept, SameWalk, PagePut, EntriesOk, IsTable, FramePool.Inv, FramePool.Clear;
    PreparePage(d, data, s, p, f, img, kernel, r0, u0);
    SameWalkKeepsSystem(r0, d.pmm.ram[..], d.directory);
    StillRunning(d, r0);
    ghost var r1, u1, used := d.pmm.ram[..], d.Used(), d.pmm.usedBlocks;
    var done := MapSegmentPage(d, s, p, f);
    TableSpared(u1, d.Used(), n, d.pmm.usedBlocks - used, kernel);
    if done {
      OnePageHeld(r1, d.pmm.ram[..], d.directory, u1, d.Used(), kernel, s.First() + p, Some(f));
      FilledThenMapped(r0, r1, d.pmm.ram[..], d.directory, u0 + kernel, u1 + kernel, Held(d, kernel), img, s, p, f);
      PutKeepsSystem(r0, d.pmm.ram[..], d.directory, u0 + kernel, Held(d, kernel), img, s, p);
    }
    return done;
  }

  // allocate_block for a page: the frame is not the kernel's.
  method TakePage(d: AddressSpace.PageDirectory, ghost kernel: set<nat>, ghost n: nat) returns (f: nat)
    requires d.Running() && KernelFrames.Spares(d.Used(), n, kernel) && (FramePool.Guarded(d.pmm.View()) ==> n > 0)
    modifies d.pmm`usedBlocks, d.pmm.bitmap, d.pmm.ram
    ensures d.Valid() && (f == 0 <==> !old(FramePool.Guarded(d.pmm.View())))
    ensures f == 0 ==> d.Used() == old(d.Used()) && d.pmm.ram[..] == old(d.pmm.ram[..])
    ensures d.pmm.usedBlocks == old(d.pmm.usedBlocks) + (if f == 0 then 0 else 1)
    ensures f != 0 ==> f < WINDOW && f !in old(Held(d, kernel)) && d.Used() == old(d.Used()) + {f}
    ensures f != 0 ==> FrameAllocator.Zeroed(old(d.pmm.ram[..]), d.pmm.ram[..], f, 1)
    ensures f != 0 ==>
      KeepsData(old(d.pmm.ram[..]), d.pmm.ram[..], d.directory, old(Held(d, kernel)), Held(d, kernel))
    ensures f != 0 ==> KernelFrames.Spares(d.Used(), n - 1, kernel)
  {
    hide KernelFrames.Spares, FramePool.Span, KernelMapped, KeepsData;
    ghost var r0, u0 := d.pmm.ram[..], d.Used();
    f := d.AllocateFrame();
    if f != 0 {
      KernelFrames.SparesNext(u0, n, kernel, f);
      FilledKeeps(r0, d.pmm.ram[..], d.pmm.ram[..], d.directory, u0, kernel, f);
    }
  }

  // The body of the page loop. What it takes of the n frames that can be spared is not the
  // kernel's.
  method LoadPage(d: AddressSpace.PageDirectory, data: nat, s: Segment, p: nat, ghost img: seq<nat>,
                  ghost kernel: set<nat>, ghost n: nat)
    returns (ok: bool, ghost mapped: bool)
    requires d.Running() && ImageAt(d.pmm.ram[..], d.directory, Held(d, kernel), data, img)
    requires s.Placeable() && s.DataFits(|img|) && p < s.Pages() && KernelFrames.Spares(d.Used(), n, kernel)
    requires n >= TurnTakes(d.pmm.usedBlocks, d.pmm.totalBlock, TablesOf(d.pmm.ram[..], d.directory),
                            Slot(s.First() + p))
    modifies d.pmm`usedBlocks, d.pmm.bitmap, d.pmm.ram
    ensures d.Running()
    ensures KeepsData(old(d.pmm.ram[..]), d.pmm.ram[..], d.directory, old(Held(d, kernel)), Held(d, kernel))
    ensures SystemKept(old(d.pmm.ram[..]), d.pmm.ram[..], d.directory)
    ensures ok && mapped ==>
      PagePut(old(d.pmm.ram[..]), d.pmm.ram[..], d.directory, old(Held(d, kernel)), Held(d, kernel), img, s, p)
    ensures Spent(old(d.pmm.usedBlocks), d.pmm.totalBlock, old(TablesOf(d.pmm.ram[..], d.directory)),
                  d.pmm.usedBlocks, TablesOf(d.pmm.ram[..], d.directory), Slot(s.First() + p), ok, mapped)
    ensures old(d.pmm.usedBlocks) <= d.pmm.usedBlocks <= old(d.pmm.usedBlocks) + n
    ensures KernelFrames.Spares(d.Used(), n - (d.pmm.usedBlocks - old(d.pmm.usedBlocks)), kernel)
    ensures old(d.Used()) <= d.Used() && (d.Used() - old(d.Used())) !! kernel
  {
    hide KernelFrames.Spares, ImageAt, FramePool.Span, FrameAllocator.Zeroed, KernelMapped, KeepsData, SystemKept;
    hide PagePut, TablesOf, EntriesOk, IsTable;
    ghost var r0, u0 := d.pmm.ram[..], d.Used();
    ImageBytes(d, data, img, kernel);
    var f := TakePage(d, kernel, n);
    if f == 0 {
      return false, false;
    }
    mapped := EnterPage(d, data, s, p, f, img, kernel, n - 1, r0, u0);
    return true, mapped;
  }

  // The loading of img has got to page p of header i. Memory was r0, with u0 in use, when it
  // began; placed says whether every page could be mapped.
  ghost predicate Progress(d: AddressSpace.PageDirectory, data: nat, img: seq<nat>, kernel: set<nat>, r0: seq<nat>,
                           u0: set<nat>, segs: seq<Segment>, i: nat, p: nat, placed: bool)
    requires i <= |segs|
    reads d, d.pmm, d.pmm.bitmap, d.pmm.ram
  {
    && d.Running() && ImageAt(d.pmm.ram[..], d.directory, Held(d, kernel), data, img)
    && |r0| == d.pmm.ram.Length && KeepsData(r0, d.pmm.ram[..], d.directory, u0 + kernel, Held(d, kernel))
    && SystemKept(r0, d.pmm.ram[..], d.directory) && u0 <= d.Used() && (d.Used() - u0) !! kernel
    && (placed ==> Placed(r0, d.pmm.ram[..], d.directory, Held(d, kernel), img, segs, i, p))
  }

  // The directory can be walked.
  ghost predicate InWindow(d: AddressSpace.PageDirectory)
    reads d, d.pmm
  {
    d.directory < WINDOW && WINDOW * ENTRIES <= d.pmm.ram.Length
  }

  // It is going to end as fate says with end frames in use, and what it still takes is not the
  // kernel's; lost is the page that could not be mapped.
  ghost predicate Heading(d: AddressSpace.PageDirectory, kernel: set<nat>, segs: seq<Segment>, i: nat, p: nat,
                          placed: bool, lost: nat, fate: Fate, end: nat)
    requires i <= |segs| && InWindow(d)
    reads d, d.pmm, d.pmm.bitmap, d.pmm.ram
  {
    var tables := TablesOf(d.pmm.ram[..], d.directory);
    var left := Takes(d.pmm.usedBlocks, d.pmm.totalBlock, tables, PlanFrom(segs, i, p));
    && d.pmm.usedBlocks + left == end && KernelFrames.Spares(d.Used(), left, kernel)
    && OnCourse(d.pmm.usedBlocks, d.pmm.totalBlock, tables, segs, i, p, placed, lost, fate)
  }

  // One turn of the page loop.
  method LoadSegmentPage(d: AddressSpace.PageDirectory, data: nat, s: Segment, p: nat, ghost img: seq<nat>,
                         ghost kernel: set<nat>, ghost r0: seq<nat>, ghost u0: set<nat>,
                         ghost segs: seq<Segment>, ghost i: nat, ghost placed: bool, ghost lost: nat,
                         ghost fate: Fate, ghost end: nat)
    returns (ok: bool, ghost mapped: bool, ghost lost': nat)
    requires i < |segs| && segs[i] == s && s.Placeable() && s.DataFits(|img|) && p < s.Pages()
    requires Progress(d, data, img, kernel, r0, u0, segs, i, p, placed)
    requires InWindow(d) && Heading(d, kernel, segs, i, p, placed, lost, fate, end)
    modifies d.pmm`usedBlocks, d.pmm.bitmap, d.pmm.ram
    ensures Progress(d, data, img, kernel, r0, u0, segs, i, p + 1, ok && mapped) && InWindow(d)
    ensures if ok then Heading(d, kernel, segs, i, p + 1, mapped, lost', fate, end)
      else fate == Exhausted && !FramePool.Guarded(d.pmm.View()) && d.pmm.usedBlocks == end
  {
    hide OnCourse, PagePut, Placed, KeepsData, HasImage, TablesOf, Walk, Spent, PlanFrom, Takes, TurnTakes;
    hide KernelMapped, KernelFrames.Spares, WellFormed;
    ghost var r1, u1 := d.pmm.ram[..], d.Used();
    ghost var used, tables := d.pmm.usedBlocks, TablesOf(d.pmm.ram[..], d.directory);
    ghost var n := Takes(used, d.pmm.totalBlock, tables, PlanFrom(segs, i, p));
    TurnAffordable(used, d.pmm.totalBlock, tables, segs, i, p);
    ok, mapped := LoadPage(d, data, s, p, img, kernel, n);
    TurnOnCourse(used, d.pmm.totalBlock, tables, d.pmm.usedBlocks, TablesOf(d.pmm.ram[..], d.directory),
                 segs, i, p, placed, lost, fate, ok, mapped);
    TurnSpends(used, d.pmm.totalBlock, tables, d.pmm.usedBlocks, TablesOf(d.pmm.ram[..], d.directory),
               segs, i, p, ok, mapped);
    lost' := if mapped then lost else s.First() + p;
    ImageKept(r1, d.pmm.ram[..], d.directory, u1 + kernel, Held(d, kernel), data, img);
    KeepsTrans(r0, r1, d.pmm.ram[..], d.directory, u0 + kernel, u1 + kernel, Held(d, kernel));
    if ok && mapped {
      PagePlaced(r0, r1, d.pmm.ram[..], d.directory, u1 + kernel, Held(d, kernel), img, segs, i, p);
    }
  }

  // The page loop of one segment.
  method LoadSegment(d: AddressSpace.PageDirectory, data: nat, s: Segment, ghost img: seq<nat>,
                     ghost kernel: set<nat>, ghost r0: seq<nat>, ghost u0: set<nat>,
                     ghost segs: seq<Segment>, ghost i: nat, ghost placed: bool, ghost lost: nat,
                     ghost fate: Fate, ghost end: nat)
    returns (ok: bool, ghost mapped: bool, ghost lost': nat)
    requires i < |segs| && segs[i] == s && s.Loads() && s.Placeable() && s.DataFits(|img|)
    requires Progress(d, data, img, kernel, r0, u0, segs, i, 0, placed)
    requires InWindow(d) && Heading(d, kernel, segs, i, 0, placed, lost, fate, end)
    modifies d.pmm`usedBlocks, d.pmm.bitmap, d.pmm.ram
    ensures Progress(d, data, img, kernel, r0, u0, segs, i, s.Pages(), ok && mapped) && InWindow(d)
    ensures if ok then Heading(d, kernel, segs, i, s.Pages(), mapped, lost', fate, end)
      else fate == Exhausted && !FramePool.Guarded(d.pmm.View()) && d.pmm.usedBlocks == end
  {
    hide Progress, Heading, InWindow;
    var numPages := (s.memsz + PAGE_SIZE - 1) % U32 / PAGE_SIZE;
    mapped, lost' := placed, lost;
    for p := 0 to numPages
      invariant Progress(d, data, img, kernel, r0, u0, segs, i, p, mapped)
      invariant InWindow(d) && Heading(d, kernel, segs, i, p, mapped, lost', fate, end)
    {
      ok, mapped, lost' := LoadSegmentPage(d, data, s, p, img, kernel, r0, u0, segs, i, mapped, lost', fate, end);
      if !ok {
        NotPlaced(d, data, img, kernel, r0, u0, segs, i, p + 1, s.Pages());
        return false, mapped, lost';
      }
    }
    ok := true;
  }

  // When a page could not be placed, how far the loading got does not matter.
  lemma NotPlaced(d: AddressSpace.PageDirectory, data: nat, img: seq<nat>, kernel: set<nat>,
                  r0: seq<nat>, u0: set<nat>, segs: seq<Segment>, i: nat, p: nat, p': nat)
    requires i <= |segs| && Progress(d, data, img, kernel, r0, u0, segs, i, p, false)
    ensures Progress(d, data, img, kernel, r0, u0, segs, i, p', false)
    ensures i < |segs| ==> Progress(d, data, img, kernel, r0, u0, segs, i + 1, 0, false)
  {
  }

  lemma HeaderDone(d: AddressSpace.PageDirectory, data: nat, img: seq<nat>, kernel: set<nat>,
                   r0: seq<nat>, u0: set<nat>, segs: seq<Segment>, i: nat, placed: bool)
    requires i < |segs| && Progress(d, data, img, kernel, r0, u0, segs, i, segs[i].Pages(), placed)
    ensures Progress(d, data, img, kernel, r0, u0, segs, i + 1, 0, placed)
  {
    if placed {
      NextSegment(r0, d.pmm.ram[..], d.directory, Held(d, kernel), img, segs, i);
    }
  }

  lemma HeadingOn(d: AddressSpace.PageDirectory, kernel: set<nat>, segs: seq<Segment>, i: nat,
                  placed: bool, lost: nat, fate: Fate, end: nat)
    requires i < |segs| && InWindow(d) && Heading(d, kernel, segs, i, segs[i].Pages(), placed, lost, fate, end)
    ensures Heading(d, kernel, segs, i + 1, 0, placed, lost, fate, end)
  {
    assert PlanFrom(segs, i, segs[i].Pages()) == PlanFrom(segs, i + 1, 0);
  }

  // The program header i, as the image has it.
  method ReadHeader(ram: array<nat>, data: nat, i: nat, ghost img: seq<nat>) returns (s: Segment)
    requires HasImage(ram[..], data, img) && Loadable(img) && CheckHeader(img) == Loaded && i < Count(img)
    ensures s == Segments(img)[i] && s.Placeable() && s.DataFits(|img|)
  {
    hide HasImage, Le16, Le32, CheckHeader, SegmentAt;
    HeaderIs(img, i);
    var phoff := ReadWord(ram, data, 28, img);
    var phentsize := ReadHalf(ram, data, 42, img);
    s := ReadSegment(ram, data, phoff + i * phentsize, img);
  }

  lemma HeaderIs(img: seq<nat>, i: nat)
    requires Loadable(img) && CheckHeader(img) == Loaded && i < Count(img)
    ensures HeaderAt(img, i) + 24 <= |img|
    ensures var s := SegmentAt(img, HeaderAt(img, i)); s == Segments(img)[i] && s.Placeable() && s.DataFits(|img|)
  {
    hide Le16, Le32, CheckHeader;
    assert Segments(img)[i] in Segments(img);
  }

  // One program header: loaded when it is PT_LOAD, else passed over.
  method LoadHeader(d: AddressSpace.PageDirectory, data: nat, i: nat, ghost img: seq<nat>,
                    ghost kernel: set<nat>, ghost r0: seq<nat>, ghost u0: set<nat>, ghost segs: seq<Segment>,
                    ghost placed: bool, ghost lost: nat, ghost fate: Fate, ghost end: nat)
    returns (loads: bool, ok: bool, ghost mapped: bool, ghost lost': nat)
    requires Loadable(img) && CheckHeader(img) == Loaded && segs == Segments(img) && i < |segs|
    requires Progress(d, data, img, kernel, r0, u0, segs, i, 0, placed)
    requires InWindow(d) && Heading(d, kernel, segs, i, 0, placed, lost, fate, end)
    modifies d.pmm`usedBlocks, d.pmm.bitmap, d.pmm.ram
    ensures Progress(d, data, img, kernel, r0, u0, segs, i + 1, 0, ok && mapped) && InWindow(d)
    ensures loads == (segs[i].kind == 1) && (!ok ==> loads)
    ensures if ok then Heading(d, kernel, segs, i + 1, 0, mapped, lost', fate, end)
      else fate == Exhausted && !FramePool.Guarded(d.pmm.View()) && d.pmm.usedBlocks == end
  {
    hide Progress, Heading, InWindow, HasImage, CheckHeader, SegmentAt, Le16;
    ImageOfProgress(d, data, img, kernel, r0, u0, segs, i, placed);
    var s := ReadHeader(d.pmm.ram, data, i, img);
    ok, mapped, lost' := true, placed, lost;
    loads := s.kind == 1;
    if loads {
      ok, mapped, lost' := LoadSegment(d, data, s, img, kernel, r0, u0, segs, i, placed, lost, fate, end);
    }
    HeaderDone(d, data, img, kernel, r0, u0, segs, i, ok && mapped);
    if ok {
      HeadingOn(d, kernel, segs, i, mapped, lost', fate, end);
    }
  }

  lemma ImageOfProgress(d: AddressSpace.PageDirectory, data: nat, img: seq<nat>, kernel: set<nat>,
                        r0: seq<nat>, u0: set<nat>, segs: seq<Segment>, i: nat, placed: bool)
    requires i <= |segs| && Progress(d, data, img, kernel, r0, u0, segs, i, 0, placed)
    ensures HasImage(d.pmm.ram[..], data, img)
  {
  }

  // How a load is going to end, from what can be counted now.
  ghost function FateOf(d: AddressSpace.PageDirectory, segs: seq<Segment>): Fate
    requires InWindow(d)
    reads d, d.pmm, d.pmm.ram
  {
    Outcome(d.pmm.usedBlocks, d.pmm.totalBlock, TablesOf(d.pmm.ram[..], d.directory), Plan(segs))
  }

  // The frames it is going to take.
  ghost function TakesOf(d: AddressSpace.PageDirectory, segs: seq<Segment>): nat
    requires InWindow(d)
    reads d, d.pmm, d.pmm.ram
  {
    Takes(d.pmm.usedBlocks, d.pmm.totalBlock, TablesOf(d.pmm.ram[..], d.directory), Plan(segs))
  }

  // Those are not the kernel's when there is room for the whole load below the kernel.
  lemma LoadsBelowKernel(d: AddressSpace.PageDirectory, segs: seq<Segment>, kernel: set<nat>)
    requires d.Valid() && d.pmm.usedBlocks <= d.pmm.totalBlock
    requires d.pmm.usedBlocks + Need(TablesOf(d.pmm.ram[..], d.directory), Plan(segs)) <= KERNEL_FRAME
    requires KernelFrames.IsKernel(kernel)
    ensures KernelFrames.Spares(d.Used(), TakesOf(d, segs), kernel)
  {
    hide TablesOf, Need, Takes, Plan, KernelFrames.Spares, KernelFrames.FreeBelow;
    TakesWhatIsLeft(d.pmm.usedBlocks, d.pmm.totalBlock, TablesOf(d.pmm.ram[..], d.directory), Plan(segs));
    KernelFrames.FreeBelowAtLeast(d.Used(), KERNEL_FRAME);
    KernelFrames.LowFramesSpare(d.Used(), TakesOf(d, segs), kernel);
  }

  lemma StartOfLoading(d: AddressSpace.PageDirectory, data: nat, img: seq<nat>, kernel: set<nat>, segs: seq<Segment>)
    requires d.Running() && ImageAt(d.pmm.ram[..], d.directory, Held(d, kernel), data, img)
    requires KernelFrames.Spares(d.Used(), TakesOf(d, segs), kernel)
    ensures Progress(d, data, img, kernel, d.pmm.ram[..], d.Used(), segs, 0, 0, true) && InWindow(d)
    ensures Heading(d, kernel, segs, 0, 0, true, 0, FateOf(d, segs), d.pmm.usedBlocks + TakesOf(d, segs))
  {
    hide KernelFrames.Spares, Takes, Outcome, PlanFrom, KernelMapped;
    forall q | 0 <= q < PAGES
      ensures PlacedAt(d.pmm.ram[..], d.pmm.ram[..], d.directory, Held(d, kernel), img, segs, 0, 0, q)
    {
    }
  }

  // The loop over the program headers.
  method LoadSegments(d: AddressSpace.PageDirectory, data: nat, phnum: nat, ghost img: seq<nat>,
                      ghost kernel: set<nat>, ghost r0: seq<nat>, ghost u0: set<nat>,
                      ghost segs: seq<Segment>, ghost fate: Fate, ghost end: nat)
    returns (loaded: nat, ok: bool, ghost mapped: bool, ghost lost: nat)
    requires Loadable(img) && CheckHeader(img) == Loaded && segs == Segments(img) && phnum == |segs|
    requires Progress(d, data, img, kernel, r0, u0, segs, 0, 0, true)
    requires InWindow(d) && Heading(d, kernel, segs, 0, 0, true, 0, fate, end)
    modifies d.pmm`usedBlocks, d.pmm.bitmap, d.pmm.ram
    ensures Progress(d, data, img, kernel, r0, u0, segs, |segs|, 0, ok && mapped) && InWindow(d)
    ensures ok ==> (loaded == 0 <==> AllSkipped(segs))
    ensures !ok ==> !AllSkipped(segs)
    ensures if ok then Heading(d, kernel, segs, |segs|, 0, mapped, lost, fate, end)
      else fate == Exhausted && !FramePool.Guarded(d.pmm.View()) && d.pmm.usedBlocks == end
  {
    hide Progress, Segments, Loadable, CheckHeader, Segment.Pages, Heading, InWindow;
    loaded, mapped, lost := 0, true, 0;
    for i := 0 to phnum
      invariant Progress(d, data, img, kernel, r0, u0, segs, i, 0, mapped)
      invariant InWindow(d) && Heading(d, kernel, segs, i, 0, mapped, lost, fate, end)
      invariant loaded == 0 <==> forall k :: 0 <= k < i ==> segs[k].kind != 1
    {
      var loads;
      loads, ok, mapped, lost := LoadHeader(d, data, i, img, kernel, r0, u0, segs, mapped, lost, fate, end);
      if !ok {
        AllNotPlaced(d, data, img, kernel, r0, u0, segs, i + 1);
        return loaded, false, mapped, lost;
      }
      if loads {
        loaded := loaded + 1;
      }
    }
    ok := true;
  }

  lemma AllNotPlaced(d: AddressSpace.PageDirectory, data: nat, img: seq<nat>, kernel: set<nat>,
                     r0: seq<nat>, u0: set<nat>, segs: seq<Segment>, i: nat)
    requires i <= |segs| && Progress(d, data, img, kernel, r0, u0, segs, i, 0, false)
    ensures Progress(d, data, img, kernel, r0, u0, segs, |segs|, 0, false)
  {
  }

  // At the end of the loops: all pages are placed, or the last one is not mapped at all.
  lemma Arrived(d: AddressSpace.PageDirectory, kernel: set<nat>, segs: seq<Segment>,
                placed: bool, lost: nat, fate: Fate, end: nat)
    requires InWindow(d) && Heading(d, kernel, segs, |segs|, 0, placed, lost, fate, end)
    ensures fate == (if placed then AllMapped else LastUnmapped) && d.pmm.usedBlocks == end
    ensures !placed ==> Plan(segs) != [] && lost == Last(segs)
    ensures !placed && lost < PAGES ==> Walk(d.pmm.ram[..], d.directory, lost) == None
  {
  }

  // The last page of all.
  function Last(segs: seq<Segment>): nat
    requires Plan(segs) != []
  {
    Plan(segs)[|Plan(segs)| - 1]
  }

  // elf_load, in a pool that has room for the load beside the kernel's frames. How it ends is
  // settled before it begins. Whatever the outcome, no frame that was in use or is the kernel's,
  // and held no table, has changed, the image among them; none of the kernel's is handed out; and
  // the pages outside user space translate as before, those of the kernel among them. When all
  // pages are mapped every page holds what the headers put there; when the last one is not, the
  // loader still reports success.
  method Load(d: AddressSpace.PageDirectory, data: nat, ghost img: seq<nat>, ghost kernel: set<nat>)
    returns (code: Code, entry: nat)
    requires d.Running() && ImageAt(d.pmm.ram[..], d.directory, Held(d, kernel), data, img) && Loadable(img)
    requires KernelFrames.IsKernel(kernel)
    requires CheckHeader(img) == Loaded ==> KernelFrames.Spares(d.Used(), TakesOf(d, Segments(img)), kernel)
    modifies d.pmm`usedBlocks, d.pmm.bitmap, d.pmm.ram
    ensures d.Running()
    ensures KeepsData(old(d.pmm.ram[..]), d.pmm.ram[..], d.directory, old(Held(d, kernel)), Held(d, kernel))
    ensures ImageAt(d.pmm.ram[..], d.directory, Held(d, kernel), data, img)
    ensures old(d.Used()) <= d.Used() && (d.Used() - old(d.Used())) !! kernel
    ensures SystemKept(old(d.pmm.ram[..]), d.pmm.ram[..], d.directory)
    ensures CheckHeader(img) != Loaded ==> code == CheckHeader(img) && d.pmm.ram[..] == old(d.pmm.ram[..])
    ensures CheckHeader(img) != Loaded ==> d.Used() == old(d.Used()) && d.pmm.usedBlocks == old(d.pmm.usedBlocks)
    ensures CheckHeader(img) == Loaded ==>
      d.pmm.usedBlocks == old(d.pmm.usedBlocks + TakesOf(d, Segments(img)))
    ensures CheckHeader(img) == Loaded ==>
      code == (if old(FateOf(d, Segments(img))) == Exhausted then OutOfMemory
               else if NoLoadHeader(img) then NoSegment else Loaded)
    ensures code == OutOfMemory ==> !FramePool.Guarded(d.pmm.View())
    ensures code == Loaded ==> entry == Entry(img)
    ensures code == Loaded && old(FateOf(d, Segments(img))) == AllMapped ==>
      Placed(old(d.pmm.ram[..]), d.pmm.ram[..], d.directory, Held(d, kernel), img, Segments(img), Count(img), 0)
    ensures code == Loaded && old(FateOf(d, Segments(img))) == LastUnmapped ==>
      Plan(Segments(img)) != [] && Last(Segments(img)) < PAGES
      && Walk(d.pmm.ram[..], d.directory, Last(Segments(img))) == None
  {
    hide ImageAt, KeepsData, Placed, Segments, AllSkipped, Le32, WellFormed, Plan, Outcome, Walk, SystemKept, TablesOf;
    hide KernelFrames.Spares, TakesOf, KernelMapped, NoLoadHeader;
    ImageBytes(d, data, img, kernel);
    code := ValidateHeader(d.pmm.ram, data, img);
    entry := 0;
    if code == Loaded {
      NoLoadIsSkipped(img);
      code, entry := LoadChecked(d, data, img, kernel, Segments(img));
    }
  }

  lemma ImageBytes(d: AddressSpace.PageDirectory, data: nat, img: seq<nat>, kernel: set<nat>)
    requires d.Valid() && ImageAt(d.pmm.ram[..], d.directory, Held(d, kernel), data, img)
    ensures HasImage(d.pmm.ram[..], data, img) && InWindow(d)
    ensures KeepsData(d.pmm.ram[..], d.pmm.ram[..], d.directory, Held(d, kernel), Held(d, kernel))
    ensures SystemKept(d.pmm.ram[..], d.pmm.ram[..], d.directory)
  {
  }

  lemma ProgressMeans(d: AddressSpace.PageDirectory, data: nat, img: seq<nat>, kernel: set<nat>,
                      r0: seq<nat>, u0: set<nat>, segs: seq<Segment>, placed: bool)
    requires Progress(d, data, img, kernel, r0, u0, segs, |segs|, 0, placed)
    ensures d.Running() && ImageAt(d.pmm.ram[..], d.directory, Held(d, kernel), data, img)
    ensures |r0| == d.pmm.ram.Length && KeepsData(r0, d.pmm.ram[..], d.directory, u0 + kernel, Held(d, kernel))
    ensures SystemKept(r0, d.pmm.ram[..], d.directory) && u0 <= d.Used() && (d.Used() - u0) !! kernel
    ensures placed ==> Placed(r0, d.pmm.ram[..], d.directory, Held(d, kernel), img, segs, |segs|, 0)
  {
  }

  // elf_load behind the header checks.
  method LoadChecked(d: AddressSpace.PageDirectory, data: nat, ghost img: seq<nat>, ghost kernel: set<nat>,
                     ghost segs: seq<Segment>)
    returns (code: Code, entry: nat)
    requires d.Running() && ImageAt(d.pmm.ram[..], d.directory, Held(d, kernel), data, img)
    requires Loadable(img) && CheckHeader(img) == Loaded && segs == Segments(img)
    requires KernelFrames.Spares(d.Used(), TakesOf(d, segs), kernel)
    modifies d.pmm`usedBlocks, d.pmm.bitmap, d.pmm.ram
    ensures d.Running()
    ensures KeepsData(old(d.pmm.ram[..]), d.pmm.ram[..], d.directory, old(Held(d, kernel)), Held(d, kernel))
    ensures ImageAt(d.pmm.ram[..], d.directory, Held(d, kernel), data, img)
    ensures old(d.Used()) <= d.Used() && (d.Used() - old(d.Used())) !! kernel
    ensures SystemKept(old(d.pmm.ram[..]), d.pmm.ram[..], d.directory)
    ensures d.pmm.usedBlocks == old(d.pmm.usedBlocks + TakesOf(d, segs))
    ensures code == (if old(FateOf(d, segs)) == Exhausted then OutOfMemory
                     else if AllSkipped(segs) then NoSegment else Loaded)
    ensures code == OutOfMemory ==> !FramePool.Guarded(d.pmm.View())
    ensures code == Loaded ==> entry == Entry(img)
    ensures code == Loaded && old(FateOf(d, segs)) == AllMapped ==>
      Placed(old(d.pmm.ram[..]), d.pmm.ram[..], d.directory, Held(d, kernel), img, segs, |segs|, 0)
    ensures code == Loaded && old(FateOf(d, segs)) == LastUnmapped ==>
      Plan(segs) != [] && Last(segs) < PAGES && Walk(d.pmm.ram[..], d.directory, Last(segs)) == None
  {
    hide ImageAt, KeepsData, Placed, AllSkipped, Le32, Le16, WellFormed, CheckHeader, Progress, Heading, InWindow;
    hide Plan, Outcome, FateOf, SystemKept, TablesOf, Walk, KernelFrames.Spares, TakesOf, KernelMapped;
    ImageBytes(d, data, img, kernel);
    StartOfLoading(d, data, img, kernel, segs);
    ghost var fate, r0, u0, end := FateOf(d, segs), d.pmm.ram[..], d.Used(), d.pmm.usedBlocks + TakesOf(d, segs);
    entry := 0;
    var phnum := ReadHalf(d.pmm.ram, data, 44, img);
    var loaded, ok;
    ghost var mapped, lost;
    loaded, ok, mapped, lost := LoadSegments(d, data, phnum, img, kernel, r0, u0, segs, fate, end);
    ProgressMeans(d, data, img, kernel, r0, u0, segs, ok && mapped);
    if !ok {
      code := OutOfMemory;
      return;
    }
    Arrived(d, kernel, segs, mapped, lost, fate, end);
    PlanInSpace(img, segs);
    if loaded == 0 {
      code := NoSegment;
    } else {
      code := Loaded;
      ImageBytes(d, data, img, kernel);
      entry := ReadWord(d.pmm.ram, data, 24, img);
    }
  }

  lemma PlanInSpace(img: seq<nat>, segs: seq<Segment>)
    requires Loadable(img) && CheckHeader(img) == Loaded && segs == Segments(img)
    ensures forall q :: q in Plan(segs) ==> q < PAGES
    ensures Plan(segs) != [] ==> Last(segs) < PAGES
  {
    hide Segments, CheckHeader, PlanFrom, Segment.Placeable, Segment.DataFits;
    forall i | 0 <= i < |segs|
      ensures segs[i].Placeable()
    {
      assert segs[i] in segs;
    }
    PlanBelow(segs, 0, 0);
    assert Plan(segs) != [] ==> Last(segs) in Plan(segs);
  }

  lemma {:induction false} PlanBelow(segs: seq<Segment>, i: nat, p: nat)
    requires i <= |segs| && forall k :: 0 <= k < |segs| ==> segs[k].Placeable()
    ensures forall q :: q in PlanFrom(segs, i, p) ==> q < PAGES
    decreases |segs| - i, if i < |segs| && p < segs[i].Pages() then segs[i].Pages() - p else 0
  {
    if i < |segs| {
      if p < segs[i].Pages() {
        PlanBelow(segs, i, p + 1);
      } else {
        PlanBelow(segs, i + 1, 0);
      }
    }
  }
}
