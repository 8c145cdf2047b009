// The physical memory manager as pmm.c runs it: the bitmap words and the counter changed in
// place, and the frames that are handed out cleared in memory.
module FrameAllocator {
  import opened Basics
  import opened FrameBitmap
  import opened FramePool

  const INVALID_FRAME: int := -1
  const FRAME_WORDS: nat := 1024

  method ShiftedOne(j: nat) returns (m: bv32)
    requires j < 32
    ensures m == Mask(j)
  {
    MaskIsShift(j);
    m := (1 as bv32) << j;
  }

  class FrameManager {
    const bitmap: array<bv32>
    const ram: array<nat>
    var reach: nat         // the frames that their own addresses reach: those mapped identically
    var totalBlock: nat
    var usedBlocks: nat

    ghost predicate Valid()
      reads this
    {
      && bitmap as object != ram as object
      && totalBlock <= bitmap.Length && totalBlock <= 0x8000
      && 32 * FRAME_WORDS * totalBlock <= ram.Length
    }

    ghost function View(): Pool
      reads this, bitmap
    {
      Pool(bitmap[..], totalBlock, usedBlocks)
    }

    constructor (bitmap: array<bv32>, ram: array<nat>, reach: nat)
      ensures this.bitmap == bitmap && this.ram == ram && this.reach == reach && totalBlock == 0 && usedBlocks == 0
    {
      this.bitmap, this.ram, this.reach := bitmap, ram, reach;
      totalBlock, usedBlocks := 0, 0;
    }

    // test_bit.
    method TestBit(bit: nat) returns (r: bool)
      requires bit / 32 < bitmap.Length
      ensures r == IsUsed(bitmap[..], bit)
    {
      var m := ShiftedOne(bit % 32);
      r := Test(bitmap[bit / 32], m);
    }

    // set_bit.
    method MarkUsed(bit: nat)
      requires bit / 32 < bitmap.Length
      modifies bitmap
      ensures bitmap[..] == SetBit(old(bitmap[..]), bit)
    {
      var m := ShiftedOne(bit % 32);
      bitmap[bit / 32] := bitmap[bit / 32] | m;
    }

    // unset_bit.
    method MarkFree(bit: nat)
      requires bit / 32 < bitmap.Length
      modifies bitmap
      ensures bitmap[..] == ClearBit(old(bitmap[..]), bit)
    {
      var m := ShiftedOne(bit % 32);
      bitmap[bit / 32] := bitmap[bit / 32] & !m;
    }

    // The step of reserve_memory_block and of allocate_block.
    method SetAndCount(bit: nat)
      requires bit / 32 < bitmap.Length && !IsUsed(bitmap[..], bit)
      modifies this`usedBlocks, bitmap
      ensures View() == SetOne(old(View()), bit)
    {
      MarkUsed(bit);
      usedBlocks := (usedBlocks + 1) % U32;
    }

    // The step of deallocate_memory_by_size.
    method ClearAndCount(bit: nat)
      requires bit / 32 < bitmap.Length
      modifies this`usedBlocks, bitmap
      ensures View() == ClearOne(old(View()), bit)
    {
      MarkFree(bit);
      usedBlocks := (usedBlocks + U32 - 1) % U32;
    }

    // get_free_memory_block: the lowest free frame.
    method GetFreeMemoryBlock() returns (r: int)
      requires Valid()
      ensures r == INVALID_FRAME ==> !HasRun(View(), 1)
      ensures r != INVALID_FRAME ==> r >= 0 && Lowest(View(), r, 1)
    {
      for i := 0 to totalBlock
        invariant forall g: nat :: g < 32 * i ==> !Run(View(), g, 1)
      {
        if bitmap[i] != 0xFFFF_FFFF {
          for j := 0 to 32
            invariant forall g: nat :: g < 32 * i + j ==> !Run(View(), g, 1)
          {
            var bit := i * 32 + j;
            var taken := TestBit(bit);
            if !taken {
              return bit;
            }
            assert !Run(View(), bit, 1);
          }
        } else {
          FullWord(View(), i, 1);
        }
      }
      return INVALID_FRAME;
    }

    // The counting loop inside get_free_frame_by_size.
    method CountRun(bit: nat, size: nat) returns (found: bool)
      requires Valid() && size > 0 && bit < 32 * totalBlock && ScanStays(View(), size)
      requires forall g: nat :: g < bit ==> !Run(View(), g, size)
      ensures found == Run(View(), bit, size)
    {
      var free, count := 0, 0;
      while count <= size
        invariant free == count < size && bit + count <= 32 * totalBlock && Clear(bitmap[..], bit, count)
        decreases size - count
      {
        StaysInside(View(), bit, count, size);
        var taken := TestBit(bit + count);
        if taken {
          return false;
        }
        free := free + 1;
        if free == size {
          return true;
        }
        count := count + 1;
      }
      assert false;
    }

    // get_free_frame_by_size: the lowest frame that starts a clear run of that size.
    method GetFreeFrameBySize(size: nat) returns (r: int)
      requires Valid()
      requires size > 0 && Guarded(View()) ==> ScanStays(View(), size)
      ensures r == INVALID_FRAME ==> size == 0 || !Guarded(View()) || !HasRun(View(), size)
      ensures r != INVALID_FRAME ==> r >= 0 && size > 0 && Guarded(View()) && Lowest(View(), r, size)
    {
      if size == 0 {
        return INVALID_FRAME;
      } else if usedBlocks >= totalBlock {
        return INVALID_FRAME;
      } else if size == 1 {
        r := GetFreeMemoryBlock();
        return;
      }
      for i := 0 to totalBlock
        invariant forall g: nat :: g < 32 * i ==> !Run(View(), g, size)
      {
        if bitmap[i] != 0xFFFF_FFFF {
          for j := 0 to 32
            invariant forall g: nat :: g < 32 * i + j ==> !Run(View(), g, size)
          {
            var bit := i * 32 + j;
            var taken := TestBit(bit);
            if !taken {
              var found := CountRun(bit, size);
              if found {
                return bit;
              }
            }
          }
        } else {
          FullWord(View(), i, size);
        }
      }
      return INVALID_FRAME;
    }

    // reserve_memory_block.
    method ReserveMemoryBlock(base: nat, size: nat)
      requires Range(base, size).First() + Range(base, size).Pages() <= 32 * bitmap.Length
      modifies this`usedBlocks, bitmap
      ensures View() == Reserve(old(View()), Range(base, size).First(), Range(base, size).Pages())
    {
      var startPage := base / FRAME_SIZE;
      var pages := (size + FRAME_SIZE - 1) / FRAME_SIZE;
      if usedBlocks >= totalBlock {
        return;
      }
      ReserveLoop(startPage, pages);
    }

    method ReserveLoop(startPage: nat, pages: nat)
      requires startPage + pages <= 32 * bitmap.Length
      modifies this`usedBlocks, bitmap
      ensures View() == SetRange(old(View()), startPage, pages)
    {
      ghost var p := View();
      for i := 0 to pages
        invariant View() == SetRange(p, startPage, i)
      {
        ReserveOne(startPage + i);
      }
    }

    method ReserveOne(page: nat)
      requires page / 32 < bitmap.Length
      modifies this`usedBlocks, bitmap
      ensures View() == SetOne(old(View()), page)
    {
      var taken := TestBit(page);
      if !taken {
        SetAndCount(page);
      }
    }

    // deallocate_memory_by_size.
    method DeallocateMemoryBySize(base: nat, size: nat)
      requires Range(base, size).First() + Range(base, size).Pages() <= 32 * bitmap.Length
      modifies this`usedBlocks, bitmap
      ensures View() == ClearRange(old(View()), Range(base, size).First(), Range(base, size).Pages())
    {
      FreeLoop(base / FRAME_SIZE, (size + FRAME_SIZE - 1) / FRAME_SIZE);
    }

    method FreeLoop(start: nat, pages: nat)
      requires start + pages <= 32 * bitmap.Length
      modifies this`usedBlocks, bitmap
      ensures View() == ClearRange(old(View()), start, pages)
    {
      ghost var p := View();
      for i := 0 to pages
        invariant View() == ClearRange(p, start, i)
      {
        ClearAndCount(start + i);
      }
    }

    // The bit loop of allocate_block.
    method TakeRun(frame: nat, size: nat)
      requires frame + size <= 32 * bitmap.Length && Clear(bitmap[..], frame, size)
      modifies this`usedBlocks, bitmap
      ensures View() == SetRange(old(View()), frame, size)
    {
      hide SetOne;
      ghost var p := View();
      for i := 0 to size
        invariant View() == SetRange(p, frame, i)
      {
        SetRangeUsed(p, frame, i, frame + i);
        SetAndCount(frame + i);
      }
    }

    // memset of whole frames to zero, through their own addresses. Behind the frames that those
    // reach it changes whatever is mapped there.
    method ClearFrames(frame: nat, size: nat)
      requires FRAME_WORDS * (frame + size) <= ram.Length
      modifies ram
      ensures frame + size <= reach ==> Zeroed(old(ram[..]), ram[..], frame, size)
    {
      if frame + size > reach {
        modify ram;
        return;
      }
      for a := FRAME_WORDS * frame to FRAME_WORDS * (frame + size)
        invariant forall b :: FRAME_WORDS * frame <= b < a ==> ram[b] == 0
        invariant forall b :: 0 <= b < ram.Length && !(FRAME_WORDS * frame <= b < a) ==> ram[b] == old(ram[b])
      {
        ram[a] := 0;
      }
    }

    // allocate_block: the lowest clear run, marked used and, as far as its address is within
    // reach, cleared; 0 when there is none.
    method AllocateBlock(size: nat) returns (addr: nat, ghost frame: nat)
      requires Valid() && Inv(View()) && (Guarded(View()) ==> usedBlocks + size < U32)
      requires size > 0 && Guarded(View()) ==> ScanStays(View(), size)
      modifies this`usedBlocks, bitmap, ram
      ensures Valid() && Inv(View())
      ensures if size > 0 && old(usedBlocks < totalBlock && HasRun(View(), size))
        then addr == frame * FRAME_SIZE && Allocated(old(View()), View(), frame, size)
          && (frame + size <= reach ==> Zeroed(old(ram[..]), ram[..], frame, size))
        else addr == 0 && View() == old(View()) && ram[..] == old(ram[..])
    {
      var r := GetFreeFrameBySize(size);
      if r == INVALID_FRAME {
        return 0, 0;
      }
      TakeAndClear(r, size);
      return r * FRAME_SIZE, r;
    }

    method TakeAndClear(frame: nat, size: nat)
      requires Valid() && Inv(View()) && usedBlocks + size < U32 && Lowest(View(), frame, size)
      modifies this`usedBlocks, bitmap, ram
      ensures Valid() && Inv(View()) && Allocated(old(View()), View(), frame, size)
      ensures frame + size <= reach ==> Zeroed(old(ram[..]), ram[..], frame, size)
    {
      RunInRam(View(), frame, size, ram.Length);
      AllocateFrames(View(), frame, size);
      ghost var was, q := ram[..], SetRange(View(), frame, size);
      TakeRun(frame, size);
      assert View() == q && ram[..] == was;
      ClearFrames(frame, size);
      assert View() == q;
    }

    // get_memory_info.
    method GetMemoryInfo(regions: seq<Region>) returns (totalMemory: nat)
      ensures totalMemory == TotalMemory(regions) == UsableBytes(regions) % 0x1_0000_0000
    {
      TotalIsUsable(regions);
      totalMemory := 0;
      for i := 0 to |regions|
        invariant totalMemory == TotalMemory(regions[..i])
      {
        assert regions[..i + 1][..i] == regions[..i];
        if regions[i].kind == 1 {
          totalMemory := (totalMemory + regions[i].lengthHigh * U32 + regions[i].lengthLow) % U32;
        }
      }
      assert regions[..|regions|] == regions;
    }

    // The clearing of setup_memory_bitmap.
    method ClearBitmap(bytes: nat)
      requires bytes <= 4 * bitmap.Length
      modifies bitmap
      ensures bitmap[..] == ClearBytes(old(bitmap[..]), bytes)
    {
      for i := 0 to bytes / 4
        invariant forall k :: 0 <= k < i ==> bitmap[k] == 0
        invariant forall k :: i <= k < bitmap.Length ==> bitmap[k] == old(bitmap[k])
      {
        bitmap[i] := 0;
      }
      if bytes % 4 != 0 {
        bitmap[bytes / 4] := KeepHigh(bitmap[bytes / 4], bytes % 4);
      }
    }

    // INIT_MEMORY.
    method InitMemory(regions: seq<Region>, kernelStart: nat, kernelEnd: nat, bitmapAddr: nat, modules: seq<Range>)
      requires usedBlocks == 0 && kernelStart <= kernelEnd
      requires BitmapBytes(TotalMemory(regions)) <= 4 * bitmap.Length
      requires InMap(View(), BootRanges(kernelStart, kernelEnd, bitmapAddr, BitmapBytes(TotalMemory(regions)), modules))
      modifies this`totalBlock, this`usedBlocks, bitmap
      ensures var memory := TotalMemory(regions);
        View() == ReserveAll(Pool(ClearBytes(old(bitmap[..]), BitmapBytes(memory)), WordsOf(memory), 0),
                             BootRanges(kernelStart, kernelEnd, bitmapAddr, BitmapBytes(memory), modules))
      ensures UsableBytes(regions) < U32 ==> Describes(totalBlock, UsableBytes(regions))
    {
      hide UsableBytes, Describes, SetOne;
      if UsableBytes(regions) < U32 {
        MemoryDescribed(regions);
      }
      var totalMemory := GetMemoryInfo(regions);
      var totalPages := totalMemory / FRAME_SIZE;
      var bitmapSize := (totalPages + 7) / 8;
      totalBlock := (totalPages + 31) / 32;
      ClearBitmap(bitmapSize);
      ReserveRanges(BootRanges(kernelStart, kernelEnd, bitmapAddr, bitmapSize, modules));
    }

    // reserve_memory and the module loop of INIT_MEMORY: the reservations one after the other.
    method ReserveRanges(rs: seq<Range>)
      requires InMap(View(), rs)
      modifies this`usedBlocks, bitmap
      ensures View() == ReserveAll(old(View()), rs)
    {
      for i := 0 to |rs|
        invariant InMap(View(), rs[i..]) && ReserveAll(View(), rs[i..]) == ReserveAll(old(View()), rs)
      {
        assert rs[i..][1..] == rs[i + 1..];
        ReserveMemoryBlock(rs[i].base, rs[i].size);
      }
    }
  }

  // ---------------------------------------------------------------- what allocation does

  // The lowest clear run of that size is now in use.
  ghost predicate Allocated(p: Pool, q: Pool, frame: nat, size: nat) {
    Lowest(p, frame, size) && p.words <= |p.bits| && q == SetRange(p, frame, size)
  }

  // Those frames read as zero and the rest of memory is unchanged.
  ghost predicate Zeroed(was: seq<nat>, ram: seq<nat>, frame: nat, size: nat) {
    && |ram| == |was| && FRAME_WORDS * (frame + size) <= |ram|
    && forall a :: 0 <= a < |ram| ==>
         ram[a] == if FRAME_WORDS * frame <= a < FRAME_WORDS * (frame + size) then 0 else was[a]
  }

  // ---------------------------------------------------------------- facts about scanning

  lemma RunInRam(p: Pool, f: nat, n: nat, length: nat)
    requires f + n <= 32 * p.words && 32 * FRAME_WORDS * p.words <= length
    ensures FRAME_WORDS * (f + n) <= length
  {
  }

  lemma FullWord(p: Pool, i: nat, size: nat)
    requires i < |p.bits| && p.bits[i] == 0xFFFF_FFFF && size > 0
    ensures forall g: nat :: 32 * i <= g < 32 * i + 32 ==> !Run(p, g, size)
  {
    forall g: nat | 32 * i <= g < 32 * i + 32
      ensures !Run(p, g, size)
    {
      BitOfConstant(g % 32);
      assert g / 32 == i && IsUsed(p.bits, g);
    }
  }

  lemma StaysInside(p: Pool, bit: nat, count: nat, size: nat)
    requires bit < 32 * p.words && bit + count <= 32 * p.words && count < size && ScanStays(p, size)
    requires Clear(p.bits, bit, count) && forall g: nat :: g < bit ==> !Run(p, g, size)
    ensures bit + count < 32 * p.words
  {
    if f: nat :| Run(p, f, size) {
      assert bit <= f;
    }
  }
}
