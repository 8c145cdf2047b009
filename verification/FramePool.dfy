// The physical memory manager of pmm.c on values: the bitmap, the number of its words, and
// the counter of used blocks that guards every allocation.
module FramePool {
  import opened Basics
  import opened FrameBitmap

  const FRAME_SIZE: nat := 4096

  // words is TOTAL_BLOCK, the number of 32-bit words that describe memory; used is
  // TOTAL_USED_BLOCKS. The bitmap can be longer than words: reservations are not range-checked.
  datatype Pool = Pool(bits: seq<bv32>, words: nat, used: nat)

  ghost function Frames(p: Pool): set<nat> { Used(p.bits, p.words) }

  // The counter is never below the number of frames in use.
  ghost predicate Inv(p: Pool) {
    p.words <= |p.bits| && |Frames(p)| <= p.used < U32
  }

  ghost predicate Exact(p: Pool) {
    p.words <= |p.bits| && |Frames(p)| == p.used < U32
  }

  predicate Guarded(p: Pool) { p.used < p.words }

  // ---------------------------------------------------------------- reserving and freeing

  function SetOne(p: Pool, f: nat): Pool
    requires f / 32 < |p.bits|
  {
    if IsUsed(p.bits, f) then p else p.(bits := SetBit(p.bits, f), used := (p.used + 1) % U32)
  }

  // The loop of reserve_memory_block; allocate_block runs it over a clear run.
  function SetRange(p: Pool, s: nat, n: nat): (r: Pool)
    requires s + n <= 32 * |p.bits|
    ensures |r.bits| == |p.bits| && r.words == p.words
    decreases n
  {
    if n == 0 then p else SetOne(SetRange(p, s, n - 1), s + n - 1)
  }

  // reserve_memory_block: the guard is tested once, before the loop.
  function Reserve(p: Pool, s: nat, n: nat): Pool
    requires s + n <= 32 * |p.bits|
  {
    if Guarded(p) then SetRange(p, s, n) else p
  }

  function ClearOne(p: Pool, f: nat): Pool
    requires f / 32 < |p.bits|
  {
    p.(bits := ClearBit(p.bits, f), used := (p.used + U32 - 1) % U32)
  }

  // deallocate_memory_by_size: the counter goes down for every page, in use or not.
  function ClearRange(p: Pool, s: nat, n: nat): (r: Pool)
    requires s + n <= 32 * |p.bits|
    ensures |r.bits| == |p.bits| && r.words == p.words
    decreases n
  {
    if n == 0 then p else ClearOne(ClearRange(p, s, n - 1), s + n - 1)
  }

  lemma SetOneUsed(q: Pool, f: nat, g: nat, r: Pool)
    requires f / 32 < |q.bits| && r == SetOne(q, f)
    ensures IsUsed(r.bits, g) == (f == g || IsUsed(q.bits, g))
  {
    if !IsUsed(q.bits, f) { SetBitUsed(q.bits, r.bits, f, g); }
  }

  lemma {:induction false} SetRangeUsed(p: Pool, s: nat, n: nat, g: nat)
    requires s + n <= 32 * |p.bits|
    ensures IsUsed(SetRange(p, s, n).bits, g) == (s <= g < s + n || IsUsed(p.bits, g))
    decreases n
  {
    hide SetOne;
    if n > 0 {
      SetRangeUsed(p, s, n - 1, g);
      SetOneUsed(SetRange(p, s, n - 1), s + n - 1, g, SetRange(p, s, n));
    }
  }

  lemma ClearOneUsed(q: Pool, f: nat, g: nat, r: Pool)
    requires f / 32 < |q.bits| && r == ClearOne(q, f)
    ensures IsUsed(r.bits, g) == (f != g && IsUsed(q.bits, g))
  {
    ClearBitUsed(q.bits, r.bits, f, g);
  }

  lemma {:induction false} ClearRangeUsed(p: Pool, s: nat, n: nat, g: nat)
    requires s + n <= 32 * |p.bits|
    ensures IsUsed(ClearRange(p, s, n).bits, g) == (!(s <= g < s + n) && IsUsed(p.bits, g))
    decreases n
  {
    hide ClearOne;
    if n > 0 {
      ClearRangeUsed(p, s, n - 1, g);
      ClearOneUsed(ClearRange(p, s, n - 1), s + n - 1, g, ClearRange(p, s, n));
    }
  }

  function Span(s: nat, n: nat): (r: set<nat>)
    ensures forall g: nat :: g in r <==> s <= g < s + n
  {
    if n == 0 then {} else Span(s, n - 1) + {s + n - 1}
  }

  lemma SetOneFrames(p: Pool, f: nat)
    requires f / 32 < |p.bits|
    ensures Frames(SetOne(p, f)) == Frames(p) + (if f < 32 * p.words then {f} else {})
  {
    var q := SetOne(p, f);
    forall g: nat
      ensures IsUsed(q.bits, g) == (f == g || IsUsed(p.bits, g))
    {
      SetOneUsed(p, f, g, q);
    }
  }

  lemma SetOneCounts(p: Pool, f: nat)
    requires Inv(p) && f / 32 < |p.bits| && p.used + 1 < U32
    ensures Inv(SetOne(p, f)) && p.used <= SetOne(p, f).used <= p.used + 1
    ensures Exact(p) && f < 32 * p.words ==> Exact(SetOne(p, f))
  {
    SetOneFrames(p, f);
    assert IsUsed(p.bits, f) && f < 32 * p.words ==> f in Frames(p);
  }

  lemma InvStep(q: Pool, f: nat, r: Pool)
    requires Inv(q) && f / 32 < |q.bits| && q.used + 1 < U32 && r == SetOne(q, f)
    ensures Inv(r) && q.used <= r.used <= q.used + 1
  {
    SetOneCounts(q, f);
  }

  // Reserving adds the frames of the range that the bitmap describes. The counter grows by at
  // least as much as the set does, and by exactly as much when the range is inside the bitmap.
  lemma {:induction false} SetRangeKeepsInv(p: Pool, s: nat, n: nat)
    requires Inv(p) && s + n <= 32 * |p.bits| && p.used + n < U32
    ensures Inv(SetRange(p, s, n)) && p.used <= SetRange(p, s, n).used <= p.used + n
    decreases n
  {
    hide SetOne;
    if n > 0 {
      SetRangeKeepsInv(p, s, n - 1);
      InvStep(SetRange(p, s, n - 1), s + n - 1, SetRange(p, s, n));
    }
  }

  lemma ExactStep(q: Pool, f: nat, r: Pool)
    requires Exact(q) && f < 32 * q.words && q.used + 1 < U32 && r == SetOne(q, f)
    ensures Exact(r)
  {
    SetOneCounts(q, f);
  }

  lemma {:induction false} SetRangeKeepsExact(p: Pool, s: nat, n: nat)
    requires Exact(p) && s + n <= 32 * p.words && p.used + n < U32
    ensures Exact(SetRange(p, s, n))
    decreases n
  {
    hide SetOne;
    if n > 0 {
      SetRangeKeepsExact(p, s, n - 1);
      SetRangeKeepsInv(p, s, n - 1);
      ExactStep(SetRange(p, s, n - 1), s + n - 1, SetRange(p, s, n));
    }
  }

  lemma SetRangeFrames(p: Pool, s: nat, n: nat)
    requires s + n <= 32 * |p.bits|
    ensures Frames(SetRange(p, s, n)) == Frames(p) + (Span(s, n) * Span(0, 32 * p.words))
  {
    forall g: nat
      ensures IsUsed(SetRange(p, s, n).bits, g) == (s <= g < s + n || IsUsed(p.bits, g))
    {
      SetRangeUsed(p, s, n, g);
    }
  }

  lemma ClearRangeFrames(p: Pool, s: nat, n: nat)
    requires s + n <= 32 * |p.bits|
    ensures Frames(ClearRange(p, s, n)) == Frames(p) - Span(s, n)
  {
    forall g: nat
      ensures IsUsed(ClearRange(p, s, n).bits, g) == (!(s <= g < s + n) && IsUsed(p.bits, g))
    {
      ClearRangeUsed(p, s, n, g);
    }
  }

  lemma DecrementStep(u: nat, n: nat)
    requires u < U32 && n > 0
    ensures ((u - (n - 1)) % U32 + U32 - 1) % U32 == (u - n) % U32
  {
    var x := (u - (n - 1)) % U32;
    if x > 0 {
      assert (u - n) % U32 == x - 1;
    } else {
      assert (u - n) % U32 == U32 - 1;
    }
  }

  lemma {:induction false} ClearRangeCounter(p: Pool, s: nat, n: nat)
    requires s + n <= 32 * |p.bits| && p.used < U32
    ensures ClearRange(p, s, n).used == (p.used - n) % U32
    decreases n
  {
    if n > 0 {
      ClearRangeCounter(p, s, n - 1);
      DecrementStep(p.used, n);
    }
  }

  lemma {:induction false} SpanSize(s: nat, n: nat)
    ensures |Span(s, n)| == n
  {
    if n > 0 { SpanSize(s, n - 1); }
  }

  lemma SizeMinus<T>(a: set<T>, b: set<T>)
    ensures |a - b| == |a| - |a * b|
    ensures |a * b| <= |b| && (|a * b| == |b| <==> b <= a)
  {
    assert a == (a - b) + (a * b);
    assert b == (b - a) + (a * b);
    assert b <= a <==> b - a == {};
  }

  lemma CountsMatch(a: set<nat>, b: set<nat>, u: nat, n: nat, v: nat)
    requires |a| == u < U32 && |b| == n < U32 && v == (u - n) % U32
    ensures |a - b| == v <==> b <= a
  {
    SizeMinus(a, b);
    WrappedDifference(u, n, |a * b|);
  }

  lemma ExactAfter(p: Pool, q: Pool, b: set<nat>, n: nat)
    requires Exact(p) && q.words == p.words && |q.bits| == |p.bits| && |b| == n < U32
    requires Frames(q) == Frames(p) - b && q.used == (p.used - n) % U32
    ensures Exact(q) <==> b <= Frames(p)
  {
    CountsMatch(Frames(p), b, p.used, n, q.used);
  }

  // Freeing keeps the counter equal to the number of frames in use exactly when all the
  // frames freed were in use.
  lemma ClearRangeExact(p: Pool, s: nat, n: nat, freed: set<nat>)
    requires Exact(p) && s + n <= 32 * |p.bits| && n < U32 && freed == Span(s, n)
    ensures Exact(ClearRange(p, s, n)) <==> freed <= Frames(p)
  {
    ClearRangeFrames(p, s, n);
    ClearRangeCounter(p, s, n);
    SpanSize(s, n);
    ExactAfter(p, ClearRange(p, s, n), freed, n);
  }

  lemma WrappedDifference(u: nat, n: nat, k: nat)
    requires u < U32 && n < U32 && k <= n && k <= u
    ensures (u - n) % U32 == u - k <==> k == n
  {
    if u >= n {
      assert (u - n) % U32 == u - n;
    } else {
      assert (u - n) % U32 == u - n + U32;
    }
  }

  // ---------------------------------------------------------------- allocating

  ghost predicate Clear(m: seq<bv32>, f: nat, n: nat) {
    forall k: nat :: f <= k < f + n ==> !IsUsed(m, k)
  }

  // What paging relies on: the counter bounds the frames in use, at most 128 MiB are managed,
  // and frame 0 is kept back.
  ghost predicate Ready(p: Pool) {
    Inv(p) && p.words <= 1024 && 0 in Frames(p)
  }

  // f starts a clear run of n frames inside the bitmap.
  ghost predicate Run(p: Pool, f: nat, n: nat) {
    f + n <= 32 * p.words && Clear(p.bits, f, n)
  }

  // The lowest frame that starts one.
  ghost predicate Lowest(p: Pool, f: nat, n: nat) {
    Run(p, f, n) && forall g: nat :: g < f ==> !Run(p, g, n)
  }

  ghost predicate HasRun(p: Pool, n: nat) { exists f: nat :: Run(p, f, n) }

  // A scan for size free frames never leaves the bitmap: there is a run to be found, or the
  // last frame the bitmap describes is in use.
  ghost predicate ScanStays(p: Pool, size: nat) {
    HasRun(p, size) || (p.words > 0 && IsUsed(p.bits, 32 * p.words - 1))
  }

  // The scan gets to frame bit, finds the next count frames free, and looks at the one behind
  // the bitmap, as it still misses some.
  ghost predicate LooksBehind(p: Pool, size: nat, bit: nat, count: nat) {
    && bit < 32 * p.words && (forall g: nat :: g < bit ==> !Run(p, g, size))
    && Clear(p.bits, bit, count) && count < size && bit + count == 32 * p.words
  }

  // It leaves the bitmap exactly when ScanStays fails.
  lemma ScanLeavesIff(p: Pool, size: nat)
    requires size > 1 && Guarded(p)
    ensures (exists bit: nat, count: nat :: LooksBehind(p, size, bit, count)) <==> !ScanStays(p, size)
  {
    if !ScanStays(p, size) {
      assert LooksBehind(p, size, 32 * p.words - 1, 1);
    } else if bit: nat, count: nat :| LooksBehind(p, size, bit, count) {
      BehindIsFree(p, size, bit, count);
    }
  }

  lemma BehindIsFree(p: Pool, size: nat, bit: nat, count: nat)
    requires LooksBehind(p, size, bit, count)
    ensures !HasRun(p, size) && !IsUsed(p.bits, 32 * p.words - 1)
  {
    assert forall f: nat :: Run(p, f, size) ==> bit <= f;
    assert bit <= 32 * p.words - 1 < bit + count;
  }

  // One empty word and a request for 33 frames.
  lemma ScanLeaves()
    ensures LooksBehind(Pool([0], 1, 0), 33, 0, 32)
  {
    forall k: nat | k < 32
      ensures !IsUsed([0], k)
    {
      BitOfConstant(k);
    }
  }

  // A word with a bit set holds a frame in use.
  lemma NonZeroWord(m: seq<bv32>, i: nat) returns (f: nat)
    requires i < |m| && m[i] != 0
    ensures f / 32 == i && IsUsed(m, f)
  {
    if forall j :: 0 <= j < 32 ==> !Bit(m[i], j) {
      forall j | 0 <= j < 32
        ensures Bit(m[i], j) == Bit(0, j)
      {
        BitOfConstant(j);
      }
      BitsDetermine(m[i], 0);
      assert false;
    }
    var j :| 0 <= j < 32 && Bit(m[i], j);
    f := 32 * i + j;
    assert f / 32 == i && f % 32 == j;
  }

  lemma {:induction false} NonZeroWords(m: seq<bv32>, n: nat)
    requires n <= |m| && forall i :: 0 <= i < n ==> m[i] != 0
    ensures |Used(m, n)| >= n
  {
    if n > 0 {
      NonZeroWords(m, n - 1);
      var f := NonZeroWord(m, n - 1);
      assert f in Used(m, n) && f !in Used(m, n - 1);
      SubsetSize(Used(m, n - 1) + {f}, Used(m, n));
    }
  }

  lemma {:induction false} SubsetSize<T>(a: set<T>, b: set<T>)
    requires a <= b
    ensures |a| <= |b|
  {
    assert b == a + (b - a);
  }

  // The guard compares frames in use with words, so it leaves one whole word free.
  lemma SomeWordIsZero(p: Pool) returns (z: nat)
    requires Inv(p) && Guarded(p)
    ensures z < p.words && p.bits[z] == 0
  {
    if forall i :: 0 <= i < p.words ==> p.bits[i] != 0 {
      NonZeroWords(p.bits, p.words);
      assert false;
    }
    z :| 0 <= z < p.words && p.bits[z] == 0;
  }

  lemma ZeroWordIsClear(m: seq<bv32>, z: nat, n: nat)
    requires z < |m| && m[z] == 0 && n <= 32
    ensures Clear(m, 32 * z, n)
  {
    forall k: nat | 32 * z <= k < 32 * z + n
      ensures !IsUsed(m, k)
    {
      assert k / 32 == z;
      BitOfConstant(k % 32);
    }
  }

  // Whenever the guard passes, a request for 1 to 32 frames can be met.
  lemma GuardMeansRun(p: Pool, n: nat)
    requires Inv(p) && p.used < p.words && 1 <= n <= 32
    ensures HasRun(p, n)
  {
    var z := SomeWordIsZero(p);
    ZeroWordIsClear(p.bits, z, n);
    assert Run(p, 32 * z, n);
  }

  // A single frame comes from the first words frames: the lowest free frame is at most the
  // number of frames in use.
  lemma LowestIsLow(p: Pool, f: nat)
    requires Inv(p) && Guarded(p) && Lowest(p, f, 1)
    ensures f <= |Frames(p)| < p.words
  {
    forall g: nat | g < f
      ensures g in Frames(p)
    {
      assert !Run(p, g, 1);
    }
    SpanSize(0, f);
    SubsetSize(Span(0, f), Frames(p));
  }

  // allocate_block on frame f: the frames were free, and are now in use.
  lemma AllocateFrames(p: Pool, f: nat, n: nat)
    requires Inv(p) && Run(p, f, n) && p.used + n < U32
    ensures Frames(SetRange(p, f, n)) == Frames(p) + Span(f, n) && Frames(p) !! Span(f, n)
    ensures SetRange(p, f, n).used == p.used + n && Inv(SetRange(p, f, n))
  {
    SetRangeFrames(p, f, n);
    SetRangeKeepsInv(p, f, n);
    AllocateCounter(p, f, n);
    assert Span(f, n) * Span(0, 32 * p.words) == Span(f, n);
  }

  lemma CounterStep(q: Pool, f: nat, r: Pool)
    requires f / 32 < |q.bits| && !IsUsed(q.bits, f) && q.used + 1 < U32 && r == SetOne(q, f)
    ensures r.used == q.used + 1
  {
  }

  lemma NextStaysFree(p: Pool, f: nat, n: nat)
    requires f + n < 32 * |p.bits| && !IsUsed(p.bits, f + n)
    ensures !IsUsed(SetRange(p, f, n).bits, f + n)
  {
    SetRangeUsed(p, f, n, f + n);
  }

  lemma {:induction false} AllocateCounter(p: Pool, f: nat, n: nat)
    requires f + n <= 32 * |p.bits| && Clear(p.bits, f, n) && p.used + n < U32
    ensures SetRange(p, f, n).used == p.used + n
    decreases n
  {
    hide SetOne;
    if n > 0 {
      AllocateCounter(p, f, n - 1);
      NextStaysFree(p, f, n - 1);
      CounterStep(SetRange(p, f, n - 1), f + n - 1, SetRange(p, f, n));
    }
  }

  lemma SetThenClear(p: Pool, f: nat, n: nat, g: nat, q: Pool, r: Pool)
    requires f + n <= 32 * |p.bits| && Clear(p.bits, f, n)
    requires q == SetRange(p, f, n) && r == ClearRange(q, f, n)
    ensures IsUsed(r.bits, g) == IsUsed(p.bits, g)
  {
    ClearRangeUsed(q, f, n, g);
    SetRangeUsed(p, f, n, g);
  }

  lemma CounterBack(u: nat, n: nat)
    requires u + n < U32
    ensures (u + n - n) % U32 == u
  {
  }

  lemma SetThenClearBits(p: Pool, f: nat, n: nat, q: Pool, r: Pool)
    requires f + n <= 32 * |p.bits| && Clear(p.bits, f, n)
    requires q == SetRange(p, f, n) && r == ClearRange(q, f, n)
    ensures r.bits == p.bits
  {
    forall g: nat | g < 32 * |p.bits|
      ensures IsUsed(r.bits, g) == IsUsed(p.bits, g)
    {
      SetThenClear(p, f, n, g, q, r);
    }
    MapDetermined(r.bits, p.bits);
  }

  // Freeing what was allocated restores the bitmap and the counter.
  lemma AllocateThenFree(p: Pool, f: nat, n: nat, q: Pool, r: Pool)
    requires Inv(p) && Run(p, f, n) && p.used + n < U32
    requires q == SetRange(p, f, n) && r == ClearRange(q, f, n)
    ensures r == p
  {
    SetThenClearBits(p, f, n, q, r);
    AllocateCounter(p, f, n);
    ClearRangeCounter(q, f, n);
    CounterBack(p.used, n);
  }

  // ---------------------------------------------------------------- what is kept back at boot

  // A reservation keeps its frames from being allocated exactly when they were in use before,
  // or the guard passed and the bitmap describes the whole range.
  lemma ReserveCovers(p: Pool, s: nat, n: nat)
    requires Inv(p) && s + n <= 32 * |p.bits|
    ensures Span(s, n) <= Frames(Reserve(p, s, n))
       <==> Span(s, n) <= Frames(p) || (p.used < p.words && s + n <= 32 * p.words)
    ensures p.used >= p.words ==> Reserve(p, s, n) == p
  {
    if Guarded(p) {
      SetRangeFrames(p, s, n);
      if s + n > 32 * p.words && n > 0 {
        var last := s + n - 1;
        assert last in Span(s, n) && last !in Frames(Reserve(p, s, n)) && last !in Frames(p);
      }
    }
  }

  // The kernel is linked at 0xC0000000, so its reservation names pages beyond any bitmap of
  // at most 3 GiB: no frame is kept back, while the counter still goes up.
  lemma KernelRangeReservesNothing(p: Pool, kernelPages: nat)
    requires Inv(p) && 32 * p.words <= 0xC0000 && 0xC0000 + kernelPages <= 32 * |p.bits|
    ensures Frames(Reserve(p, 0xC0000, kernelPages)) == Frames(p)
    ensures Guarded(p) && Clear(p.bits, 0xC0000, kernelPages) && p.used + kernelPages < U32
        ==> Reserve(p, 0xC0000, kernelPages).used == p.used + kernelPages
  {
    if Guarded(p) {
      SetRangeFrames(p, 0xC0000, kernelPages);
      if Clear(p.bits, 0xC0000, kernelPages) && p.used + kernelPages < U32 {
        AllocateCounter(p, 0xC0000, kernelPages);
      }
    }
  }

  // A range of bytes: its base and its size.
  datatype Range = Range(base: nat, size: nat) {
    function First(): nat { base / FRAME_SIZE }

    // Pages are counted from the size alone.
    function Pages(): nat { (size + FRAME_SIZE - 1) / FRAME_SIZE }
  }

  // As few pages as the size needs.
  lemma PagesLeast(r: Range)
    ensures 4096 * r.Pages() - 4096 < r.size <= 4096 * r.Pages()
  {
  }

  // The pages that are counted hold every byte of the range exactly when the offset of its base
  // in a page still fits behind its size.
  lemma PagesCoverRange(r: Range)
    requires r.size > 0
    ensures (forall x :: r.base <= x < r.base + r.size ==> x / FRAME_SIZE in Span(r.First(), r.Pages()))
       <==> r.base % FRAME_SIZE + r.size <= r.Pages() * FRAME_SIZE
  {
    var last := r.base + r.size - 1;
    FrameOfByte(r, last);
    if r.base % FRAME_SIZE + r.size <= r.Pages() * FRAME_SIZE {
      forall x | r.base <= x < r.base + r.size
        ensures x / FRAME_SIZE in Span(r.First(), r.Pages())
      {
        FrameOfByte(r, x);
      }
    } else {
      assert last / FRAME_SIZE !in Span(r.First(), r.Pages());
    }
  }

  lemma FrameOfByte(r: Range, x: nat)
    requires r.base <= x < r.base + r.size
    ensures r.First() <= x / FRAME_SIZE
    ensures x / FRAME_SIZE < r.First() + r.Pages() <==> r.base % FRAME_SIZE + (x - r.base) < r.Pages() * FRAME_SIZE
  {
    assert r.base == r.First() * FRAME_SIZE + r.base % FRAME_SIZE;
    assert x == r.First() * FRAME_SIZE + (r.base % FRAME_SIZE + (x - r.base));
  }

  predicate InMap(p: Pool, rs: seq<Range>) {
    forall r :: r in rs ==> r.First() + r.Pages() <= 32 * |p.bits|
  }

  function ReserveAll(p: Pool, rs: seq<Range>): (q: Pool)
    requires InMap(p, rs)
    ensures |q.bits| == |p.bits| && q.words == p.words
    decreases |rs|
  {
    if rs == [] then p else ReserveAll(Reserve(p, rs[0].First(), rs[0].Pages()), rs[1..])
  }

  // The guard passes before every reservation.
  predicate AllGuarded(p: Pool, rs: seq<Range>)
    requires InMap(p, rs)
    decreases |rs|
  {
    rs == [] || (Guarded(p) && AllGuarded(Reserve(p, rs[0].First(), rs[0].Pages()), rs[1..]))
  }

  ghost function Covered(rs: seq<Range>): set<nat> {
    if rs == [] then {} else Span(rs[0].First(), rs[0].Pages()) + Covered(rs[1..])
  }

  // With the guard passing throughout, exactly the described part of every range is in use.
  lemma {:induction false} ReserveAllFrames(p: Pool, rs: seq<Range>)
    requires InMap(p, rs) && AllGuarded(p, rs)
    ensures Frames(ReserveAll(p, rs)) == Frames(p) + Covered(rs) * Span(0, 32 * p.words)
    decreases |rs|
  {
    if rs != [] {
      var q := Reserve(p, rs[0].First(), rs[0].Pages());
      SetRangeFrames(p, rs[0].First(), rs[0].Pages());
      ReserveAllFrames(q, rs[1..]);
      assert (Span(rs[0].First(), rs[0].Pages()) + Covered(rs[1..])) * Span(0, 32 * p.words)
          == Span(rs[0].First(), rs[0].Pages()) * Span(0, 32 * p.words) + Covered(rs[1..]) * Span(0, 32 * p.words);
    }
  }

  function TotalPages(rs: seq<Range>): nat {
    if rs == [] then 0 else rs[0].Pages() + TotalPages(rs[1..])
  }

  lemma {:induction false} ReserveAllKeepsInv(p: Pool, rs: seq<Range>)
    requires Inv(p) && InMap(p, rs) && p.used + TotalPages(rs) < U32
    ensures Inv(ReserveAll(p, rs))
    decreases |rs|
  {
    if rs != [] {
      SetRangeKeepsInv(p, rs[0].First(), rs[0].Pages());
      ReserveAllKeepsInv(Reserve(p, rs[0].First(), rs[0].Pages()), rs[1..]);
    }
  }

  lemma {:induction false} ReserveAllGrows(p: Pool, rs: seq<Range>)
    requires InMap(p, rs)
    ensures Frames(p) <= Frames(ReserveAll(p, rs))
    decreases |rs|
  {
    if rs != [] {
      SetRangeFrames(p, rs[0].First(), rs[0].Pages());
      ReserveAllGrows(Reserve(p, rs[0].First(), rs[0].Pages()), rs[1..]);
    }
  }

  // With at most 1024 words, and frame 0 kept back, a single frame lies in the first 4 MiB and
  // its address is not the 0 that stands for failure.
  lemma SingleFrameIsIdentityMapped(p: Pool, f: nat)
    requires Inv(p) && Guarded(p) && Lowest(p, f, 1) && p.words <= 1024 && 0 in Frames(p)
    ensures 0 < f < 1024
  {
    LowestIsLow(p, f);
  }

  // ---------------------------------------------------------------- INIT_MEMORY

  datatype Region = Region(lengthLow: nat, lengthHigh: nat, kind: nat)

  // get_memory_info: usable bytes, in 32-bit arithmetic.
  function TotalMemory(rs: seq<Region>): (t: nat)
    ensures t < U32
  {
    if rs == [] then 0
    else
      var t, r := TotalMemory(rs[..|rs| - 1]), rs[|rs| - 1];
      if r.kind == 1 then (t + r.lengthHigh * U32 + r.lengthLow) % U32 else t
  }

  // The bytes of the regions of type 1, their 64-bit lengths added up without a bound.
  function UsableBytes(rs: seq<Region>): nat {
    if rs == [] then 0
    else UsableBytes(rs[1..]) + (if rs[0].kind == 1 then rs[0].lengthHigh * 0x1_0000_0000 + rs[0].lengthLow else 0)
  }

  lemma {:induction false} UsableLast(rs: seq<Region>)
    requires rs != []
    ensures var r := rs[|rs| - 1];
      UsableBytes(rs) == UsableBytes(rs[..|rs| - 1])
        + (if r.kind == 1 then r.lengthHigh * 0x1_0000_0000 + r.lengthLow else 0)
    decreases |rs|
  {
    if |rs| > 1 {
      UsableLast(rs[1..]);
      assert rs[1..][..|rs| - 2] == rs[..|rs| - 1][1..];
    }
  }

  lemma WrappedSum(a: nat, b: nat)
    ensures (a % U32 + b) % U32 == (a + b) % U32
  {
    var q := a / U32;
    assert a + b == U32 * q + (a % U32 + b);
    WholeTurns(a % U32 + b, q);
  }

  lemma {:induction false} WholeTurns(x: nat, q: nat)
    ensures (U32 * q + x) % U32 == x % U32
    decreases q
  {
    if q > 0 {
      WholeTurns(x, q - 1);
      assert (U32 * q + x) % U32 == (U32 * (q - 1) + x) % U32;
    }
  }

  // The total is those bytes, modulo 2^32.
  lemma {:induction false} TotalIsUsable(rs: seq<Region>)
    ensures TotalMemory(rs) == UsableBytes(rs) % U32
    decreases |rs|
  {
    if rs != [] {
      var r := rs[|rs| - 1];
      TotalIsUsable(rs[..|rs| - 1]);
      UsableLast(rs);
      WrappedSum(UsableBytes(rs[..|rs| - 1]), r.lengthHigh * U32 + r.lengthLow);
    }
  }

  // A region of any other type can be dropped from the list.
  lemma {:induction false} OtherTypeDropped(rs: seq<Region>, i: nat)
    requires i < |rs| && rs[i].kind != 1
    ensures TotalMemory(rs[..i] + rs[i + 1..]) == TotalMemory(rs)
    decreases |rs|
  {
    UsableWithout(rs, i);
    TotalIsUsable(rs);
    TotalIsUsable(rs[..i] + rs[i + 1..]);
  }

  lemma {:induction false} UsableWithout(rs: seq<Region>, i: nat)
    requires i < |rs| && rs[i].kind != 1
    ensures UsableBytes(rs[..i] + rs[i + 1..]) == UsableBytes(rs)
    decreases |rs|
  {
    var less := rs[..i] + rs[i + 1..];
    if i == 0 {
      assert less == rs[1..];
    } else {
      UsableWithout(rs[1..], i - 1);
      assert less[1..] == rs[1..][..i - 1] + rs[1..][i..];
    }
  }

  // The frames the bitmap describes: every whole frame of the usable bytes, rounded up to a
  // whole number of words.
  predicate Describes(words: nat, bytes: nat) { bytes / 4096 <= 32 * words < bytes / 4096 + 32 }

  lemma RoundedUp(n: nat, d: nat)
    requires d > 0
    ensures n <= d * ((n + d - 1) / d) < n + d
  {
    var q := (n + d - 1) / d;
    assert n + d - 1 == d * q + (n + d - 1) % d;
  }

  lemma MemoryDescribed(rs: seq<Region>)
    requires UsableBytes(rs) < U32
    ensures Describes(WordsOf(TotalMemory(rs)), UsableBytes(rs))
    ensures UsableBytes(rs) / 4096 <= 8 * BitmapBytes(TotalMemory(rs)) < UsableBytes(rs) / 4096 + 8
  {
    hide TotalMemory, UsableBytes;
    TotalIsUsable(rs);
    var memory := TotalMemory(rs);
    assert memory == UsableBytes(rs);
    RoundedUp(PagesOf(memory), 32);
    RoundedUp(PagesOf(memory), 8);
  }

  function PagesOf(memory: nat): nat { memory / FRAME_SIZE }

  function BitmapBytes(memory: nat): nat { (PagesOf(memory) + 7) / 8 }

  function WordsOf(memory: nat): nat { (PagesOf(memory) + 31) / 32 }

  // memset of the first bytes of a word.
  function KeepHigh(w: bv32, bytes: nat): bv32
    requires bytes < 4
  {
    if bytes == 0 then w else w & HighMask(bytes)
  }

  // The constant that keeps all but the first bytes of a word.
  function HighMask(bytes: nat): bv32
    requires 0 < bytes < 4
  {
    if bytes == 1 then 0xFFFF_FF00 else if bytes == 2 then 0xFFFF_0000 else 0xFF00_0000
  }

  // setup_memory_bitmap clears bytes, so the last word may keep some of what it held.
  function ClearBytes(m: seq<bv32>, bytes: nat): (r: seq<bv32>)
    requires bytes <= 4 * |m|
    ensures |r| == |m|
    ensures forall i :: 0 <= i < bytes / 4 ==> r[i] == 0
    ensures forall i :: bytes / 4 <= i < |m| ==> r[i] == if i == bytes / 4 then KeepHigh(m[i], bytes % 4) else m[i]
  {
    seq(|m|, i requires 0 <= i < |m| =>
      if i < bytes / 4 then 0 else if i == bytes / 4 then KeepHigh(m[i], bytes % 4) else m[i])
  }

  // A constant that a mask lies inside of, or outside of.
  predicate Inside(k: bv32, m: bv32) { k & m == m }

  predicate Outside(k: bv32, m: bv32) { k & m == 0 }

  lemma ShiftFrom8(j: nat, m: bv32)
    requires j < 32 && m == (1 as bv32) << j
    ensures if j < 8 then Outside(0xFFFF_FF00, m) else Inside(0xFFFF_FF00, m)
  {
  }

  lemma From8(j: nat, m: bv32)
    requires j < 32 && m == Mask(j)
    ensures if j < 8 then Outside(0xFFFF_FF00, m) else Inside(0xFFFF_FF00, m)
  {
    hide Mask, Inside, Outside;
    MaskIsShift(j);
    ShiftFrom8(j, m);
  }

  lemma ShiftFrom16(j: nat, m: bv32)
    requires j < 32 && m == (1 as bv32) << j
    ensures if j < 16 then Outside(0xFFFF_0000, m) else Inside(0xFFFF_0000, m)
  {
  }

  lemma From16(j: nat, m: bv32)
    requires j < 32 && m == Mask(j)
    ensures if j < 16 then Outside(0xFFFF_0000, m) else Inside(0xFFFF_0000, m)
  {
    hide Mask, Inside, Outside;
    MaskIsShift(j);
    ShiftFrom16(j, m);
  }

  lemma ShiftFrom24(j: nat, m: bv32)
    requires j < 32 && m == (1 as bv32) << j
    ensures if j < 24 then Outside(0xFF00_0000, m) else Inside(0xFF00_0000, m)
  {
  }

  lemma From24(j: nat, m: bv32)
    requires j < 32 && m == Mask(j)
    ensures if j < 24 then Outside(0xFF00_0000, m) else Inside(0xFF00_0000, m)
  {
    hide Mask, Inside, Outside;
    MaskIsShift(j);
    ShiftFrom24(j, m);
  }

  lemma TestKept(w: bv32, k: bv32, u: bv32, m: bv32)
    requires u == w & k && Inside(k, m)
    ensures Test(u, m) == Test(w, m)
  {
    KeepsAll(w, k, m);
  }

  lemma KeepsAll(w: bv32, k: bv32, m: bv32)
    requires k & m == m
    ensures (w & k) & m == w & m
  {
  }

  lemma TestCleared(w: bv32, k: bv32, u: bv32, m: bv32)
    requires u == w & k && Outside(k, m)
    ensures !Test(u, m)
  {
    KeepsNone(w, k, m);
  }

  lemma KeepsNone(w: bv32, k: bv32, m: bv32)
    requires k & m == 0
    ensures (w & k) & m == 0
  {
  }

  lemma KeptBit(w: bv32, k: bv32, u: bv32, j: nat, m: bv32)
    requires j < 32 && u == w & k && m == Mask(j)
    ensures Inside(k, m) ==> Bit(u, j) == Bit(w, j)
    ensures Outside(k, m) ==> !Bit(u, j)
  {
    hide Mask, Test, Inside, Outside;
    if Inside(k, m) { TestKept(w, k, u, m); }
    if Outside(k, m) { TestCleared(w, k, u, m); }
  }

  lemma MaskSide(bytes: nat, j: nat, m: bv32)
    requires 0 < bytes < 4 && j < 32 && m == Mask(j)
    ensures if j < 8 * bytes then Outside(HighMask(bytes), m) else Inside(HighMask(bytes), m)
  {
    hide Mask, Inside, Outside;
    if bytes == 1 {
      From8(j, m);
    } else if bytes == 2 {
      From16(j, m);
    } else {
      From24(j, m);
    }
  }

  lemma KeptBits(w: bv32, bytes: nat, u: bv32, j: nat, m: bv32)
    requires bytes < 4 && j < 32 && u == KeepHigh(w, bytes) && m == Mask(j)
    ensures Bit(u, j) == (j >= 8 * bytes && Bit(w, j))
  {
    hide Bit, Mask, Inside, Outside, HighMask;
    if bytes > 0 {
      KeptBit(w, HighMask(bytes), u, j, m);
      MaskSide(bytes, j, m);
    }
  }

  // Clearing bytes frees the first eight frames for each of them, and no other.
  lemma ClearedFrames(m: seq<bv32>, bytes: nat, f: nat)
    requires bytes <= 4 * |m|
    ensures IsUsed(ClearBytes(m, bytes), f) <==> f >= 8 * bytes && IsUsed(m, f)
  {
    hide KeepHigh;
    if f / 32 < |m| {
      if f / 32 == bytes / 4 {
        KeptBits(m[f / 32], bytes % 4, KeepHigh(m[f / 32], bytes % 4), f % 32, Mask(f % 32));
      } else if f / 32 < bytes / 4 {
        BitOfConstant(f % 32);
      }
    }
  }

  lemma ZeroHasNoBit(m: seq<bv32>, f: nat)
    requires f / 32 < |m| && m[f / 32] == 0
    ensures !IsUsed(m, f)
  {
    BitOfConstant(f % 32);
  }

  // The last word after the clearing; 0 when the bitmap ends on a word boundary.
  function LastWord(m: seq<bv32>, memory: nat): bv32
    requires WordsOf(memory) <= |m|
  {
    var bytes := BitmapBytes(memory);
    if bytes % 4 == 0 then 0 else KeepHigh(m[bytes / 4], bytes % 4)
  }

  // The bitmap starts out empty exactly when the bytes of its last word that the clearing does
  // not reach were zero.
  lemma StartsEmpty(m: seq<bv32>, memory: nat)
    requires WordsOf(memory) <= |m|
    ensures Frames(Pool(ClearBytes(m, BitmapBytes(memory)), WordsOf(memory), 0)) == {} <==> LastWord(m, memory) == 0
  {
    var bytes, words := BitmapBytes(memory), WordsOf(memory);
    var r := ClearBytes(m, bytes);
    if LastWord(m, memory) == 0 {
      forall f: nat | f < 32 * words
        ensures !IsUsed(r, f)
      {
        assert f / 32 <= words - 1;
        ZeroHasNoBit(r, f);
      }
    } else {
      var f := NonZeroWord(r, bytes / 4);
      assert f in Used(r, words);
    }
  }

  // What INIT_MEMORY reserves, in order.
  function BootRanges(kernelStart: nat, kernelEnd: nat, bitmapAddr: nat, bitmapBytes: nat, modules: seq<Range>)
    : seq<Range>
    requires kernelStart <= kernelEnd
  {
    [Range(0, 0x500), Range(0x7C00, 512), Range(kernelStart, kernelEnd - kernelStart), Range(bitmapAddr, bitmapBytes)]
    + modules
  }

  lemma FrameZeroReserved(p: Pool, rs: seq<Range>)
    requires Guarded(p) && InMap(p, rs) && rs != [] && rs[0].First() == 0 && rs[0].Pages() == 1
    ensures 0 in Frames(ReserveAll(p, rs))
  {
    SetRangeFrames(p, 0, 1);
    assert 0 in Span(0, 1) * Span(0, 32 * p.words);
    ReserveAllGrows(Reserve(p, 0, 1), rs[1..]);
  }

  // The low memory and the boot sector, frames 0 and 7, are kept back, and so are the kernel's
  // pages and those of its bitmap if the bitmap describes them.
  lemma BootRangesCover(kernelStart: nat, kernelEnd: nat, bitmapAddr: nat, bitmapBytes: nat, modules: seq<Range>)
    requires kernelStart <= kernelEnd
    ensures var c := Covered(BootRanges(kernelStart, kernelEnd, bitmapAddr, bitmapBytes, modules));
      c == {0, 7} + Span(kernelStart / 4096, (kernelEnd - kernelStart + 4095) / 4096)
           + Span(bitmapAddr / 4096, (bitmapBytes + 4095) / 4096) + Covered(modules)
  {
    hide Covered, Span;
    var k, b := Range(kernelStart, kernelEnd - kernelStart), Range(bitmapAddr, bitmapBytes);
    FourRanges(k, b, modules);
    assert BootRanges(kernelStart, kernelEnd, bitmapAddr, bitmapBytes, modules)
        == [Range(0, 0x500), Range(0x7C00, 512), k, b] + modules;
  }

  lemma FourRanges(k: Range, b: Range, rest: seq<Range>)
    ensures Covered([Range(0, 0x500), Range(0x7C00, 512), k, b] + rest)
         == {0, 7} + Span(k.First(), k.Pages()) + Span(b.First(), b.Pages()) + Covered(rest)
  {
    assert Span(0, 1) == {0} && Span(7, 1) == {7};
    hide Covered, Span;
    CoveredFirst(b, rest);
    CoveredFirst(k, [b] + rest);
    CoveredFirst(Range(0x7C00, 512), [k] + ([b] + rest));
    CoveredFirst(Range(0, 0x500), [Range(0x7C00, 512)] + ([k] + ([b] + rest)));
    assert [Range(0, 0x500), Range(0x7C00, 512), k, b] + rest
        == [Range(0, 0x500)] + ([Range(0x7C00, 512)] + ([k] + ([b] + rest)));
    SetsJoin(Span(k.First(), k.Pages()), Span(b.First(), b.Pages()), Covered(rest));
  }

  lemma SetsJoin(a: set<nat>, b: set<nat>, c: set<nat>)
    ensures {0} + ({7} + (a + (b + c))) == {0, 7} + a + b + c
  {
  }

  lemma CoveredFirst(r: Range, rest: seq<Range>)
    ensures Covered([r] + rest) == Span(r.First(), r.Pages()) + Covered(rest)
  {
    assert ([r] + rest)[1..] == rest;
  }

  // After INIT_MEMORY the counter bounds the frames in use, and frame 0 is never handed out.
  lemma BootState(m: seq<bv32>, memory: nat, rs: seq<Range>, p: Pool)
    requires 0 < WordsOf(memory) <= |m| && LastWord(m, memory) == 0
    requires rs != [] && rs[0] == Range(0, 0x500) && TotalPages(rs) < U32
    requires p == Pool(ClearBytes(m, BitmapBytes(memory)), WordsOf(memory), 0) && InMap(p, rs)
    ensures Inv(ReserveAll(p, rs)) && 0 in Frames(ReserveAll(p, rs))
  {
    StartsEmpty(m, memory);
    ReserveAllKeepsInv(p, rs);
    FrameZeroReserved(p, rs);
  }

  // At most 128 MiB of usable memory give at most 1024 bitmap words.
  lemma SmallMemory(memory: nat)
    requires memory <= 0x800_0000
    ensures WordsOf(memory) <= 1024
  {
  }
}
