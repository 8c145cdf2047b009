// The frame pool from INIT_MEMORY on, over any run of allocations and frees that hands out no
// frame of the kernel: what a small machine can rely on when it dereferences a frame's address.
module FrameRuns {
  import opened Basics
  import opened FramePool
  import opened KernelFrames

  const SMALL_MEMORY: nat := 0x800_0000   // 128 MiB

  datatype FrameOp = Take(count: nat) | GiveBack(first: nat, count: nat)

  lemma {:induction false} LowestExists(p: Pool, n: nat, f: nat)
    requires Run(p, f, n)
    ensures exists g: nat :: Lowest(p, g, n)
    decreases f
  {
    if g: nat :| g < f && Run(p, g, n) {
      LowestExists(p, n, g);
    } else {
      assert Lowest(p, f, n);
    }
  }

  ghost function LowestRun(p: Pool, n: nat): (f: nat)
    requires HasRun(p, n)
    ensures Lowest(p, f, n)
  {
    var g: nat :| Run(p, g, n);
    LowestExists(p, n, g);
    var f: nat :| Lowest(p, f, n);
    f
  }

  // Frees are of frames in use other than frame 0; a scan for frames stays inside the bitmap, and
  // what it finds is none of the frames the kernel lives in.
  ghost predicate Allowed(p: Pool, kernel: set<nat>, op: FrameOp) {
    match op
    case Take(n) => n > 0 && Guarded(p) ==>
      ScanStays(p, n) && (HasRun(p, n) ==> Span(LowestRun(p, n), n) !! kernel)
    case GiveBack(s, n) => Span(s, n) <= Frames(p) && 0 !in Span(s, n)
  }

  // While few frames are in use, a request is met below the kernel.
  lemma LowTakeAllowed(p: Pool, kernel: set<nat>, n: nat, m: nat)
    requires Inv(p) && n > 0 && m == |Frames(p)| + 1 && m * n <= KERNEL_FRAME <= 32 * p.words
    requires forall g :: g in kernel ==> g >= KERNEL_FRAME
    ensures HasRun(p, n) && LowestRun(p, n) + n <= m * n && Allowed(p, kernel, Take(n))
  {
    RunIsLow(p, n, m);
    var g: nat :| Run(p, g, n) && g + n <= m * n;
    RunBelow(p, LowestRun(p, n), n, m * n);
  }

  // allocate_block and deallocate_memory_by_size.
  ghost function Step(p: Pool, kernel: set<nat>, op: FrameOp): Pool
    requires p.words <= |p.bits| && Allowed(p, kernel, op)
  {
    match op
    case Take(n) => if n > 0 && Guarded(p) && HasRun(p, n) then SetRange(p, LowestRun(p, n), n) else p
    case GiveBack(s, n) =>
      if n == 0 then p
      else
        assert s + n - 1 in Span(s, n);
        ClearRange(p, s, n)
  }

  lemma FewerFrames(p: Pool, q: Pool, b: set<nat>, n: nat)
    requires Ready(p) && q.words == p.words && |q.bits| == |p.bits| && Frames(q) == Frames(p) - b
    requires b <= Frames(p) && |b| == n && 0 !in b && q.used == (p.used - n) % U32
    ensures Ready(q)
  {
    SubsetSize(b, Frames(p));
    SizeMinus(Frames(p), b);
    assert Frames(p) * b == b;
  }

  lemma GivenBack(p: Pool, s: nat, n: nat)
    requires Ready(p) && n > 0 && s + n <= 32 * |p.bits| && Span(s, n) <= Frames(p) && 0 !in Span(s, n)
    ensures Ready(ClearRange(p, s, n)) && Frames(ClearRange(p, s, n)) <= Frames(p)
  {
    SpanSize(s, n);
    ClearRangeFrames(p, s, n);
    ClearRangeCounter(p, s, n);
    FewerFrames(p, ClearRange(p, s, n), Span(s, n), n);
  }

  lemma Taken(p: Pool, f: nat, n: nat)
    requires Ready(p) && Guarded(p) && Run(p, f, n)
    ensures Ready(SetRange(p, f, n)) && Frames(SetRange(p, f, n)) == Frames(p) + Span(f, n)
  {
    AllocateFrames(p, f, n);
  }

  // Every step keeps the counter above the frames in use and frame 0 back, and hands out no frame
  // of the kernel.
  lemma StepKeepsReady(p: Pool, kernel: set<nat>, op: FrameOp)
    requires Ready(p) && Allowed(p, kernel, op)
    ensures Ready(Step(p, kernel, op)) && Frames(Step(p, kernel, op)) * kernel <= Frames(p)
  {
    match op
    case Take(n) =>
      if n > 0 && Guarded(p) && HasRun(p, n) { Taken(p, LowestRun(p, n), n); }
    case GiveBack(s, n) =>
      if n > 0 {
        assert s + n - 1 in Span(s, n);
        GivenBack(p, s, n);
      }
  }

  ghost predicate AllAllowed(p: Pool, kernel: set<nat>, ops: seq<FrameOp>)
    decreases |ops|
  {
    ops == [] || (p.words <= |p.bits| && Allowed(p, kernel, ops[0])
                  && AllAllowed(Step(p, kernel, ops[0]), kernel, ops[1..]))
  }

  ghost function After(p: Pool, kernel: set<nat>, ops: seq<FrameOp>): Pool
    requires AllAllowed(p, kernel, ops)
    decreases |ops|
  {
    if ops == [] then p else After(Step(p, kernel, ops[0]), kernel, ops[1..])
  }

  lemma {:induction false} RunKeepsReady(p: Pool, kernel: set<nat>, ops: seq<FrameOp>)
    requires Ready(p) && AllAllowed(p, kernel, ops)
    ensures Ready(After(p, kernel, ops)) && Frames(After(p, kernel, ops)) * kernel <= Frames(p)
    decreases |ops|
  {
    if ops != [] {
      hide Ready, Frames, Allowed, Step;
      StepKeepsReady(p, kernel, ops[0]);
      RunKeepsReady(Step(p, kernel, ops[0]), kernel, ops[1..]);
    }
  }

  // allocate_block(1) succeeds exactly when the guard passes, and then with a frame other than 0
  // in the identity-mapped first 4 MiB.
  lemma SingleFrame(p: Pool)
    requires Ready(p)
    ensures Guarded(p) ==> HasRun(p, 1) && 0 < LowestRun(p, 1) < 1024
  {
    if Guarded(p) {
      GuardMeansRun(p, 1);
      SingleFrameIsIdentityMapped(p, LowestRun(p, 1));
    }
  }

  // The pool as INIT_MEMORY leaves it.
  function BootPool(m: seq<bv32>, memory: nat, rs: seq<Range>): (p: Pool)
    requires WordsOf(memory) <= |m|
    requires InMap(Pool(ClearBytes(m, BitmapBytes(memory)), WordsOf(memory), 0), rs)
  {
    ReserveAll(Pool(ClearBytes(m, BitmapBytes(memory)), WordsOf(memory), 0), rs)
  }

  // What INIT_MEMORY is given: a little memory, room for its bitmap, and ranges that begin with
  // the low memory and stay inside the bitmap's storage.
  predicate BootInput(regions: seq<Region>, m: seq<bv32>, rs: seq<Range>) {
    var memory := TotalMemory(regions);
    && memory <= SMALL_MEMORY && 0 < WordsOf(memory) <= |m| && LastWord(m, memory) == 0
    && rs != [] && rs[0] == Range(0, 0x500) && TotalPages(rs) < U32
    && InMap(Pool(ClearBytes(m, BitmapBytes(memory)), WordsOf(memory), 0), rs)
  }

  lemma BootIsReady(regions: seq<Region>, m: seq<bv32>, rs: seq<Range>)
    requires BootInput(regions, m, rs)
    ensures Ready(BootPool(m, TotalMemory(regions), rs))
  {
    var memory := TotalMemory(regions);
    BootState(m, memory, rs, Pool(ClearBytes(m, BitmapBytes(memory)), WordsOf(memory), 0));
    SmallMemory(memory);
  }

  // With at most 128 MiB of usable memory, after INIT_MEMORY and any run of allocations and
  // frees that leave frame 0 and the frames of the kernel's image and bitmap alone: none of those
  // has been handed out, so the kernel's first frame is as free as it was. Every allocate_block(1)
  // that succeeds returns a frame other than 0 in the first 4 MiB, below the kernel while the
  // counter is; it succeeds whenever the guard passes.
  lemma SmallMachine(regions: seq<Region>, m: seq<bv32>, rs: seq<Range>, imageBytes: nat, kernel: set<nat>,
                     ops: seq<FrameOp>)
    requires BootInput(regions, m, rs) && AllAllowed(BootPool(m, TotalMemory(regions), rs), kernel, ops)
    requires HoldsKernel(kernel, imageBytes, TotalMemory(regions))
    ensures var p0 := BootPool(m, TotalMemory(regions), rs);
      var p := After(p0, kernel, ops);
      && Ready(p) && Frames(p) * kernel <= Frames(p0)
      && (KERNEL_FRAME !in Frames(p0) ==> KERNEL_FRAME !in Frames(p))
      && (Guarded(p) ==> HasRun(p, 1) && 0 < LowestRun(p, 1) < 1024)
      && (Guarded(p) && p.used < KERNEL_FRAME ==> LowestRun(p, 1) < KERNEL_FRAME)
  {
    var p0 := BootPool(m, TotalMemory(regions), rs);
    BootIsReady(regions, m, rs);
    RunKeepsReady(p0, kernel, ops);
    var p := After(p0, kernel, ops);
    SingleFrame(p);
    if Guarded(p) && p.used < KERNEL_FRAME {
      SingleStaysBelowKernel(p, LowestRun(p, 1));
    }
  }
}
