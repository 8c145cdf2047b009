// The frames of the kernel's own image and of its bitmap. No reservation keeps them back, so
// they are handed out like any others; this says exactly when.
module KernelFrames {
  import opened Basics
  import opened FrameBitmap
  import opened FramePool

  // Frames that the kernel cannot spare: the first one of its image, and others behind it.
  ghost predicate IsKernel(kernel: set<nat>) {
    KERNEL_FRAME in kernel && forall f :: f in kernel ==> f >= KERNEL_FRAME
  }

  // Its whole image and the bitmap that follows it on the next page.
  ghost predicate HoldsKernel(kernel: set<nat>, imageBytes: nat, memory: nat) {
    && IsKernel(kernel)
    && Span(KERNEL_FRAME, Range(0, imageBytes).Pages() + Range(0, BitmapBytes(memory)).Pages()) <= kernel
  }

  // ---------------------------------------------------------------- single frames

  // The frame an allocation of one frame takes when those of u are in use.
  ghost predicate LowestFree(u: set<nat>, f: nat) { f !in u && Span(0, f) <= u }

  lemma LowestIsFree(p: Pool, f: nat)
    ensures Lowest(p, f, 1) <==> f < 32 * p.words && LowestFree(Frames(p), f)
  {
    if f < 32 * p.words && LowestFree(Frames(p), f) {
      forall g: nat | g < f
        ensures !Run(p, g, 1)
      {
        assert g in Span(0, f);
      }
    } else if Lowest(p, f, 1) {
      forall g | g in Span(0, f)
        ensures g in Frames(p)
      {
        assert !Run(p, g, 1);
      }
    }
  }

  // A single frame comes from the kernel's or from behind it exactly when all frames below it
  // are in use.
  lemma SingleReachesKernel(p: Pool, f: nat)
    requires Lowest(p, f, 1)
    ensures f >= KERNEL_FRAME <==> Span(0, KERNEL_FRAME) <= Frames(p)
  {
    LowestIsFree(p, f);
    if f >= KERNEL_FRAME {
      assert Span(0, KERNEL_FRAME) <= Span(0, f);
    } else {
      assert f in Span(0, KERNEL_FRAME);
    }
  }

  // While the counter is below 256 it does not.
  lemma SingleStaysBelowKernel(p: Pool, f: nat)
    requires Inv(p) && Lowest(p, f, 1) && p.used < KERNEL_FRAME
    ensures f < KERNEL_FRAME
  {
    SingleReachesKernel(p, f);
    if f >= KERNEL_FRAME {
      SubsetSize(Span(0, KERNEL_FRAME), Frames(p));
      SpanSize(0, KERNEL_FRAME);
    }
  }

  // ---------------------------------------------------------------- runs of frames

  // The run that is found lies below k exactly when some run does.
  lemma RunBelow(p: Pool, f: nat, n: nat, k: nat)
    requires Lowest(p, f, n)
    ensures f + n <= k <==> exists g: nat :: Run(p, g, n) && g + n <= k
  {
    if g: nat :| Run(p, g, n) && g + n <= k {
      assert f <= g;
    }
  }

  // As frame 0 is kept back, 4 MiB or more never fit into the first 4 MiB.
  lemma BigRunLeavesWindow(p: Pool, f: nat, n: nat)
    requires Lowest(p, f, n) && 0 in Frames(p) && n >= 1024
    ensures f + n > 1024
  {
    var first := 0;
    assert first in Frames(p);
    assert !(f <= first < f + n);
  }

  // It meets the kernel's frames exactly when no run ends below them and some run begins before
  // their end.
  lemma RunMeetsKernel(p: Pool, f: nat, n: nat, size: nat)
    requires Lowest(p, f, n) && n > 0 && size > 0
    ensures !(Span(f, n) !! Span(KERNEL_FRAME, size))
       <==> (forall g: nat :: Run(p, g, n) ==> g + n > KERNEL_FRAME)
            && (exists g: nat :: Run(p, g, n) && g < KERNEL_FRAME + size)
  {
    SpansMeet(f, n, KERNEL_FRAME, size);
    RunBelow(p, f, n, KERNEL_FRAME);
    if g: nat :| Run(p, g, n) && g < KERNEL_FRAME + size {
      assert f <= g;
    }
  }

  lemma SpansMeet(f: nat, n: nat, k: nat, size: nat)
    requires n > 0 && size > 0
    ensures !(Span(f, n) !! Span(k, size)) <==> f + n > k && f < k + size
  {
    if f + n > k && f < k + size {
      var x := if f < k then k else f;
      assert x in Span(f, n) && x in Span(k, size);
    }
  }

  lemma LessAfter(p: Pool, s: nat, n: nat, m: nat)
    requires |Frames(p) - Span(0, s)| < m && s + n <= 32 * p.words && !Clear(p.bits, s, n)
    ensures |Frames(p) - Span(0, s + n)| < m - 1
  {
    hide Span, IsUsed;
    var f: nat :| s <= f < s + n && IsUsed(p.bits, f);
    var here, after := Frames(p) - Span(0, s), Frames(p) - Span(0, s + n);
    assert f in here && f !in after;
    SubsetSize(after + {f}, here);
  }

  lemma OneStretchLess(s: nat, n: nat, m: nat)
    requires m > 0
    ensures s + m * n == (s + n) + (m - 1) * n && (m - 1) * n >= 0
  {
  }

  // Of m stretches of n frames each from s on, one is free when fewer than m frames behind s are
  // in use.
  lemma {:induction false} FreeStretch(p: Pool, s: nat, n: nat, m: nat)
    requires |Frames(p) - Span(0, s)| < m && s + m * n <= 32 * p.words
    ensures exists g: nat :: Run(p, g, n) && g + n <= s + m * n
    decreases m
  {
    hide Frames, Span, Clear;
    OneStretchLess(s, n, m);
    var rest := (m - 1) * n;
    if Clear(p.bits, s, n) {
      assert Run(p, s, n);
    } else {
      LessAfter(p, s, n, m);
      FreeStretch(p, s + n, n, m - 1);
    }
  }

  // A request for n frames is met below (u + 1) * n when u frames are in use.
  lemma RunIsLow(p: Pool, n: nat, m: nat)
    requires m == |Frames(p)| + 1 && m * n <= 32 * p.words
    ensures exists g: nat :: Run(p, g, n) && g + n <= m * n
  {
    assert Frames(p) - Span(0, 0) == Frames(p);
    FreeStretch(p, 0, n, m);
  }

  // ---------------------------------------------------------------- frames one after the other

  // u1 is what one more allocation of a frame makes of u0.
  ghost predicate OneTaken(u0: set<nat>, u1: set<nat>) {
    exists f: nat :: LowestFree(u0, f) && u1 == u0 + {f}
  }

  // And what n more make of it.
  ghost predicate FramesTaken(u0: set<nat>, u1: set<nat>, n: nat)
    decreases n
  {
    if n == 0 then u1 == u0 else exists u: set<nat> :: OneTaken(u0, u) && FramesTaken(u, u1, n - 1)
  }

  lemma ThreeTaken(u0: set<nat>, u1: set<nat>, u2: set<nat>, u3: set<nat>)
    requires OneTaken(u0, u1) && OneTaken(u1, u2) && OneTaken(u2, u3)
    ensures FramesTaken(u0, u3, 3)
  {
    hide OneTaken;
    assert FramesTaken(u3, u3, 0);
    assert FramesTaken(u2, u3, 1);
    assert FramesTaken(u1, u3, 2);
  }

  // n frames can be taken one after the other without handing out a frame of kernel.
  ghost predicate Spares(u: set<nat>, n: nat, kernel: set<nat>)
    decreases n
  {
    n == 0 || forall f: nat :: LowestFree(u, f) ==> f !in kernel && Spares(u + {f}, n - 1, kernel)
  }

  lemma SparesNext(u: set<nat>, n: nat, kernel: set<nat>, f: nat)
    requires Spares(u, n, kernel) && n > 0 && LowestFree(u, f)
    ensures f !in kernel && Spares(u + {f}, n - 1, kernel)
  {
  }

  lemma SparesHere(u: set<nat>, n: nat, kernel: set<nat>)
    requires n > 0 && forall f: nat :: LowestFree(u, f) ==> f !in kernel && Spares(u + {f}, n - 1, kernel)
    ensures Spares(u, n, kernel)
  {
  }

  lemma SpareTaken(u0: set<nat>, u1: set<nat>, n: nat, kernel: set<nat>)
    requires Spares(u0, n, kernel) && n > 0 && OneTaken(u0, u1)
    ensures Spares(u1, n - 1, kernel) && u0 <= u1 && (u1 - u0) !! kernel
  {
    hide Spares;
    var f: nat :| LowestFree(u0, f) && u1 == u0 + {f};
    SparesNext(u0, n, kernel, f);
  }

  // What can be spared is less by what was taken.
  lemma {:induction false} SparesAfter(u0: set<nat>, u1: set<nat>, n: nat, m: nat, kernel: set<nat>)
    requires FramesTaken(u0, u1, n) && Spares(u0, n + m, kernel)
    ensures Spares(u1, m, kernel) && u0 <= u1 && (u1 - u0) !! kernel
    decreases n
  {
    hide Spares, OneTaken;
    if n > 0 {
      var u: set<nat> :| OneTaken(u0, u) && FramesTaken(u, u1, n - 1);
      hide FramesTaken;
      SpareTaken(u0, u, n + m, kernel);
      SparesAfter(u, u1, n - 1, m, kernel);
    }
  }

  // The frames below k that are free.
  ghost function FreeBelow(u: set<nat>, k: nat): nat { |Span(0, k) - u| }

  lemma FreeBelowTaken(u: set<nat>, k: nat, f: nat)
    requires LowestFree(u, f)
    ensures f < k <==> FreeBelow(u, k) > 0
    ensures f < k ==> FreeBelow(u + {f}, k) == FreeBelow(u, k) - 1
  {
    var free := Span(0, k) - u;
    if f < k {
      assert f in free && Span(0, k) - (u + {f}) == free - {f};
    } else {
      assert Span(0, k) <= Span(0, f);
      assert free == {};
    }
  }

  lemma OneTakenBelow(u0: set<nat>, u1: set<nat>, k: nat)
    requires OneTaken(u0, u1)
    ensures u0 <= u1 && ((forall f :: f in u1 && f !in u0 ==> f < k) <==> FreeBelow(u0, k) > 0)
    ensures FreeBelow(u1, k) == if FreeBelow(u0, k) > 0 then FreeBelow(u0, k) - 1 else 0
  {
    var f: nat :| LowestFree(u0, f) && u1 == u0 + {f};
    FreeBelowTaken(u0, k, f);
    assert Span(0, k) - u1 <= Span(0, k) - u0;
    SubsetSize(Span(0, k) - u1, Span(0, k) - u0);
  }

  // n frames are taken below k exactly when n are free there, and then so many fewer are.
  lemma {:induction false} TakenBelow(u0: set<nat>, u1: set<nat>, n: nat, k: nat)
    requires FramesTaken(u0, u1, n)
    ensures u0 <= u1 && ((forall f :: f in u1 && f !in u0 ==> f < k) <==> FreeBelow(u0, k) >= n)
    ensures FreeBelow(u1, k) == if FreeBelow(u0, k) >= n then FreeBelow(u0, k) - n else 0
    decreases n
  {
    hide FreeBelow, OneTaken;
    if n > 0 {
      var u: set<nat> :| OneTaken(u0, u) && FramesTaken(u, u1, n - 1);
      hide FramesTaken;
      OneTakenBelow(u0, u, k);
      TakenBelow(u, u1, n - 1, k);
    }
  }

  lemma FreeBelowAtLeast(u: set<nat>, k: nat)
    ensures FreeBelow(u, k) + |u| >= k
  {
    SpanSize(0, k);
    SizeMinus(Span(0, k), u);
  }

  lemma {:induction false} LowestFreeExists(u: set<nat>, g: nat) returns (f: nat)
    requires g !in u
    ensures f <= g && LowestFree(u, f)
    decreases g
  {
    if h: nat :| h < g && h !in u {
      f := LowestFreeExists(u, h);
    } else {
      f := g;
    }
  }

  // With frames enough below the kernel, n frames do not touch it.
  lemma {:induction false} LowFramesSpare(u: set<nat>, n: nat, kernel: set<nat>)
    requires forall g :: g in kernel ==> g >= KERNEL_FRAME
    requires FreeBelow(u, KERNEL_FRAME) >= n
    ensures Spares(u, n, kernel)
    decreases n
  {
    hide FreeBelow, LowestFree, Span;
    if n > 0 {
      hide Spares;
      forall f: nat | LowestFree(u, f)
        ensures f !in kernel && Spares(u + {f}, n - 1, kernel)
      {
        FreeBelowTaken(u, KERNEL_FRAME, f);
        LowFramesSpare(u + {f}, n - 1, kernel);
      }
      SparesHere(u, n, kernel);
    }
  }

  lemma {:induction false} TooFewLowFrames(u: set<nat>, n: nat, kernel: set<nat>)
    requires KERNEL_FRAME in kernel && KERNEL_FRAME !in u && FreeBelow(u, KERNEL_FRAME) < n
    ensures !Spares(u, n, kernel)
    decreases n
  {
    hide FreeBelow, LowestFree, Spares, Span;
    var f := LowestFreeExists(u, KERNEL_FRAME);
    FreeBelowTaken(u, KERNEL_FRAME, f);
    if Spares(u, n, kernel) {
      SparesNext(u, n, kernel, f);
      TooFewLowFrames(u + {f}, n - 1, kernel);
    }
  }

  // With fewer they do, as its first frame is not kept back.
  lemma SparesIff(u: set<nat>, n: nat, kernel: set<nat>)
    requires IsKernel(kernel) && KERNEL_FRAME !in u
    ensures Spares(u, n, kernel) <==> FreeBelow(u, KERNEL_FRAME) >= n
  {
    if FreeBelow(u, KERNEL_FRAME) >= n {
      LowFramesSpare(u, n, kernel);
    } else {
      TooFewLowFrames(u, n, kernel);
    }
  }

  // Frames that are in use are not handed out.
  lemma {:induction false} UsedSpare(u: set<nat>, n: nat, kernel: set<nat>)
    requires kernel <= u
    ensures Spares(u, n, kernel)
    decreases n
  {
    if n > 0 {
      hide Spares, Span;
      forall f: nat | LowestFree(u, f)
        ensures f !in kernel && Spares(u + {f}, n - 1, kernel)
      {
        UsedSpare(u + {f}, n - 1, kernel);
      }
      SparesHere(u, n, kernel);
    }
  }
}
