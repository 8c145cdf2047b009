// The kernel heap on values: the block list of malloc.c as a sequence of nodes in list
// order, the operations of the allocator as functions on it, and the properties every run
// of malloc and free keeps.
module HeapModel {
  import opened Basics

  const HEADER: nat := 12
  const PAGE_SIZE: nat := 4096
  const HEAP_START: nat := 0xD100_0000
  // Pages between the heap base and the end of the 32-bit address space.
  const MAX_PAGES: nat := 0x2F000
  // num_pages is a uint8_t, so one request can add at most 255 pages.
  const MAX_GROWTH: nat := 255

  datatype Node = Node(addr: nat, size: nat, free: bool) {
    function Payload(): nat { addr + HEADER }

    function End(): nat { addr + HEADER + size }
  }

  datatype Heap = Heap(nodes: seq<Node>, pages: nat) {
    function Limit(): nat { HEAP_START + pages * PAGE_SIZE }
  }

  // ---------------------------------------------------------------- operations

  // Pages taken by malloc_init: rounded up with a 32-bit sum, and one more when the request has
  // a partial page.
  function InitialPages(bytes: nat): nat {
    (bytes + PAGE_SIZE - 1) % U32 / PAGE_SIZE + (if bytes % PAGE_SIZE > 0 then 1 else 0)
  }

  function Init(bytes: nat): Heap {
    Heap([Node(HEAP_START, (InitialPages(bytes) * PAGE_SIZE - HEADER) % U32, true)], InitialPages(bytes))
  }

  // size + sizeof(malloc_block_t), a 32-bit sum.
  function Needed(size: nat): nat { (size + HEADER) % U32 }

  predicate Fits(n: Node, size: nat) { n.free && size <= n.size }

  // Where the first-fit walk stops: the first free block that is large enough, and the
  // last block of the list when there is none, whatever its state.
  function Search(s: seq<Node>, size: nat): (i: nat)
    requires s != []
    ensures i < |s|
    ensures forall k :: 0 <= k < i ==> !Fits(s[k], size)
    ensures i + 1 < |s| ==> Fits(s[i], size)
  {
    if Fits(s[0], size) || |s| == 1 then 0 else 1 + Search(s[1..], size)
  }

  // The walk stops nowhere else.
  lemma {:induction false} SearchIs(s: seq<Node>, size: nat, i: nat)
    requires i < |s| && (i + 1 == |s| || Fits(s[i], size))
    requires forall k :: 0 <= k < i ==> !Fits(s[k], size)
    ensures Search(s, size) == i
  {
    if i > 0 { SearchIs(s[1..], size, i - 1); }
  }

  // The walk stops at the first free block of at least the size, and at the last block when there
  // is none.
  lemma FirstFit(s: seq<Node>, size: nat, i: nat)
    requires s != []
    ensures Search(s, size) == i
       <==> && i < |s| && (i + 1 == |s| || (s[i].free && s[i].size >= size))
            && forall k :: 0 <= k < i ==> !s[k].free || s[k].size < size
  {
    if i < |s| && (i + 1 == |s| || (s[i].free && s[i].size >= size))
       && forall k :: 0 <= k < i ==> !s[k].free || s[k].size < size {
      SearchIs(s, size, i);
    }
  }

  // The least number of pages, at least one, that brings a block to the bytes needed.
  function Growth(have: nat, need: nat): (n: nat)
    ensures 1 <= n && need <= have + n * PAGE_SIZE
    ensures n > 1 ==> have + (n - 1) * PAGE_SIZE < need
  {
    if need <= have + PAGE_SIZE then 1
    else (need - have + PAGE_SIZE - 1) / PAGE_SIZE
  }

  // The page counter after t turns of the counting loop: a uint8_t that starts at 1.
  function Counter(t: nat): nat { (1 + t) % 256 }

  // The counting loop never ends exactly when 255 pages are too few.
  lemma CountsForEver(have: nat, need: nat)
    ensures (forall t: nat :: have + Counter(t) * PAGE_SIZE < need) <==> Growth(have, need) > MAX_GROWTH
  {
    if Growth(have, need) > MAX_GROWTH {
      forall t: nat
        ensures have + Counter(t) * PAGE_SIZE < need
      {
        assert Counter(t) <= MAX_GROWTH;
      }
    } else {
      assert Counter(Growth(have, need) - 1) == Growth(have, need);
    }
  }

  // Block i, raised by extra bytes, cut in two where size bytes end.
  function Cut(s: seq<Node>, i: nat, size: nat, extra: nat): seq<Node>
    requires i < |s| && size + HEADER <= s[i].size + extra
  {
    s[..i]
    + [Node(s[i].addr, size, false),
       Node(s[i].addr + HEADER + size, s[i].size + extra - size - HEADER, true)]
    + s[i+1..]
  }

  // malloc_split on block i after its size was raised by extra bytes: the same in 32-bit
  // arithmetic.
  function Split(s: seq<Node>, i: nat, size: nat, extra: nat): seq<Node>
    requires i < |s|
  {
    s[..i]
    + [Node(s[i].addr, size, false),
       Node((s[i].addr + HEADER + size) % U32, (s[i].size + extra - size - HEADER) % U32, true)]
    + s[i+1..]
  }

  // When the block ends inside the address space, nothing wraps.
  lemma SplitIsCut(s: seq<Node>, i: nat, size: nat, extra: nat)
    requires i < |s| && size + HEADER <= s[i].size + extra && s[i].End() + extra <= U32
    ensures Split(s, i, size, extra) == Cut(s, i, size, extra)
  {
  }

  predicate Exact(h: Heap, size: nat)
    requires h.nodes != []
  {
    h.nodes[Search(h.nodes, size)].size == size
  }

  predicate Splits(h: Heap, size: nat)
    requires h.nodes != []
  {
    h.nodes[Search(h.nodes, size)].size > Needed(size)
  }

  // malloc_next_block does not come back: its page counter can never get there.
  predicate Hangs(h: Heap, size: nat)
    requires h.nodes != []
  {
    && !Exact(h, size) && !Splits(h, size)
    && Growth(h.nodes[Search(h.nodes, size)].size, Needed(size)) > MAX_GROWTH
  }

  // malloc_next_block for a non-zero request.
  function NextBlock(h: Heap, size: nat): Heap
    requires h.nodes != [] && !Hangs(h, size)
  {
    var i := Search(h.nodes, size);
    var n := h.nodes[i];
    if Exact(h, size) then h.(nodes := h.nodes[i := n.(free := false)])
    else if Splits(h, size) then h.(nodes := Split(h.nodes, i, size, 0))
    else
      var k := Growth(n.size, Needed(size));
      Heap(Split(h.nodes, i, size, k * PAGE_SIZE), h.pages + k)
  }

  function Pointer(h: Heap, size: nat): nat
    requires h.nodes != []
  {
    h.nodes[Search(h.nodes, size)].Payload()
  }

  // merge_free_blocks: one pass; after joining a pair the walk moves past the joined block.
  function Merge(s: seq<Node>): seq<Node> {
    if |s| < 2 then s
    else if s[0].free && s[1].free then
      [s[0].(size := s[0].size + s[1].size + HEADER)] + Merge(s[2..])
    else [s[0]] + Merge(s[1..])
  }

  // syscall_malloc on an initialised heap.
  function Malloc(h: Heap, size: nat): Heap
    requires h.nodes != [] && (size > 0 ==> !Hangs(h, size))
  {
    var h' := if size == 0 then h else NextBlock(h, size);
    h'.(nodes := Merge(h'.nodes))
  }

  // The block malloc_free finds for a pointer; the walk leaves out the last block.
  predicate Frees(s: seq<Node>, i: nat, ptr: nat) {
    i + 1 < |s| && s[i].Payload() == ptr && forall k :: 0 <= k < i ==> s[k].Payload() != ptr
  }

  function FindFrom(s: seq<Node>, i: nat, ptr: nat): (r: nat)
    requires i <= |s|
    requires forall k :: 0 <= k < i ==> s[k].Payload() != ptr
    ensures i <= r <= |s|
    ensures r < |s| ==> Frees(s, r, ptr)
    ensures r == |s| ==> forall k: nat :: !Frees(s, k, ptr)
    decreases |s| - i
  {
    if i + 1 >= |s| then |s|
    else if s[i].Payload() == ptr then i
    else FindFrom(s, i + 1, ptr)
  }

  function Free(h: Heap, ptr: nat): Heap {
    var i := FindFrom(h.nodes, 0, ptr);
    if i < |h.nodes| then h.(nodes := Merge(h.nodes[i := h.nodes[i].(free := true)])) else h
  }

  // ---------------------------------------------------------------- invariants

  // The nodes cover start..end without gap or overlap.
  predicate Tiles(s: seq<Node>, start: nat, end: nat) {
    if s == [] then start == end
    else s[0].addr == start && Tiles(s[1..], s[0].End(), end)
  }

  predicate Inv(h: Heap) {
    && h.nodes != [] && h.pages <= MAX_PAGES
    && Tiles(h.nodes, HEAP_START, h.Limit())
    && h.nodes[|h.nodes| - 1].free
    && AllButLastPositive(h.nodes)
  }

  predicate AllButLastPositive(s: seq<Node>) {
    forall i :: 0 <= i < |s| - 1 ==> s[i].size > 0
  }

  // The walk stops in the middle of the list at a block with 1 to 12 bytes to spare.
  predicate MiddleSlack(h: Heap, size: nat)
    requires h.nodes != []
  {
    var i := Search(h.nodes, size);
    i + 1 < |h.nodes| && size < h.nodes[i].size <= size + HEADER
  }

  // The walk stops at the last block, and the request is exactly its size.
  predicate ExactTail(h: Heap, size: nat)
    requires h.nodes != []
  {
    Search(h.nodes, size) == |h.nodes| - 1 && Exact(h, size)
  }

  // Neighbouring pairs of free blocks.
  function Pairs(s: seq<Node>): nat {
    if |s| < 2 then 0
    else (if s[0].free && s[1].free then 1 else 0) + Pairs(s[1..])
  }

  ghost function Live(s: seq<Node>): set<Node> {
    set n | n in s && !n.free
  }

  // ---------------------------------------------------------------- tiling

  lemma {:induction false} TilesSplit(a: seq<Node>, b: seq<Node>, start: nat, mid: nat, end: nat)
    requires Tiles(a, start, mid)
    ensures Tiles(a + b, start, end) <==> Tiles(b, mid, end)
  {
    if a == [] {
      assert a + b == b;
    } else {
      assert (a + b)[1..] == a[1..] + b;
      TilesSplit(a[1..], b, a[0].End(), mid, end);
    }
  }

  // A tiling cut before block i: what precedes it ends where it starts.
  lemma {:induction false} TilesCut(s: seq<Node>, i: nat, start: nat, end: nat)
    requires i < |s| && Tiles(s, start, end)
    ensures Tiles(s[..i], start, s[i].addr) && Tiles(s[i+1..], s[i].End(), end)
    ensures start <= s[i].addr && s[i].End() <= end
  {
    if i > 0 {
      TilesCut(s[1..], i - 1, s[0].End(), end);
      assert s[1..][..i-1] == s[..i][1..];
      assert s[1..][i..] == s[i+1..];
    }
    TilesOrdered(s[i+1..], s[i].End(), end);
  }

  lemma {:induction false} TilesOrdered(s: seq<Node>, start: nat, end: nat)
    requires Tiles(s, start, end)
    ensures start <= end
  {
    if s != [] { TilesOrdered(s[1..], s[0].End(), end); }
  }

  lemma TilesPair(s: seq<Node>, i: nat, j: nat, start: nat, end: nat)
    requires i < j < |s| && Tiles(s, start, end)
    ensures s[i].End() <= s[j].addr
    ensures j == i + 1 ==> s[i].End() == s[j].addr
  {
    TilesCut(s, i, start, end);
    TilesCut(s[i+1..], j - i - 1, s[i].End(), end);
  }

  lemma TilesReplace(s: seq<Node>, i: nat, mid: seq<Node>, start: nat, end: nat, end': nat)
    requires i < |s| && Tiles(s, start, end)
    requires Tiles(mid, s[i].addr, end')
    ensures Tiles(s[..i] + mid + s[i+1..], start, end) <==> Tiles(s[i+1..], end', end)
  {
    TilesCut(s, i, start, end);
    assert s[..i] + mid + s[i+1..] == s[..i] + (mid + s[i+1..]);
    TilesSplit(s[..i], mid + s[i+1..], start, s[i].addr, end);
    TilesSplit(mid, s[i+1..], s[i].addr, end', end);
  }

  // ---------------------------------------------------------------- merging

  lemma {:induction false} MergeEnds(s: seq<Node>)
    requires s != []
    ensures Merge(s) != []
    ensures Merge(s)[0].free == s[0].free
    ensures Merge(s)[|Merge(s)| - 1].free == s[|s| - 1].free
  {
    if |s| >= 2 {
      if s[0].free && s[1].free {
        if |s| > 2 { MergeEnds(s[2..]); }
      } else {
        MergeEnds(s[1..]);
      }
    }
  }

  lemma {:induction false} MergePositive(s: seq<Node>)
    requires AllButLastPositive(s)
    ensures AllButLastPositive(Merge(s))
  {
    if |s| >= 2 {
      var rest := if s[0].free && s[1].free then s[2..] else s[1..];
      MergePositive(rest);
      assert Merge(s)[1..] == Merge(rest);
    }
  }

  lemma {:induction false} MergeTiles(s: seq<Node>, start: nat, end: nat)
    requires Tiles(s, start, end)
    ensures Tiles(Merge(s), start, end)
  {
    if |s| >= 2 {
      if s[0].free && s[1].free {
        assert s[1..][1..] == s[2..];
        MergeTiles(s[2..], s[1].End(), end);
      } else {
        MergeTiles(s[1..], s[0].End(), end);
      }
    }
  }

  lemma LiveCons(n: Node, s: seq<Node>)
    ensures Live([n] + s) == (if n.free then {} else {n}) + Live(s)
  {
  }

  lemma {:induction false} MergeKeepsLive(s: seq<Node>)
    ensures Live(Merge(s)) == Live(s)
  {
    if |s| >= 2 {
      assert s == [s[0]] + s[1..];
      LiveCons(s[0], s[1..]);
      if s[0].free && s[1].free {
        MergeKeepsLive(s[2..]);
        assert s[1..] == [s[1]] + s[2..];
        LiveCons(s[1], s[2..]);
        LiveCons(Merge(s)[0], Merge(s[2..]));
      } else {
        MergeKeepsLive(s[1..]);
        LiveCons(s[0], Merge(s[1..]));
      }
    }
  }

  // The pass skips ahead after each joined pair, so it need not reach the end of a run of
  // free blocks, but it always removes at least half of the neighbouring free pairs.
  lemma {:induction false} MergeHalvesPairs(s: seq<Node>)
    ensures Pairs(Merge(s)) <= Pairs(s) / 2
  {
    if |s| >= 2 {
      if s[0].free && s[1].free {
        MergeHalvesPairs(s[2..]);
        if |s| > 2 { MergeEnds(s[2..]); }
        assert Merge(s)[1..] == Merge(s[2..]);
        assert s[1..][1..] == s[2..];
      } else {
        MergeHalvesPairs(s[1..]);
        MergeEnds(s[1..]);
        assert Merge(s)[1..] == Merge(s[1..]);
      }
    }
  }

  lemma {:induction false} MergeNothing(s: seq<Node>)
    requires Pairs(s) == 0
    ensures Merge(s) == s
  {
    if |s| >= 2 { MergeNothing(s[1..]); }
  }

  // ---------------------------------------------------------------- counting pairs

  function Join(a: seq<Node>, b: seq<Node>): nat {
    if a != [] && b != [] && a[|a| - 1].free && b[0].free then 1 else 0
  }

  lemma {:induction false} PairsConcat(a: seq<Node>, b: seq<Node>)
    ensures Pairs(a + b) == Pairs(a) + Join(a, b) + Pairs(b)
  {
    if a == [] {
      assert a + b == b;
    } else {
      assert (a + b)[1..] == a[1..] + b;
      PairsConcat(a[1..], b);
      if |a| == 1 {
        assert a[1..] == [];
      }
    }
  }

  lemma PairsAround(a: seq<Node>, m: seq<Node>, b: seq<Node>)
    requires m != []
    ensures Pairs(a + m + b) == Pairs(a) + Join(a, m) + Pairs(m) + Join(m, b) + Pairs(b)
  {
    PairsConcat(a + m, b);
    PairsConcat(a, m);
  }

  // ---------------------------------------------------------------- one call

  // Distinct positions hold blocks whose header and payload do not overlap.
  lemma NodesApart(s: seq<Node>, n: Node, m: Node, start: nat, end: nat)
    requires Tiles(s, start, end) && n in s && m in s && n != m
    ensures n.End() <= m.addr || m.End() <= n.addr
  {
    var i :| 0 <= i < |s| && s[i] == n;
    var j :| 0 <= j < |s| && s[j] == m;
    if i < j { TilesPair(s, i, j, start, end); } else { TilesPair(s, j, i, start, end); }
  }

  lemma UpdateAsConcat(s: seq<Node>, i: nat, n: Node)
    requires i < |s|
    ensures s[i := n] == s[..i] + [n] + s[i+1..]
    ensures s == s[..i] + [s[i]] + s[i+1..]
  {
  }

  lemma CutMiddle(s: seq<Node>, i: nat, size: nat, start: nat, end: nat)
    requires i < |s| && 0 < size && size + HEADER < s[i].size
    requires Tiles(s, start, end) && AllButLastPositive(s) && s[|s| - 1].free
    ensures var t := Cut(s, i, size, 0);
      Tiles(t, start, end) && AllButLastPositive(t) && t[|t| - 1].free
  {
    TilesCut(s, i, start, end);
    CutTiles(s, i, size, 0, start, end);
  }

  // The two halves of a cut tile the block they came from, grown by extra.
  lemma CutTiles(s: seq<Node>, i: nat, size: nat, extra: nat, start: nat, end: nat)
    requires i < |s| && size + HEADER <= s[i].size + extra
    requires Tiles(s, start, end)
    ensures forall e: nat ::
      Tiles(Cut(s, i, size, extra), start, e) <==> Tiles(s[i+1..], s[i].End() + extra, e)
  {
    TilesCut(s, i, start, end);
    var mid := Cut(s, i, size, extra)[i..i+2];
    assert Cut(s, i, size, extra) == s[..i] + (mid + s[i+1..]);
    assert Tiles(mid, s[i].addr, s[i].End() + extra) by {
      assert mid[1..] == [mid[1]];
      assert mid[1..][1..] == [];
    }
    forall e: nat
      ensures Tiles(Cut(s, i, size, extra), start, e) <==> Tiles(s[i+1..], s[i].End() + extra, e)
    {
      TilesSplit(s[..i], mid + s[i+1..], start, s[i].addr, e);
      TilesSplit(mid, s[i+1..], s[i].addr, s[i].End() + extra, e);
    }
  }

  lemma GrowTail(s: seq<Node>, size: nat, extra: nat, start: nat, end: nat)
    requires s != [] && 0 < size && size + HEADER <= s[|s| - 1].size + extra
    requires Tiles(s, start, end) && AllButLastPositive(s)
    ensures var t := Cut(s, |s| - 1, size, extra);
      Tiles(t, start, end + extra) && AllButLastPositive(t) && t[|t| - 1].free
  {
    var i := |s| - 1;
    TilesCut(s, i, start, end);
    assert s[i+1..] == [];
    CutTiles(s, i, size, extra, start, end);
  }

  lemma GrowMiddleBreaks(s: seq<Node>, i: nat, size: nat, extra: nat, start: nat, end: nat, e: nat)
    requires i + 1 < |s| && 0 < extra && size + HEADER <= s[i].size + extra
    requires Tiles(s, start, end)
    ensures !Tiles(Cut(s, i, size, extra), start, e)
  {
    CutTiles(s, i, size, extra, start, end);
    TilesPair(s, i, i + 1, start, end);
    assert s[i+1..][0] == s[i+1];
  }

  // Taking a block into or out of use moves nothing.
  lemma FlagTiles(s: seq<Node>, i: nat, free: bool, start: nat, end: nat)
    requires i < |s| && Tiles(s, start, end)
    ensures Tiles(s[i := s[i].(free := free)], start, end)
  {
    var n := s[i].(free := free);
    TilesCut(s, i, start, end);
    UpdateAsConcat(s, i, n);
    assert [n][1..] == [];
    TilesReplace(s, i, [n], start, end, n.End());
  }

  // The pages a request adds fit the 8-bit page counter and the address space.
  predicate GrowthFits(h: Heap, size: nat)
    requires h.nodes != []
  {
    Exact(h, size) || Splits(h, size)
    || (var k := Growth(h.nodes[Search(h.nodes, size)].size, Needed(size));
        k <= MAX_GROWTH && h.pages + k <= MAX_PAGES)
  }

  // What a caller can check before a request: its sum with a header does not wrap, the two bad
  // branches are not taken, and the growth fits.
  predicate Suits(h: Heap, size: nat)
    requires h.nodes != []
  {
    size + HEADER < U32 && !MiddleSlack(h, size) && !ExactTail(h, size) && GrowthFits(h, size)
  }

  lemma InBounds(h: Heap, i: nat)
    requires Inv(h) && i < |h.nodes|
    ensures HEAP_START <= h.nodes[i].addr && h.nodes[i].End() <= h.Limit() <= U32
  {
    TilesCut(h.nodes, i, HEAP_START, h.Limit());
  }

  // A request whose sum with a header wraps is larger than any block, so it is cut off the last
  // one, which then reaches beyond the address space.
  lemma WrapBreaks(h: Heap, size: nat)
    requires Inv(h) && size < U32 <= size + HEADER && !Hangs(h, size)
    ensures !Inv(NextBlock(h, size))
  {
    var i, h' := Search(h.nodes, size), NextBlock(h, size);
    InBounds(h, i);
    assert h'.nodes[i].addr == h.nodes[i].addr && h'.nodes[i].size == size;
    if Inv(h') {
      InBounds(h', i);
    }
  }

  lemma LimitGrows(h: Heap, k: nat)
    requires h.pages + k <= MAX_PAGES
    ensures Heap(h.nodes, h.pages + k).Limit() == h.Limit() + k * PAGE_SIZE <= U32
  {
  }

  // The last branch of malloc_next_block, when its growth fits: k pages are added to block i.
  lemma GrowthKeepsInv(h: Heap, size: nat, i: nat, k: nat, h': Heap)
    requires Inv(h) && i < |h.nodes| && 0 < size && h.pages + k <= MAX_PAGES && k > 0
    requires size + HEADER <= h.nodes[i].size + k * PAGE_SIZE
    requires h' == Heap(Split(h.nodes, i, size, k * PAGE_SIZE), h.pages + k)
    ensures Inv(h') <==> i == |h.nodes| - 1
  {
    hide Split, Tiles;
    var s, extra := h.nodes, k * PAGE_SIZE;
    InBounds(h, i);
    LimitGrows(h, k);
    SplitIsCut(s, i, size, extra);
    if i == |s| - 1 {
      GrowTail(s, size, extra, HEAP_START, h.Limit());
    } else {
      GrowMiddleBreaks(s, i, size, extra, HEAP_START, h.Limit(), h'.Limit());
    }
  }

  // The branch for an exact fit.
  lemma ExactKeepsInv(h: Heap, size: nat)
    requires Inv(h) && 0 < size && Exact(h, size)
    ensures Inv(NextBlock(h, size)) <==> !ExactTail(h, size)
  {
    hide Tiles;
    FlagTiles(h.nodes, Search(h.nodes, size), false, HEAP_START, h.Limit());
  }

  // The branch that splits.
  lemma SplitKeepsInv(h: Heap, size: nat)
    requires Inv(h) && 0 < size && size + HEADER < U32 && !Exact(h, size) && Splits(h, size)
    ensures Inv(NextBlock(h, size))
  {
    hide Tiles, Split, Cut;
    var s, i := h.nodes, Search(h.nodes, size);
    InBounds(h, i);
    SplitIsCut(s, i, size, 0);
    CutMiddle(s, i, size, HEAP_START, h.Limit());
  }

  // The branch that grows.
  lemma GrowKeepsInv(h: Heap, size: nat)
    requires Inv(h) && 0 < size && size + HEADER < U32 && !Exact(h, size) && !Splits(h, size) && !Hangs(h, size)
    ensures Inv(NextBlock(h, size)) <==> GrowthFits(h, size) && Search(h.nodes, size) == |h.nodes| - 1
  {
    hide Tiles, Split, Cut;
    var i := Search(h.nodes, size);
    if GrowthFits(h, size) {
      GrowthKeepsInv(h, size, i, Growth(h.nodes[i].size, size + HEADER), NextBlock(h, size));
    }
  }

  // malloc_next_block comes back and keeps the heap well formed exactly for the requests that
  // suit it.
  lemma NextBlockKeepsInv(h: Heap, size: nat)
    requires Inv(h) && 0 < size < U32
    ensures (!Hangs(h, size) && Inv(NextBlock(h, size))) <==> Suits(h, size)
  {
    hide NextBlock, Tiles, AllButLastPositive, Growth;
    if !Hangs(h, size) {
      if size + HEADER >= U32 {
        WrapBreaks(h, size);
      } else if Exact(h, size) {
        ExactKeepsInv(h, size);
      } else if Splits(h, size) {
        SplitKeepsInv(h, size);
      } else {
        GrowKeepsInv(h, size);
      }
    }
  }

  lemma LiveSplit(s: seq<Node>, i: nat)
    requires i < |s|
    ensures Live(s) == Live(s[..i]) + (if s[i].free then {} else {s[i]}) + Live(s[i+1..])
  {
    assert s == s[..i] + [s[i]] + s[i+1..];
  }

  ghost function Handed(h: Heap, size: nat): Node
    requires h.nodes != []
  {
    Node(Pointer(h, size) - HEADER, size, false)
  }

  lemma LiveReplace(s: seq<Node>, i: nat, m: seq<Node>)
    requires i < |s| && s[i].free
    ensures Live(s[..i] + m + s[i+1..]) == Live(s) + Live(m)
  {
    LiveSplit(s, i);
  }

  lemma LivePair(m: seq<Node>)
    requires 1 <= |m| <= 2 && !m[0].free && (|m| == 2 ==> m[1].free)
    ensures Live(m) == {m[0]}
  {
    assert m[0] in m;
  }

  lemma NextBlockLiveSet(h: Heap, size: nat)
    requires Inv(h) && size > 0 && Suits(h, size)
    ensures Live(NextBlock(h, size).nodes) == Live(h.nodes) + {Handed(h, size)}
  {
    var s, i := h.nodes, Search(h.nodes, size);
    var t := NextBlock(h, size).nodes;
    var b := Handed(h, size);
    if Exact(h, size) {
      UpdateAsConcat(s, i, b);
      LiveReplace(s, i, [b]);
      LivePair([b]);
    } else {
      SplitLive(s, i, size, if Splits(h, size) then 0 else Growth(s[i].size, Needed(size)) * PAGE_SIZE);
    }
  }

  lemma SplitLive(s: seq<Node>, i: nat, size: nat, extra: nat)
    requires i < |s| && s[i].free
    ensures Live(Split(s, i, size, extra)) == Live(s) + {Node(s[i].addr, size, false)}
  {
    var t := Split(s, i, size, extra);
    var m := [t[i], t[i+1]];
    assert t == s[..i] + m + s[i+1..];
    LiveReplace(s, i, m);
    LivePair(m);
  }

  lemma NextBlockFresh(h: Heap, size: nat, n: Node)
    requires Inv(h) && size > 0 && Suits(h, size) && n in Live(h.nodes)
    ensures n.End() <= Handed(h, size).addr || Handed(h, size).End() <= n.addr
  {
    var s, i := h.nodes, Search(h.nodes, size);
    var k :| 0 <= k < |s| && s[k] == n;
    if k < i {
      TilesPair(s, k, i, HEAP_START, h.Limit());
    } else {
      TilesPair(s, i, k, HEAP_START, h.Limit());
    }
  }

  lemma NextBlockPairs(h: Heap, size: nat)
    requires Inv(h) && size > 0 && !Hangs(h, size)
    ensures Pairs(NextBlock(h, size).nodes) <= Pairs(h.nodes)
  {
    var s, i := h.nodes, Search(h.nodes, size);
    var t := NextBlock(h, size).nodes;
    if Exact(h, size) {
      UpdateAsConcat(s, i, t[i]);
      PairsReplace(s, i, [t[i]]);
    } else {
      PairsReplace(s, i, t[i..i+2]);
    }
  }

  // A free block replaced by a used one, perhaps followed by a free one.
  lemma PairsReplace(s: seq<Node>, i: nat, m: seq<Node>)
    requires i < |s| && 1 <= |m| <= 2 && !m[0].free && (|m| == 2 ==> s[i].free)
    ensures Pairs(s[..i] + m + s[i+1..]) <= Pairs(s)
  {
    UpdateAsConcat(s, i, s[i]);
    PairsAround(s[..i], m, s[i+1..]);
    PairsAround(s[..i], [s[i]], s[i+1..]);
    assert |m| == 2 ==> m[1..] == [m[1]];
  }

  lemma FreeKeepsInv(h: Heap, ptr: nat)
    requires Inv(h)
    ensures Inv(Free(h, ptr))
    ensures Free(h, ptr).pages == h.pages
  {
    var s, i := h.nodes, FindFrom(h.nodes, 0, ptr);
    if i < |s| {
      hide Tiles, Merge;
      var t := s[i := s[i].(free := true)];
      FlagTiles(s, i, true, HEAP_START, h.Limit());
      MergeTiles(t, HEAP_START, h.Limit());
      MergeEnds(t);
      MergePositive(t);
    }
  }

  lemma FreePairs(h: Heap, ptr: nat)
    requires Inv(h) && Pairs(h.nodes) <= 1
    ensures Pairs(Free(h, ptr).nodes) <= 1
  {
    var s, i := h.nodes, FindFrom(h.nodes, 0, ptr);
    if i < |s| {
      var n := s[i].(free := true);
      UpdateAsConcat(s, i, n);
      MergeHalvesPairs(s[i := n]);
      PairsAround(s[..i], [n], s[i+1..]);
      PairsAround(s[..i], [s[i]], s[i+1..]);
    }
  }

  // Free takes exactly the block with that pointer out of use.
  lemma FreeLive(h: Heap, ptr: nat)
    requires Inv(h)
    ensures Live(Free(h, ptr).nodes) == set n | n in Live(h.nodes) && n.Payload() != ptr
  {
    var s, i := h.nodes, FindFrom(h.nodes, 0, ptr);
    if i < |s| {
      MergeKeepsLive(s[i := s[i].(free := true)]);
      FreedLive(h, i, ptr);
    } else {
      forall n | n in Live(s)
        ensures n.Payload() != ptr
      {
        var k :| 0 <= k < |s| && s[k] == n;
        FirstPayload(s, k, ptr);
      }
    }
  }

  // A non-last block with the wanted payload is found, or an earlier one is.
  lemma {:induction false} FirstPayload(s: seq<Node>, k: nat, ptr: nat)
    requires k + 1 < |s| && forall j: nat :: !Frees(s, j, ptr)
    ensures s[k].Payload() != ptr
  {
    forall j | 0 <= j < k
      ensures s[j].Payload() != ptr
    {
      FirstPayload(s, j, ptr);
    }
    assert !Frees(s, k, ptr);
  }

  lemma FreedLive(h: Heap, i: nat, ptr: nat)
    requires Inv(h) && i < |h.nodes| && h.nodes[i].Payload() == ptr
    ensures Live(h.nodes[i := h.nodes[i].(free := true)])
         == set n | n in Live(h.nodes) && n.Payload() != ptr
  {
    var s := h.nodes;
    var t := s[i := s[i].(free := true)];
    forall n | n in Live(t)
      ensures n in Live(s) && n.Payload() != ptr
    {
      var k :| 0 <= k < |t| && t[k] == n;
      OtherPayload(h, i, k);
    }
    forall n | n in Live(s) && n.Payload() != ptr
      ensures n in Live(t)
    {
      var k :| 0 <= k < |s| && s[k] == n;
      assert t[k] == n;
    }
  }

  lemma OtherPayload(h: Heap, i: nat, k: nat)
    requires Inv(h) && i < |h.nodes| && k < |h.nodes| && k != i
    ensures h.nodes[k].Payload() != h.nodes[i].Payload()
  {
    if k < i {
      TilesPair(h.nodes, k, i, HEAP_START, h.Limit());
    } else {
      TilesPair(h.nodes, i, k, HEAP_START, h.Limit());
    }
  }

  // ---------------------------------------------------------------- runs

  datatype Op = MallocOp(size: nat) | FreeOp(ptr: nat)

  predicate Admits(h: Heap, op: Op)
    requires h.nodes != []
  {
    op.MallocOp? && op.size > 0 ==> Suits(h, op.size)
  }

  predicate ComesBack(h: Heap, op: Op)
    requires h.nodes != []
  {
    op.MallocOp? && op.size > 0 ==> !Hangs(h, op.size)
  }

  function Step(h: Heap, op: Op): Heap
    requires h.nodes != [] && ComesBack(h, op)
  {
    match op
    case MallocOp(size) => Malloc(h, size)
    case FreeOp(ptr) => Free(h, ptr)
  }

  ghost predicate Good(h: Heap) {
    Inv(h) && Pairs(h.nodes) <= 1
  }

  lemma MallocLive(h: Heap, size: nat)
    requires Inv(h) && Admits(h, MallocOp(size))
    ensures Live(Malloc(h, size).nodes)
         == Live(h.nodes) + (if size == 0 then {} else {Handed(h, size)})
  {
    MergeKeepsLive(if size == 0 then h.nodes else NextBlock(h, size).nodes);
    if size > 0 { NextBlockLiveSet(h, size); }
  }

  lemma MergeKeepsInv(h: Heap)
    requires Inv(h)
    ensures Inv(h.(nodes := Merge(h.nodes))) && Pairs(Merge(h.nodes)) <= Pairs(h.nodes) / 2
  {
    hide Tiles, Merge, Pairs;
    MergeTiles(h.nodes, HEAP_START, h.Limit());
    MergeEnds(h.nodes);
    MergePositive(h.nodes);
    MergeHalvesPairs(h.nodes);
  }

  lemma MallocKeepsInv(h: Heap, size: nat)
    requires Inv(h) && Admits(h, MallocOp(size))
    ensures Inv(Malloc(h, size))
    ensures Pairs(h.nodes) <= 1 ==> Pairs(Malloc(h, size).nodes) == 0
  {
    hide Inv, Merge, NextBlock, Pairs;
    if size > 0 {
      NextBlockKeepsInv(h, size);
      NextBlockPairs(h, size);
    }
    MergeKeepsInv(if size == 0 then h else NextBlock(h, size));
  }

  predicate Admissible(h: Heap, ops: seq<Op>)
    requires h.nodes != []
    decreases |ops|
  {
    ops == [] || (Admits(h, ops[0]) && Step(h, ops[0]).nodes != [] && Admissible(Step(h, ops[0]), ops[1..]))
  }

  function Run(h: Heap, ops: seq<Op>): Heap
    requires h.nodes != [] && Admissible(h, ops)
    decreases |ops|
  {
    if ops == [] then h else Run(Step(h, ops[0]), ops[1..])
  }

  // The heap starts out well formed exactly when its page count, a wrapping sum, is neither 0
  // nor more than the address space has room for.
  lemma InitGood(bytes: nat)
    requires bytes < U32
    ensures Good(Init(bytes)) <==> 1 <= InitialPages(bytes) <= MAX_PAGES
    ensures Live(Init(bytes).nodes) == {}
  {
    var h := Init(bytes);
    assert h.nodes[1..] == [];
    assert Tiles(h.nodes, HEAP_START, h.Limit()) <==> h.nodes[0].End() == h.Limit();
  }

  lemma PagesOfFirst(bytes: nat)
    requires 0 < bytes < U32
    ensures bytes <= U32 - PAGE_SIZE ==>
      InitialPages(bytes) == bytes / PAGE_SIZE + (if bytes % PAGE_SIZE == 0 then 0 else 2)
    ensures bytes > U32 - PAGE_SIZE ==> InitialPages(bytes) == 1
  {
    var q, r := bytes / PAGE_SIZE, bytes % PAGE_SIZE;
    assert bytes == q * PAGE_SIZE + r;
    if bytes <= U32 - PAGE_SIZE {
      assert (bytes + PAGE_SIZE - 1) % U32 == bytes + PAGE_SIZE - 1;
    } else {
      assert (bytes + PAGE_SIZE - 1) % U32 == bytes + PAGE_SIZE - 1 - U32;
      assert bytes == (U32 / PAGE_SIZE - 1) * PAGE_SIZE + (bytes - U32 + PAGE_SIZE);
    }
  }

  // The first request is met from the pages it set the heap up with exactly when it is not a
  // whole number of pages, when malloc_init takes a page more than it needs; the last page
  // below 4 GiB is an exception, as the sums wrap there.
  lemma FirstRequestSplits(bytes: nat)
    requires 0 < bytes < U32
    ensures Splits(Init(bytes), bytes)
       <==> bytes % PAGE_SIZE != 0 && (bytes <= U32 - PAGE_SIZE || bytes >= U32 - HEADER)
  {
    PagesOfFirst(bytes);
    var q, r := bytes / PAGE_SIZE, bytes % PAGE_SIZE;
    assert bytes == q * PAGE_SIZE + r;
    if bytes > U32 - PAGE_SIZE {
      assert Needed(bytes) == if bytes >= U32 - HEADER then bytes + HEADER - U32 else bytes + HEADER;
    }
  }

  // The first block is never empty, so malloc_next_block never sets the heap up anew.
  lemma HeadNeverEmpty(h: Heap)
    requires Inv(h)
    ensures h.nodes[0].size > 0
  {
    if |h.nodes| == 1 {
      assert h.nodes[1..] == [];
      assert Tiles([], h.nodes[0].End(), h.Limit());
    }
  }

  // Every admissible run keeps the tiling, the free tail and the bound on free neighbours.
  lemma {:induction false} RunKeepsGood(h: Heap, ops: seq<Op>)
    requires Good(h) && Admissible(h, ops)
    ensures Good(Run(h, ops))
    ensures ops != [] && ops[|ops| - 1].MallocOp? ==> Pairs(Run(h, ops).nodes) == 0
    decreases |ops|
  {
    if ops != [] {
      StepKeepsGood(h, ops[0]);
      RunKeepsGood(Step(h, ops[0]), ops[1..]);
    }
  }

  lemma StepKeepsGood(h: Heap, op: Op)
    requires Good(h) && Admits(h, op)
    ensures Good(Step(h, op))
    ensures op.MallocOp? ==> Pairs(Step(h, op).nodes) == 0
  {
    match op
    case MallocOp(size) => MallocKeepsInv(h, size);
    case FreeOp(ptr) =>
      FreeKeepsInv(h, ptr);
      FreePairs(h, ptr);
  }

  // A run from the very first request on.
  lemma RunFromStart(bytes: nat, ops: seq<Op>)
    requires 0 < bytes < U32 && InitialPages(bytes) <= MAX_PAGES
    requires Admissible(Init(bytes), [MallocOp(bytes)] + ops)
    ensures Good(Run(Init(bytes), [MallocOp(bytes)] + ops))
  {
    PagesOfFirst(bytes);
    InitGood(bytes);
    RunKeepsGood(Init(bytes), [MallocOp(bytes)] + ops);
  }

  // A block in use keeps its address and its size until its pointer is freed.
  lemma {:induction false} BlockPersists(h: Heap, ops: seq<Op>, n: Node)
    requires Good(h) && Admissible(h, ops) && n in Live(h.nodes)
    requires FreeOp(n.Payload()) !in ops
    ensures n in Live(Run(h, ops).nodes)
    decreases |ops|
  {
    if ops != [] {
      StepKeepsGood(h, ops[0]);
      match ops[0] {
        case MallocOp(size) => MallocLive(h, size);
        case FreeOp(ptr) => FreeLive(h, ptr);
      }
      BlockPersists(Step(h, ops[0]), ops[1..], n);
    }
  }

  // ---------------------------------------------------------------- an admissible class

  predicate Residue(s: seq<Node>) {
    forall i :: 0 <= i < |s| ==> s[i].size % 16 == 4
  }

  lemma FourMod(q: int)
    ensures (16 * q + 4) % 16 == 4
  {
  }

  lemma JoinedResidue(a: nat, b: nat)
    requires a % 16 == 4 && b % 16 == 4
    ensures (a + b + HEADER) % 16 == 4
  {
    var x, y := a / 16, b / 16;
    assert a == 16 * x + 4 && b == 16 * y + 4;
    FourMod(x + y + 1);
  }

  lemma {:induction false} MergeResidue(s: seq<Node>)
    requires Residue(s)
    ensures Residue(Merge(s))
  {
    if |s| >= 2 {
      var rest := if s[0].free && s[1].free then s[2..] else s[1..];
      MergeResidue(rest);
      JoinedResidue(s[0].size, s[1].size);
    }
  }

  lemma RestResidue(have: nat, size: nat, pages: nat)
    requires have % 16 == 4 && size % 16 == 4
    ensures (have + pages * PAGE_SIZE - size - HEADER) % U32 % 16 == 4
  {
    var a, b, x := have / 16, size / 16, have + pages * PAGE_SIZE - size - HEADER;
    var q := a + 256 * pages - b - 1;
    assert x == 16 * q + 4;
    assert x % U32 == 16 * (q - x / U32 * 0x1000_0000) + 4;
    FourMod(q - x / U32 * 0x1000_0000);
  }

  lemma SplitResidue(s: seq<Node>, i: nat, size: nat, pages: nat)
    requires i < |s| && Residue(s) && size % 16 == 4
    ensures Residue(Split(s, i, size, pages * PAGE_SIZE))
  {
    var t := Split(s, i, size, pages * PAGE_SIZE);
    RestResidue(s[i].size, size, pages);
    assert forall k :: 0 <= k < i ==> t[k] == s[k];
    assert forall k :: i + 1 < k < |t| ==> t[k] == s[k-1];
  }

  lemma NextBlockResidue(h: Heap, size: nat)
    requires h.nodes != [] && Residue(h.nodes) && size % 16 == 4 && !Hangs(h, size)
    ensures Residue(NextBlock(h, size).nodes) && !MiddleSlack(h, size)
  {
    var s, i := h.nodes, Search(h.nodes, size);
    if !Exact(h, size) {
      SplitResidue(s, i, size, if Splits(h, size) then 0 else Growth(s[i].size, Needed(size)));
    }
  }

  lemma StepResidue(h: Heap, op: Op)
    requires h.nodes != [] && Residue(h.nodes) && ComesBack(h, op)
    requires op.MallocOp? ==> op.size % 16 == 4
    ensures Residue(Step(h, op).nodes)
    ensures op.MallocOp? ==> !MiddleSlack(h, op.size)
  {
    match op
    case MallocOp(size) =>
      NextBlockResidue(h, size);
      MergeResidue(NextBlock(h, size).nodes);
    case FreeOp(ptr) =>
      var i := FindFrom(h.nodes, 0, ptr);
      if i < |h.nodes| { MergeResidue(h.nodes[i := h.nodes[i].(free := true)]); }
  }

  // Along the run no request wraps or fits the last block exactly, and all growth fits.
  predicate TailNeverExact(h: Heap, ops: seq<Op>)
    requires h.nodes != []
    decreases |ops|
  {
    ops == [] ||
    (&& (ops[0].MallocOp? ==>
           ops[0].size + HEADER < U32 && !ExactTail(h, ops[0].size) && GrowthFits(h, ops[0].size))
     && Step(h, ops[0]).nodes != []
     && TailNeverExact(Step(h, ops[0]), ops[1..]))
  }

  // When every request is 4 modulo 16, a middle block never has too little slack: the sum with
  // a header, the exact fit of the last block and the growth are all that is left to watch.
  lemma {:induction false} ResidueRunAdmissible(h: Heap, ops: seq<Op>)
    requires h.nodes != [] && Residue(h.nodes) && TailNeverExact(h, ops)
    requires forall k :: 0 <= k < |ops| ==> ops[k].MallocOp? ==> ops[k].size % 16 == 4
    ensures Admissible(h, ops)
    decreases |ops|
  {
    if ops != [] {
      StepResidue(h, ops[0]);
      ResidueRunAdmissible(Step(h, ops[0]), ops[1..]);
    }
  }

  lemma InitResidue(bytes: nat)
    ensures Residue(Init(bytes).nodes)
  {
    RestResidue(4, 4, InitialPages(bytes));
  }

  // One pass over three free blocks joins the first two and moves past them.
  lemma ThreeFree(a: Node, b: Node, c: Node)
    requires a.free && b.free && c.free
    ensures Merge([a, b, c]) == [Node(a.addr, a.size + 12 + b.size, true), c]
    ensures Merge([a, b]) == [Node(a.addr, a.size + 12 + b.size, true)]
  {
    assert [a, b, c][2..] == [c] && [a, b][2..] == [];
  }

  // ---------------------------------------------------------------- the two bad branches

  // A request is handed the last block, in use or not, exactly when no block before it fits.
  lemma TailHandedOut(h: Heap, size: nat)
    requires h.nodes != [] && Tiles(h.nodes, HEAP_START, h.Limit())
    ensures Pointer(h, size) == h.nodes[|h.nodes| - 1].Payload()
       <==> forall k :: 0 <= k < |h.nodes| - 1 ==> !Fits(h.nodes[k], size)
  {
    var i, last := Search(h.nodes, size), |h.nodes| - 1;
    if i < last {
      TilesPair(h.nodes, i, last, HEAP_START, h.Limit());
    }
  }

  // After an exact fit of the last block it is handed out again, although nothing was freed: to
  // the next request of that size, and to a later request of any size exactly when no block
  // before it fits.
  lemma ExactTailHandsOutTwice(h: Heap, size: nat, later: nat)
    requires Inv(h) && size > 0 && Pairs(h.nodes) == 0 && ExactTail(h, size)
    ensures var h' := Malloc(h, size);
      && h'.nodes != [] && h'.nodes[|h'.nodes| - 1] == Handed(h, size) && Handed(h, size) in Live(h'.nodes)
      && Pointer(h', size) == Pointer(h, size)
      && (Pointer(h', later) == Pointer(h, size)
          <==> forall k :: 0 <= k < |h'.nodes| - 1 ==> !Fits(h'.nodes[k], later))
  {
    hide Merge;
    var s, t := h.nodes, NextBlock(h, size).nodes;
    var last := |s| - 1;
    NextBlockPairs(h, size);
    MergeNothing(t);
    assert t[last] == Handed(h, size) && t[last] in t;
    TailFoundAgain(s, t, size);
    FlagTiles(s, last, false, HEAP_START, h.Limit());
    TailHandedOut(Malloc(h, size), later);
  }

  // The walk does not look at the last block, so taking it out of use changes nothing.
  lemma TailFoundAgain(s: seq<Node>, t: seq<Node>, size: nat)
    requires s != [] && Search(s, size) == |s| - 1 && t == s[|s| - 1 := s[|s| - 1].(free := false)]
    ensures Search(t, size) == |t| - 1
  {
    assert forall k :: 0 <= k < |s| - 1 ==> t[k] == s[k] && !Fits(s[k], size);
    SearchIs(t, size, |t| - 1);
  }

  // A middle block with too little slack: the new block covers the header of its successor.
  lemma MiddleSlackOverlaps(h: Heap, size: nat)
    requires Inv(h) && size > 0 && MiddleSlack(h, size)
    ensures var t, i := NextBlock(h, size).nodes, Search(h.nodes, size);
      && i + 2 < |t| && t[i+2] == h.nodes[i+1]
      && t[i+1].addr < t[i+2].Payload() && t[i+2].Payload() < t[i+1].End()
  {
    var s, i := h.nodes, Search(h.nodes, size);
    TilesPair(s, i, i + 1, HEAP_START, h.Limit());
    InBounds(h, i);
    assert Growth(s[i].size, Needed(size)) == 1;
    OverlapOfSplit(s[i], size);
  }

  // Where the second half of a block with too little slack lies, once a page was added.
  lemma OverlapOfSplit(n: Node, size: nat)
    requires size < n.size <= size + HEADER && n.End() <= U32
    ensures (n.addr + HEADER + size) % U32 == n.addr + HEADER + size
    ensures (n.size + PAGE_SIZE - size - HEADER) % U32 == n.size + PAGE_SIZE - size - HEADER
  {
  }

  // ---------------------------------------------------------------- runs that get there

  lemma NoNeighboursFree(a: Node, b: Node, c: Node)
    requires !b.free
    ensures Merge([a, b, c]) == [a, b, c]
  {
    assert [a, b, c][1..] == [b, c] && [b, c][1..] == [c];
    assert Merge([c]) == [c] && Merge([b, c]) == [b, c];
  }

  // The heap after a first request of 100 bytes.
  function AfterFirst(): Heap {
    Heap([Node(0xD100_0000, 100, false), Node(0xD100_0070, 8068, true)], 2)
  }

  lemma FirstOfHundred()
    ensures Suits(Init(100), 100) && Malloc(Init(100), 100) == AfterFirst() && Good(AfterFirst())
    ensures Pairs(AfterFirst().nodes) == 0
  {
    var h := Init(100);
    assert h == Heap([Node(HEAP_START, 8180, true)], 2);
    assert Search(h.nodes, 100) == 0;
    var t := NextBlock(h, 100).nodes;
    assert t == AfterFirst().nodes;
    assert t[1..] == [t[1]];
    PagesOfFirst(100);
    InitGood(100);
    MallocKeepsInv(h, 100);
  }

  // From the start: two requests later the same block is handed out twice, though every
  // request before was unexceptional.
  lemma ExactTailRun()
    ensures Suits(Init(100), 100) && Malloc(Init(100), 100) == AfterFirst() && Pointer(Init(100), 100) == 0xD100_000C
    ensures ExactTail(AfterFirst(), 8068) && !Hangs(AfterFirst(), 8068)
    ensures var h := Malloc(AfterFirst(), 8068);
      && h.nodes != [] && Handed(AfterFirst(), 8068) in Live(h.nodes)
      && Pointer(h, 8068) == Pointer(AfterFirst(), 8068)
  {
    FirstOfHundred();
    var s := AfterFirst().nodes;
    SearchIs(s, 8068, 1);
    ExactTailHandsOutTwice(AfterFirst(), 8068, 8068);
  }

  function AfterSecond(free: bool): Heap {
    Heap([Node(0xD100_0000, 100, free), Node(0xD100_0070, 100, false), Node(0xD100_00E0, 7956, true)], 2)
  }

  lemma SecondOfHundred()
    ensures Suits(AfterFirst(), 100) && Malloc(AfterFirst(), 100) == AfterSecond(false) && Inv(AfterSecond(false))
  {
    FirstOfHundred();
    var s, t := AfterFirst().nodes, AfterSecond(false).nodes;
    SearchIs(s, 100, 1);
    assert NextBlock(AfterFirst(), 100).nodes == t;
    NoNeighboursFree(t[0], t[1], t[2]);
    MallocKeepsInv(AfterFirst(), 100);
  }

  lemma FirstFreed()
    ensures Free(AfterSecond(false), HEAP_START + HEADER) == AfterSecond(true) && Inv(AfterSecond(true))
  {
    SecondOfHundred();
    var t, u := AfterSecond(false).nodes, AfterSecond(true).nodes;
    assert Frees(t, 0, HEAP_START + HEADER);
    assert t[0 := t[0].(free := true)] == u;
    NoNeighboursFree(u[0], u[1], u[2]);
    FreeKeepsInv(AfterSecond(false), HEAP_START + HEADER);
  }

  // From the start: two blocks of 100 bytes, the first one freed, and a request of 96 bytes
  // ends in a heap that is not well formed.
  lemma MiddleSlackRun()
    ensures Suits(Init(100), 100) && Malloc(Init(100), 100) == AfterFirst() && Suits(AfterFirst(), 100)
    ensures var h := Free(Malloc(AfterFirst(), 100), HEAP_START + HEADER);
      h.nodes != [] && MiddleSlack(h, 96) && !Hangs(h, 96) && !Inv(NextBlock(h, 96))
  {
    FirstOfHundred();
    SecondOfHundred();
    FirstFreed();
    hide Inv;
    SearchIs(AfterSecond(true).nodes, 96, 0);
    NextBlockKeepsInv(AfterSecond(true), 96);
  }
}
