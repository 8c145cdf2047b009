// What elf_load reads from an ELF32 image, and what its pages hold afterwards.
module ElfModel {
  import opened Basics
  import opened MemoryBytes
  import opened PageTables

  datatype Code = Loaded | BadMagic | BadClass | BadType | NoSegment | OutOfMemory

  // ---------------------------------------------------------------- the image

  // The fields of a program header that the loader looks at.
  datatype Segment = Segment(kind: nat, offset: nat, vaddr: nat, filesz: nat, memsz: nat) {
    predicate Loads() { kind == 1 }

    function First(): nat { vaddr / PAGE_SIZE }

    // num_pages, in 32-bit arithmetic; other headers than PT_LOAD are passed over.
    function Pages(): nat {
      if Loads() then (memsz + PAGE_SIZE - 1) % U32 / PAGE_SIZE else 0
    }

    predicate Covers(q: nat) { First() <= q < First() + Pages() }

    // Clear of the identity-mapped window that the loader works through, and below the kernel at
    // 3 GiB and its heap behind it.
    predicate Placeable() { Pages() > 0 ==> WINDOW <= First() && First() + Pages() <= KERNEL_PAGE }

    // The part of the segment that is copied lies inside the image.
    predicate DataFits(size: nat) { Copied() > 0 ==> offset + Copied() <= size }

    // The number of bytes taken from the file.
    function Copied(): nat {
      if filesz < Pages() * PAGE_SIZE then filesz else Pages() * PAGE_SIZE
    }
  }

  // Up to the end of the kernel's 4 MiB, those are the segments with no page of the kernel.
  lemma PlaceableIff(s: Segment)
    requires s.First() + s.Pages() <= KERNEL_PAGE + ENTRIES
    ensures s.Placeable() <==> forall q: nat :: s.Covers(q) ==> KernelMap(q).None?
  {
    if s.Pages() > 0 && !s.Placeable() {
      var q := if s.First() < WINDOW then s.First() else s.First() + s.Pages() - 1;
      assert s.Covers(q) && KernelMap(q).Some?;
    }
  }

  // Mapping a page of any other takes it from the kernel that is running, unless the frame is the
  // one the kernel has there.
  lemma KernelPageLost(r0: seq<nat>, r1: seq<nat>, pd: nat, u0: set<nat>, u1: set<nat>, s: Segment, p: nat, f: nat)
    requires pd < WINDOW && WINDOW * ENTRIES <= |r0| && KernelMapped(r0, pd)
    requires s.First() + p < PAGES && KernelMap(s.First() + p).Some?
    requires OnePage(r0, r1, pd, u0, u1, s.First() + p, Some(f))
    ensures KernelMapped(r1, pd) <==> f == KernelMap(s.First() + p).value
  {
    hide KernelMapped, OnePage;
    KernelMapKept(r0, r1, pd, u0, u1, s.First() + p, Some(f));
  }

  // ELFMAG0 to ELFMAG3, EI_CLASS and e_type.
  function CheckHeader(img: seq<nat>): Code
    requires |img| >= 52
  {
    if img[0] != 0x7F || img[1] != 0x45 || img[2] != 0x4C || img[3] != 0x46 then BadMagic
    else if img[4] != 1 then BadClass
    else if Le16(img, 16) != 2 then BadType
    else Loaded
  }

  function Entry(img: seq<nat>): nat
    requires |img| >= 52
  {
    Le32(img, 24)
  }

  function HeaderAt(img: seq<nat>, i: nat): nat
    requires |img| >= 52
  {
    Le32(img, 28) + i * Le16(img, 42)
  }

  function Count(img: seq<nat>): nat
    requires |img| >= 52
  {
    Le16(img, 44)
  }

  // Every field of every program header that is read lies inside the image.
  predicate TableFits(img: seq<nat>)
    requires |img| >= 52
  {
    forall i :: 0 <= i < Count(img) ==> HeaderAt(img, i) + 24 <= |img|
  }

  function SegmentAt(img: seq<nat>, k: nat): Segment
    requires k + 24 <= |img|
  {
    Segment(Le32(img, k), Le32(img, k + 4), Le32(img, k + 8), Le32(img, k + 16), Le32(img, k + 20))
  }

  function Segments(img: seq<nat>): (r: seq<Segment>)
    requires |img| >= 52 && TableFits(img)
    ensures |r| == Count(img)
    ensures forall i :: 0 <= i < |r| ==> r[i] == SegmentAt(img, HeaderAt(img, i))
  {
    seq(Count(img), i requires 0 <= i < Count(img) => SegmentAt(img, HeaderAt(img, i)))
  }

  // The file header and a program header field by field, in the order of the ELF32 structures.
  datatype FileHeader = FileHeader(ident: seq<nat>, kind: nat, machine: nat, version: nat, entry: nat, phoff: nat,
                                   shoff: nat, flags: nat, ehsize: nat, phentsize: nat, phnum: nat, shentsize: nat,
                                   shnum: nat, shstrndx: nat)

  function PackedHeader(h: FileHeader): (b: seq<nat>)
    requires |h.ident| == 16
    ensures |b| == 52
  {
    h.ident + (Bytes2(h.kind) + Bytes2(h.machine) + Bytes4(h.version) + Bytes4(h.entry) + Bytes4(h.phoff))
    + (Bytes4(h.shoff) + Bytes4(h.flags) + Bytes2(h.ehsize) + Bytes2(h.phentsize) + Bytes2(h.phnum))
    + (Bytes2(h.shentsize) + Bytes2(h.shnum) + Bytes2(h.shstrndx))
  }

  // The loader finds type, entry point, and the place, size and number of program headers.
  lemma HeaderFieldsFound(img: seq<nat>, h: FileHeader, i: nat)
    requires |img| >= 52 && |h.ident| == 16 && img[..52] == PackedHeader(h)
    requires h.kind < 0x10000 && h.entry < U32 && h.phoff < U32 && h.phentsize < 0x10000 && h.phnum < 0x10000
    ensures CheckHeader(img) == Loaded <==> h.ident[..5] == [0x7F, 0x45, 0x4C, 0x46, 1] && h.kind == 2
    ensures Entry(img) == h.entry && Count(img) == h.phnum && HeaderAt(img, i) == h.phoff + i * h.phentsize
  {
    hide Le16, Le32, Bytes2, Bytes4;
    var b := PackedHeader(h);
    assert img[0..52] == b;
    HalfField(img, 0, b, 16, h.kind);
    WordField(img, 0, b, 24, h.entry);
    WordField(img, 0, b, 28, h.phoff);
    HalfField(img, 0, b, 42, h.phentsize);
    HalfField(img, 0, b, 44, h.phnum);
    assert forall k :: 0 <= k < 5 ==> img[k] == b[k] == h.ident[k];
  }

  // A field at an offset in a structure b that lies at k in the image.
  lemma HalfField(img: seq<nat>, k: nat, b: seq<nat>, off: nat, n: nat)
    requires k + |b| <= |img| && img[k..k + |b|] == b && off + 2 <= |b|
    requires b[off..off + 2] == Bytes2(n) && n < 0x10000
    ensures Le16(img, k + off) == n
  {
    var x, y := img[k + off..k + off + 2], b[off..off + 2];
    assert |x| == |y| && forall j :: 0 <= j < 2 ==> x[j] == img[k..k + |b|][off + j] == y[j];
    Le16OfBytes(img, k + off, n);
  }

  lemma WordField(img: seq<nat>, k: nat, b: seq<nat>, off: nat, n: nat)
    requires k + |b| <= |img| && img[k..k + |b|] == b && off + 4 <= |b|
    requires b[off..off + 4] == Bytes4(n) && n < U32
    ensures Le32(img, k + off) == n
  {
    var x, y := img[k + off..k + off + 4], b[off..off + 4];
    assert |x| == |y| && forall j :: 0 <= j < 4 ==> x[j] == img[k..k + |b|][off + j] == y[j];
    Le32OfBytes(img, k + off, n);
  }

  function PackedSegment(s: Segment, paddr: nat, flags: nat, align: nat): (b: seq<nat>)
    ensures |b| == 32
  {
    (Bytes4(s.kind) + Bytes4(s.offset) + Bytes4(s.vaddr) + Bytes4(paddr))
    + (Bytes4(s.filesz) + Bytes4(s.memsz) + Bytes4(flags) + Bytes4(align))
  }

  // A program header in the image is read back.
  lemma SegmentFound(img: seq<nat>, k: nat, s: Segment, paddr: nat, flags: nat, align: nat)
    requires k + 32 <= |img| && img[k..k + 32] == PackedSegment(s, paddr, flags, align)
    requires s.kind < U32 && s.offset < U32 && s.vaddr < U32 && s.filesz < U32 && s.memsz < U32
    ensures SegmentAt(img, k) == s
  {
    hide Le32, Bytes4;
    var b := PackedSegment(s, paddr, flags, align);
    WordField(img, k, b, 0, s.kind);
    WordField(img, k, b, 4, s.offset);
    WordField(img, k, b, 8, s.vaddr);
    WordField(img, k, b, 16, s.filesz);
    WordField(img, k, b, 20, s.memsz);
  }

  // An image whose header passes can be walked: its tables and data are inside it, and its
  // segments are clear of the identity map.
  predicate Loadable(img: seq<nat>) {
    |img| >= 52 && (CheckHeader(img) == Loaded ==>
      TableFits(img)
      && forall s :: s in Segments(img) ==> s.Placeable() && s.DataFits(|img|))
  }

  // Byte o of a segment: from the file up to filesz, then zero.
  function SegmentByte(img: seq<nat>, s: Segment, o: nat): nat {
    if o < s.filesz && s.offset + o < |img| then img[s.offset + o] else 0
  }

  // No header has the type PT_LOAD, which is 1.
  predicate AllSkipped(segs: seq<Segment>) { forall k :: 0 <= k < |segs| ==> segs[k].kind != 1 }

  // The same, said of the bytes of the image.
  predicate NoLoadHeader(img: seq<nat>)
    requires |img| >= 52 && TableFits(img)
  {
    forall k :: 0 <= k < Count(img) ==> Le32(img, HeaderAt(img, k)) != 1
  }

  lemma NoLoadIsSkipped(img: seq<nat>)
    requires |img| >= 52 && TableFits(img)
    ensures NoLoadHeader(img) <==> AllSkipped(Segments(img))
  {
    hide Le32;
    assert forall k :: 0 <= k < Count(img) ==> Segments(img)[k].kind == Le32(img, HeaderAt(img, k));
  }

  // ---------------------------------------------------------------- who owns a page

  // The program header whose page q holds, once the first i headers and p pages of header i
  // have been gone through: of all that cover q, the last one.
  function Owner(segs: seq<Segment>, i: nat, p: nat, q: nat): (r: Option<nat>)
    requires i <= |segs|
    ensures r.Some? ==> r.value < |segs| && segs[r.value].First() <= q
    decreases i
  {
    if i < |segs| && segs[i].First() <= q < segs[i].First() + p then Some(i)
    else if i == 0 then None
    else Owner(segs, i - 1, segs[i - 1].Pages(), q)
  }

  lemma {:induction false} OwnerBefore(segs: seq<Segment>, i: nat, q: nat, s: nat)
    requires i <= |segs|
    ensures Owner(segs, i, 0, q) == Some(s)
       <==> s < i && segs[s].Covers(q) && forall t :: s < t < i ==> !segs[t].Covers(q)
    decreases i
  {
    if i > 0 {
      OwnerBefore(segs, i - 1, q, s);
      if !segs[i - 1].Covers(q) {
        assert Owner(segs, i, 0, q) == Owner(segs, i - 1, 0, q);
      }
    }
  }

  // The last header that covers a page owns it; where segments share a page, what the earlier
  // ones had put there is lost.
  lemma LastCoverOwns(segs: seq<Segment>, q: nat, s: nat)
    ensures Owner(segs, |segs|, 0, q) == Some(s)
       <==> s < |segs| && segs[s].Covers(q) && forall t :: s < t < |segs| ==> !segs[t].Covers(q)
  {
    OwnerBefore(segs, |segs|, q, s);
  }

  // ---------------------------------------------------------------- what pages hold

  function PageByte(ram: seq<nat>, f: nat, b: nat): nat
    requires f < WINDOW && b < PAGE_SIZE && WINDOW * ENTRIES <= |ram|
  {
    ByteAt(ram, f * PAGE_SIZE + b)
  }

  // Frame f holds page k of a segment.
  ghost predicate FrameHolds(ram: seq<nat>, f: nat, img: seq<nat>, s: Segment, k: nat)
    requires f < WINDOW && WINDOW * ENTRIES <= |ram|
  {
    forall b :: 0 <= b < PAGE_SIZE ==> PageByte(ram, f, b) == SegmentByte(img, s, k * PAGE_SIZE + b)
  }

  // A frame in use that holds neither the directory nor a table.
  ghost predicate DataFrame(ram: seq<nat>, pd: nat, used: set<nat>, f: nat)
    requires pd < WINDOW && WINDOW * ENTRIES <= |ram|
  {
    f in used && !HoldsTable(ram, pd, f)
  }

  // Page q as it should be when header `owner` put it there, or nobody did.
  ghost predicate PageIs(r0: seq<nat>, ram: seq<nat>, pd: nat, used: set<nat>, img: seq<nat>,
                         segs: seq<Segment>, owner: Option<nat>, q: nat)
    requires pd < WINDOW && q < PAGES && WINDOW * ENTRIES <= |r0| && |ram| == |r0|
    requires owner.Some? ==> owner.value < |segs| && segs[owner.value].First() <= q
  {
    match owner
    case None => Walk(ram, pd, q) == Walk(r0, pd, q)
    case Some(s) =>
      var w := Walk(ram, pd, q);
      w.Some? && w.value < WINDOW && DataFrame(ram, pd, used, w.value)
      && FrameHolds(ram, w.value, img, segs[s], q - segs[s].First())
  }

  ghost predicate PlacedAt(r0: seq<nat>, ram: seq<nat>, pd: nat, used: set<nat>, img: seq<nat>,
                           segs: seq<Segment>, i: nat, p: nat, q: nat)
    requires pd < WINDOW && q < PAGES && WINDOW * ENTRIES <= |r0| && |ram| == |r0| && i <= |segs|
  {
    PageIs(r0, ram, pd, used, img, segs, Owner(segs, i, p, q), q)
  }

  // Every page of the address space is as the headers gone through so far say.
  ghost predicate Placed(r0: seq<nat>, ram: seq<nat>, pd: nat, used: set<nat>, img: seq<nat>,
                         segs: seq<Segment>, i: nat, p: nat)
    requires pd < WINDOW && WINDOW * ENTRIES <= |r0| && |ram| == |r0| && i <= |segs|
  {
    forall q :: 0 <= q < PAGES ==> PlacedAt(r0, ram, pd, used, img, segs, i, p, q)
  }

  // Frames in use that hold no table stay as they are: in use, without a table, word by word.
  ghost predicate KeepsData(r0: seq<nat>, r1: seq<nat>, pd: nat, u0: set<nat>, u1: set<nat>)
    requires pd < WINDOW && WINDOW * ENTRIES <= |r0|
  {
    && |r1| == |r0| && u0 <= u1
    && (forall f: nat :: DataFrame(r0, pd, u0, f) ==> DataFrame(r1, pd, u1, f))
    && (forall a :: 0 <= a < |r0| && DataFrame(r0, pd, u0, a / ENTRIES) ==> r1[a] == r0[a])
  }

  lemma KeepsTrans(r0: seq<nat>, r1: seq<nat>, r2: seq<nat>, pd: nat, u0: set<nat>, u1: set<nat>, u2: set<nat>)
    requires pd < WINDOW && WINDOW * ENTRIES <= |r0|
    requires KeepsData(r0, r1, pd, u0, u1) && KeepsData(r1, r2, pd, u1, u2)
    ensures KeepsData(r0, r2, pd, u0, u2)
  {
  }

  lemma OnePageKeeps(r0: seq<nat>, r1: seq<nat>, pd: nat, u0: set<nat>, u1: set<nat>, page: nat, target: Option<nat>)
    requires pd < WINDOW && page < PAGES && WINDOW * ENTRIES <= |r0|
    requires OnePage(r0, r1, pd, u0, u1, page, target)
    ensures KeepsData(r0, r1, pd, u0, u1)
  {
  }

  lemma ByteKept(r0: seq<nat>, r1: seq<nat>, pd: nat, u0: set<nat>, u1: set<nat>, x: nat)
    requires pd < WINDOW && WINDOW * ENTRIES <= |r0| && KeepsData(r0, r1, pd, u0, u1)
    requires x / 4 < |r0| && DataFrame(r0, pd, u0, x / PAGE_SIZE)
    ensures ByteAt(r1, x) == ByteAt(r0, x)
  {
    assert x / 4 / ENTRIES == x / PAGE_SIZE;
  }

  lemma HoldsKept(r0: seq<nat>, r1: seq<nat>, pd: nat, u0: set<nat>, u1: set<nat>, f: nat,
                  img: seq<nat>, s: Segment, k: nat)
    requires pd < WINDOW && WINDOW * ENTRIES <= |r0| && KeepsData(r0, r1, pd, u0, u1)
    requires f < WINDOW && DataFrame(r0, pd, u0, f) && FrameHolds(r0, f, img, s, k)
    ensures FrameHolds(r1, f, img, s, k) && DataFrame(r1, pd, u1, f)
  {
    forall b | 0 <= b < PAGE_SIZE
      ensures PageByte(r1, f, b) == PageByte(r0, f, b)
    {
      assert (f * PAGE_SIZE + b) / PAGE_SIZE == f;
      ByteKept(r0, r1, pd, u0, u1, f * PAGE_SIZE + b);
    }
  }

  // A page that was placed stays placed.
  lemma PageKept(r0: seq<nat>, ra: seq<nat>, rb: seq<nat>, pd: nat, ua: set<nat>, ub: set<nat>, img: seq<nat>,
                 segs: seq<Segment>, owner: Option<nat>, q: nat)
    requires pd < WINDOW && q < PAGES && WINDOW * ENTRIES <= |r0| && |ra| == |r0|
    requires owner.Some? ==> owner.value < |segs| && segs[owner.value].First() <= q
    requires PageIs(r0, ra, pd, ua, img, segs, owner, q)
    requires KeepsData(ra, rb, pd, ua, ub) && Walk(rb, pd, q) == Walk(ra, pd, q)
    ensures PageIs(r0, rb, pd, ub, img, segs, owner, q)
  {
    if owner.Some? {
      var s := segs[owner.value];
      HoldsKept(ra, rb, pd, ua, ub, Walk(ra, pd, q).value, img, s, q - s.First());
    }
  }

  lemma OwnerNext(segs: seq<Segment>, i: nat, p: nat, q: nat)
    requires i < |segs|
    ensures Owner(segs, i, p + 1, q) == if q == segs[i].First() + p then Some(i) else Owner(segs, i, p, q)
  {
  }

  lemma NextSegment(r0: seq<nat>, ram: seq<nat>, pd: nat, used: set<nat>, img: seq<nat>, segs: seq<Segment>, i: nat)
    requires pd < WINDOW && WINDOW * ENTRIES <= |r0| && |ram| == |r0| && i < |segs|
    requires Placed(r0, ram, pd, used, img, segs, i, segs[i].Pages())
    ensures Placed(r0, ram, pd, used, img, segs, i + 1, 0)
  {
    var next := i + 1;
    forall q | 0 <= q < PAGES
      ensures PlacedAt(r0, ram, pd, used, img, segs, next, 0, q)
    {
      assert PlacedAt(r0, ram, pd, used, img, segs, i, segs[i].Pages(), q);
      assert Owner(segs, i + 1, 0, q) == Owner(segs, i, segs[i].Pages(), q);
    }
  }

  // From ra to rc, page p of a segment has been put into a frame and mapped; every other page
  // translates as before.
  ghost predicate PagePut(ra: seq<nat>, rc: seq<nat>, pd: nat, ua: set<nat>, uc: set<nat>,
                          img: seq<nat>, s: Segment, p: nat)
    requires pd < WINDOW && WINDOW * ENTRIES <= |ra| && s.First() + p < PAGES
  {
    && KeepsData(ra, rc, pd, ua, uc)
    && (forall q :: 0 <= q < PAGES && q != s.First() + p ==> Walk(rc, pd, q) == Walk(ra, pd, q))
    && var w := Walk(rc, pd, s.First() + p);
      w.Some? && w.value < WINDOW && DataFrame(rc, pd, uc, w.value) && FrameHolds(rc, w.value, img, s, p)
  }

  // A frame that was filled is mapped.
  lemma FilledThenMapped(ra: seq<nat>, rb: seq<nat>, rc: seq<nat>, pd: nat, ua: set<nat>, ub: set<nat>, uc: set<nat>,
                         img: seq<nat>, s: Segment, p: nat, f: nat)
    requires pd < WINDOW && WINDOW * ENTRIES <= |ra| && s.First() + p < PAGES
    requires KeepsData(ra, rb, pd, ua, ub) && SameWalk(ra, rb, pd)
    requires f < WINDOW && DataFrame(rb, pd, ub, f) && FrameHolds(rb, f, img, s, p)
    requires OnePage(rb, rc, pd, ub, uc, s.First() + p, Some(f))
    ensures PagePut(ra, rc, pd, ua, uc, img, s, p)
  {
    OnePageKeeps(rb, rc, pd, ub, uc, s.First() + p, Some(f));
    KeepsTrans(ra, rb, rc, pd, ua, ub, uc);
    HoldsKept(rb, rc, pd, ub, uc, f, img, s, p);
    forall q | 0 <= q < PAGES && q != s.First() + p
      ensures Walk(rc, pd, q) == Walk(ra, pd, q)
    {
      assert Walk(rb, pd, q) == Walk(ra, pd, q);
    }
  }

  lemma PagePlaced(r0: seq<nat>, ra: seq<nat>, rc: seq<nat>, pd: nat, ua: set<nat>, uc: set<nat>,
                   img: seq<nat>, segs: seq<Segment>, i: nat, p: nat)
    requires pd < WINDOW && WINDOW * ENTRIES <= |r0| && |ra| == |r0| && i < |segs| && segs[i].First() + p < PAGES
    requires Placed(r0, ra, pd, ua, img, segs, i, p) && PagePut(ra, rc, pd, ua, uc, img, segs[i], p)
    ensures Placed(r0, rc, pd, uc, img, segs, i, p + 1)
  {
    var next := p + 1;
    forall q | 0 <= q < PAGES
      ensures PlacedAt(r0, rc, pd, uc, img, segs, i, next, q)
    {
      OwnerNext(segs, i, p, q);
      if q != segs[i].First() + p {
        assert PlacedAt(r0, ra, pd, ua, img, segs, i, p, q);
        PageKept(r0, ra, rc, pd, ua, uc, img, segs, Owner(segs, i, p, q), q);
      }
    }
  }

  // ---------------------------------------------------------------- what the program sees

  // The byte a program reads at a virtual address.
  function ReadVirtual(ram: seq<nat>, pd: nat, v: nat): Option<nat>
    requires pd < WINDOW && v < U32 && WINDOW * ENTRIES <= |ram|
  {
    match Walk(ram, pd, v / PAGE_SIZE)
    case None => None
    case Some(f) => if f < WINDOW then Some(PageByte(ram, f, v % PAGE_SIZE)) else None
  }

  lemma PageSplit(first: nat, o: nat)
    ensures (first * PAGE_SIZE + o) / PAGE_SIZE == first + o / PAGE_SIZE
    ensures (first * PAGE_SIZE + o) % PAGE_SIZE == o % PAGE_SIZE
  {
  }

  // Byte o of a segment is read at o past the start of the page its address is in, unless a
  // later segment covers that page.
  lemma SegmentReads(r0: seq<nat>, ram: seq<nat>, pd: nat, used: set<nat>,
                     img: seq<nat>, segs: seq<Segment>, i: nat, o: nat)
    requires pd < WINDOW && WINDOW * ENTRIES <= |r0| && |ram| == |r0| && i < |segs|
    requires Placed(r0, ram, pd, used, img, segs, |segs|, 0)
    requires segs[i].Placeable() && o < segs[i].Pages() * PAGE_SIZE
    requires forall t :: i < t < |segs| ==> !segs[t].Covers(segs[i].First() + o / PAGE_SIZE)
    ensures segs[i].First() * PAGE_SIZE + o < U32
    ensures ReadVirtual(ram, pd, segs[i].First() * PAGE_SIZE + o) == Some(SegmentByte(img, segs[i], o))
  {
    var q := segs[i].First() + o / PAGE_SIZE;
    PageSplit(segs[i].First(), o);
    LastCoverOwns(segs, q, i);
    assert PlacedAt(r0, ram, pd, used, img, segs, |segs|, 0, q);
    var f := Walk(ram, pd, q).value;
    assert FrameHolds(ram, f, img, segs[i], o / PAGE_SIZE);
    assert PageByte(ram, f, o % PAGE_SIZE) == SegmentByte(img, segs[i], o / PAGE_SIZE * PAGE_SIZE + o % PAGE_SIZE);
  }

  // No two segments have a page in common.
  ghost predicate PageDisjoint(segs: seq<Segment>) {
    forall i, k, q: nat :: 0 <= i < k < |segs| && segs[i].Covers(q) ==> !segs[k].Covers(q)
  }

  lemma PagesCover(s: Segment, o: nat)
    requires s.kind == 1 && o < s.memsz && s.memsz + PAGE_SIZE - 1 < U32
    ensures o < s.Pages() * PAGE_SIZE
  {
  }

  // A PT_LOAD segment has as many pages as its memory size needs, and no more; any other has none.
  lemma PagesNeeded(s: Segment)
    ensures s.kind == 1 && s.memsz + 4095 < U32 ==> 4096 * s.Pages() - 4096 < s.memsz <= 4096 * s.Pages()
    ensures s.kind != 1 ==> s.Pages() == 0
  {
  }

  // Loading keeps the meaning of the file: a page-aligned segment that shares no page reads as
  // its file bytes up to p_filesz and as zeros from there to p_memsz.
  lemma LoadKeepsMeaning(r0: seq<nat>, ram: seq<nat>, pd: nat, used: set<nat>, img: seq<nat>, i: nat, o: nat)
    requires pd < WINDOW && WINDOW * ENTRIES <= |r0| && |ram| == |r0|
    requires Loadable(img) && CheckHeader(img) == Loaded && i < Count(img)
    requires Placed(r0, ram, pd, used, img, Segments(img), Count(img), 0) && PageDisjoint(Segments(img))
    requires var s := Segments(img)[i];
      s.kind == 1 && s.vaddr % PAGE_SIZE == 0 && s.filesz <= s.memsz && s.memsz + PAGE_SIZE - 1 < U32 && o < s.memsz
    ensures var s := Segments(img)[i];
      && s.vaddr + o < U32 && (o < s.filesz ==> s.offset + o < |img|)
      && ReadVirtual(ram, pd, s.vaddr + o) == Some(if o < s.filesz then img[s.offset + o] else 0)
  {
    var segs := Segments(img);
    var s := segs[i];
    PagesCover(s, o);
    assert s in segs;
    assert s.First() * PAGE_SIZE == s.vaddr;
    assert s.Covers(s.First() + o / PAGE_SIZE);
    SegmentReads(r0, ram, pd, used, img, segs, i, o);
  }

  lemma SplitAddress(v: nat, o: nat)
    ensures v / PAGE_SIZE * PAGE_SIZE + (v % PAGE_SIZE + o) == v + o
    ensures (v + o) / PAGE_SIZE == v / PAGE_SIZE + (v % PAGE_SIZE + o) / PAGE_SIZE
  {
    PageSplit(v / PAGE_SIZE, v % PAGE_SIZE + o);
  }

  // The copy starts at the beginning of the first page whatever p_vaddr is. So p_vaddr + o reads
  // the byte that lies p_vaddr % 4096 further on in the segment, and is the right one exactly
  // when those two bytes are equal.
  lemma UnalignedReads(r0: seq<nat>, ram: seq<nat>, pd: nat, used: set<nat>,
                       img: seq<nat>, segs: seq<Segment>, i: nat, o: nat)
    requires pd < WINDOW && WINDOW * ENTRIES <= |r0| && |ram| == |r0| && i < |segs|
    requires Placed(r0, ram, pd, used, img, segs, |segs|, 0) && segs[i].Placeable()
    requires segs[i].vaddr % PAGE_SIZE + o < segs[i].Pages() * PAGE_SIZE
    requires forall t :: i < t < |segs| ==> !segs[t].Covers((segs[i].vaddr + o) / PAGE_SIZE)
    ensures var s := segs[i];
      && s.vaddr + o < U32
      && ReadVirtual(ram, pd, s.vaddr + o) == Some(SegmentByte(img, s, s.vaddr % PAGE_SIZE + o))
      && (ReadVirtual(ram, pd, s.vaddr + o) == Some(SegmentByte(img, s, o))
          <==> SegmentByte(img, s, s.vaddr % PAGE_SIZE + o) == SegmentByte(img, s, o))
  {
    SplitAddress(segs[i].vaddr, o);
    SegmentReads(r0, ram, pd, used, img, segs, i, segs[i].vaddr % PAGE_SIZE + o);
  }

  // An address further on is not in the segment's pages at all.
  lemma UnalignedTail(s: Segment, o: nat)
    ensures s.Covers((s.vaddr + o) / PAGE_SIZE) <==> s.vaddr % PAGE_SIZE + o < s.Pages() * PAGE_SIZE
  {
    SplitAddress(s.vaddr, o);
  }

  // A byte of the file is read right whatever the file holds exactly when p_vaddr is
  // page-aligned.
  lemma RightIffAligned(s: Segment, size: nat, o: nat)
    requires o < s.filesz && s.offset + o < size
    ensures (forall img: seq<nat> :: |img| == size ==>
               SegmentByte(img, s, s.vaddr % PAGE_SIZE + o) == SegmentByte(img, s, o))
       <==> s.vaddr % PAGE_SIZE == 0
  {
    if s.vaddr % PAGE_SIZE != 0 {
      var img := seq(size, k => if k == s.offset + o then 1 else 0);
      assert |img| == size && SegmentByte(img, s, o) == 1;
      assert SegmentByte(img, s, s.vaddr % PAGE_SIZE + o) == 0;
    }
  }
}
