// ELF32 images put together field by field, and what loading one comes to.
module ElfImage {
  import opened Basics
  import opened MemoryBytes
  import opened PageTables
  import opened ElfModel

  // The other fields of a program header, which the loader does not look at.
  datatype Rest = Rest(paddr: nat, flags: nat, align: nat)

  predicate Fits32(s: Segment) { s.kind < U32 && s.offset < U32 && s.vaddr < U32 && s.filesz < U32 && s.memsz < U32 }

  // The image begins with this file header, and has these program headers where it says.
  ghost predicate IsImage(img: seq<nat>, h: FileHeader, segs: seq<Segment>, rests: seq<Rest>) {
    && |h.ident| == 16 && |img| >= 52 && img[..52] == PackedHeader(h)
    && h.kind < 0x10000 && h.entry < U32 && h.phoff < U32 && h.phentsize < 0x10000 && h.phnum < 0x10000
    && h.phnum == |segs| == |rests| && forall i :: 0 <= i < |segs| ==> HasHeader(img, h, segs[i], rests[i], i)
  }

  ghost predicate HasHeader(img: seq<nat>, h: FileHeader, s: Segment, r: Rest, i: nat) {
    var k := h.phoff + i * h.phentsize;
    Fits32(s) && k + 32 <= |img| && img[k..k + 32] == PackedSegment(s, r.paddr, r.flags, r.align)
  }

  // It is taken for an ELF32 executable exactly when its first bytes and its type say so, and its
  // program headers are read as they are.
  lemma ImageRead(img: seq<nat>, h: FileHeader, segs: seq<Segment>, rests: seq<Rest>)
    requires IsImage(img, h, segs, rests)
    ensures CheckHeader(img) == Loaded <==> h.ident[..5] == [0x7F, 0x45, 0x4C, 0x46, 1] && h.kind == 2
    ensures Entry(img) == h.entry && TableFits(img) && Segments(img) == segs
    ensures NoLoadHeader(img) <==> forall i :: 0 <= i < |segs| ==> segs[i].kind != 1
  {
    hide PackedHeader, PackedSegment, SegmentAt, CheckHeader, Le16, Le32;
    HeaderFieldsFound(img, h, 0);
    forall i | 0 <= i < |segs|
      ensures HeaderAt(img, i) + 24 <= |img| && SegmentAt(img, HeaderAt(img, i)) == segs[i]
    {
      assert HasHeader(img, h, segs[i], rests[i], i);
      HeaderFieldsFound(img, h, i);
      SegmentFound(img, HeaderAt(img, i), segs[i], rests[i].paddr, rests[i].flags, rests[i].align);
    }
    NoLoadIsSkipped(img);
  }

  // After a load with all pages mapped, a page-aligned PT_LOAD segment that shares no page reads
  // as its bytes of the image, and then as zeros.
  lemma ImageMeans(r0: seq<nat>, ram: seq<nat>, pd: nat, used: set<nat>, img: seq<nat>, h: FileHeader,
                   segs: seq<Segment>, rests: seq<Rest>, i: nat, o: nat)
    requires pd < WINDOW && WINDOW * ENTRIES <= |r0| && |ram| == |r0| && i < |segs|
    requires IsImage(img, h, segs, rests) && CheckHeader(img) == Loaded && Loadable(img) && PageDisjoint(segs)
    requires TableFits(img) && Count(img) == |segs| && Placed(r0, ram, pd, used, img, Segments(img), Count(img), 0)
    requires var s := segs[i];
      s.kind == 1 && s.vaddr % 4096 == 0 && s.filesz <= s.memsz && s.memsz + 4095 < U32 && o < s.memsz
    ensures var s := segs[i];
      && s.vaddr + o < U32 && (o < s.filesz ==> s.offset + o < |img|)
      && ReadVirtual(ram, pd, s.vaddr + o) == Some(if o < s.filesz then img[s.offset + o] else 0)
  {
    hide IsImage, Placed, PageDisjoint, CheckHeader, Loadable, ReadVirtual, Segments, TableFits;
    ImageRead(img, h, segs, rests);
    LoadKeepsMeaning(r0, ram, pd, used, img, i, o);
  }

  // Bytes lie low end first.
  lemma WordInNumbers()
    ensures Compose(0x7F, 0x45, 0x4C, 0x46) == 0x464C_457F
    ensures Lane(0x464C_457F, 0) == 0x7F && Lane(0x464C_457F, 1) == 0x45
    ensures Lane(0x464C_457F, 2) == 0x4C && Lane(0x464C_457F, 3) == 0x46
    ensures Bytes2(0x4631) == [0x31, 0x46] && Bytes4(0x464C_457F) == [0x7F, 0x45, 0x4C, 0x46]
    ensures Le16([0x31, 0x46], 0) == 0x4631 && Le32([0x7F, 0x45, 0x4C, 0x46], 0) == 0x464C_457F
  {
  }

  // The bytes of a file header lie where the ELF32 structure has them.
  lemma HeaderInNumbers(h: FileHeader)
    requires |h.ident| == 16
    ensures var b := PackedHeader(h);
      && b[..16] == h.ident && b[16..18] == Bytes2(h.kind) && b[24..28] == Bytes4(h.entry)
      && b[28..32] == Bytes4(h.phoff) && b[42..44] == Bytes2(h.phentsize) && b[44..46] == Bytes2(h.phnum)
  {
    hide Bytes2, Bytes4;
  }

  // And so do those of a program header.
  lemma SegmentInNumbers(s: Segment, r: Rest)
    ensures var b := PackedSegment(s, r.paddr, r.flags, r.align);
      && b[..4] == Bytes4(s.kind) && b[4..8] == Bytes4(s.offset) && b[8..12] == Bytes4(s.vaddr)
      && b[16..20] == Bytes4(s.filesz) && b[20..24] == Bytes4(s.memsz)
  {
    hide Bytes4;
  }
}
