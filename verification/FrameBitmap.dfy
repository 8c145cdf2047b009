// The physical frame bitmap of pmm.c on values: 32-bit words read as a set of frames in use,
// with the counter that the allocation guard looks at.
module FrameBitmap {
  // ---------------------------------------------------------------- bits of a word

  // 1 << j, doubled up from 1; MaskIsShift says that this is the shift of the source.
  function Mask(j: nat): bv32
    requires j < 32
  {
    if j == 0 then 1 else Mask(j - 1) << 1
  }

  predicate Test(w: bv32, m: bv32) { w & m != 0 }

  predicate Bit(w: bv32, j: nat)
    requires j < 32
  {
    Test(w, Mask(j))
  }

  lemma MaskTable()
    ensures Mask(0) == 0x1 && Mask(1) == 0x2 && Mask(2) == 0x4 && Mask(3) == 0x8
    ensures Mask(4) == 0x10 && Mask(5) == 0x20 && Mask(6) == 0x40 && Mask(7) == 0x80
    ensures Mask(8) == 0x100 && Mask(9) == 0x200 && Mask(10) == 0x400 && Mask(11) == 0x800
    ensures Mask(12) == 0x1000 && Mask(13) == 0x2000 && Mask(14) == 0x4000 && Mask(15) == 0x8000
    ensures Mask(16) == 0x10000 && Mask(17) == 0x20000 && Mask(18) == 0x40000 && Mask(19) == 0x80000
    ensures Mask(20) == 0x100000 && Mask(21) == 0x200000 && Mask(22) == 0x400000 && Mask(23) == 0x800000
    ensures Mask(24) == 0x1000000 && Mask(25) == 0x2000000 && Mask(26) == 0x4000000 && Mask(27) == 0x8000000
    ensures Mask(28) == 0x10000000 && Mask(29) == 0x20000000 && Mask(30) == 0x40000000 && Mask(31) == 0x80000000
  {
    assert Mask(0) == 0x1 && Mask(1) == 0x2 && Mask(2) == 0x4 && Mask(3) == 0x8;
    assert Mask(4) == 0x10 && Mask(5) == 0x20 && Mask(6) == 0x40 && Mask(7) == 0x80;
    assert Mask(8) == 0x100 && Mask(9) == 0x200 && Mask(10) == 0x400 && Mask(11) == 0x800;
    assert Mask(12) == 0x1000 && Mask(13) == 0x2000 && Mask(14) == 0x4000 && Mask(15) == 0x8000;
    assert Mask(16) == 0x10000 && Mask(17) == 0x20000 && Mask(18) == 0x40000 && Mask(19) == 0x80000;
    assert Mask(20) == 0x100000 && Mask(21) == 0x200000 && Mask(22) == 0x400000 && Mask(23) == 0x800000;
    assert Mask(24) == 0x1000000 && Mask(25) == 0x2000000 && Mask(26) == 0x4000000 && Mask(27) == 0x8000000;
    assert Mask(28) == 0x10000000 && Mask(29) == 0x20000000 && Mask(30) == 0x40000000 && Mask(31) == 0x80000000;
  }

  lemma MaskIsShift(j: nat)
    requires j < 32
    ensures Mask(j) == (1 as bv32) << j
  {
    MaskTable();
    if j < 8 {
      assert j == 0 || j == 1 || j == 2 || j == 3 || j == 4 || j == 5 || j == 6 || j == 7;
    } else if j < 16 {
      assert j == 8 || j == 9 || j == 10 || j == 11 || j == 12 || j == 13 || j == 14 || j == 15;
    } else if j < 24 {
      assert j == 16 || j == 17 || j == 18 || j == 19 || j == 20 || j == 21 || j == 22 || j == 23;
    } else {
      assert j == 24 || j == 25 || j == 26 || j == 27 || j == 28 || j == 29 || j == 30 || j == 31;
    }
  }

  lemma ShiftsApart(j: nat, k: nat)
    requires j < 32 && k < 32
    ensures (1 as bv32) << k != 0
    ensures j != k ==> ((1 as bv32) << j) & ((1 as bv32) << k) == 0
  {
  }

  lemma MasksApart(j: nat, k: nat)
    requires j < 32 && k < 32
    ensures Mask(k) != 0
    ensures j != k ==> Mask(j) & Mask(k) == 0
  {
    MaskIsShift(j);
    MaskIsShift(k);
    ShiftsApart(j, k);
  }

  lemma OrAndApart(w: bv32, m: bv32, n: bv32)
    requires m & n == 0
    ensures (w | m) & n == w & n && (w & !m) & n == w & n
  {
  }

  lemma OrAndSame(w: bv32, m: bv32)
    ensures (w | m) & m == m && (w & !m) & m == 0
  {
  }

  lemma TestSetApart(w: bv32, m: bv32, n: bv32)
    requires m & n == 0
    ensures Test(w | m, n) == Test(w, n)
  {
    OrAndApart(w, m, n);
  }

  lemma TestClearApart(w: bv32, m: bv32, n: bv32)
    requires m & n == 0
    ensures Test(w & !m, n) == Test(w, n)
  {
    OrAndApart(w, m, n);
  }

  lemma TestMasks(w: bv32, j: nat, m: bv32, k: nat, n: bv32)
    requires j < 32 && k < 32 && m == Mask(j) && n == Mask(k) && m & n == 0
    ensures Test(w | m, n) == Test(w, n) && Test(w & !m, n) == Test(w, n)
  {
    TestSetApart(w, m, n);
    TestClearApart(w, m, n);
  }

  lemma MaskPair(j: nat, k: nat) returns (m: bv32, n: bv32)
    requires j < 32 && k < 32 && j != k
    ensures m == Mask(j) && n == Mask(k) && m & n == 0
  {
    MasksApart(j, k);
    m, n := Mask(j), Mask(k);
  }

  lemma SetThis(w: bv32, u: bv32, j: nat)
    requires j < 32 && u == w | Mask(j)
    ensures Bit(u, j)
  {
    MasksApart(j, j);
    OrAndSame(w, Mask(j));
  }

  lemma SetOther(w: bv32, u: bv32, j: nat, k: nat)
    requires j < 32 && k < 32 && j != k && u == w | Mask(j)
    ensures Bit(u, k) == Bit(w, k)
  {
    hide Test, Mask;
    var m, n := MaskPair(j, k);
    TestMasks(w, j, m, k, n);
  }

  lemma ClearThis(w: bv32, u: bv32, j: nat)
    requires j < 32 && u == w & !Mask(j)
    ensures !Bit(u, j)
  {
    OrAndSame(w, Mask(j));
  }

  lemma ClearOther(w: bv32, u: bv32, j: nat, k: nat)
    requires j < 32 && k < 32 && j != k && u == w & !Mask(j)
    ensures Bit(u, k) == Bit(w, k)
  {
    hide Test, Mask;
    var m, n := MaskPair(j, k);
    TestMasks(w, j, m, k, n);
  }

  lemma FullAnd(m: bv32)
    ensures 0xFFFF_FFFF & m == m && 0 & m == 0
  {
  }

  lemma BitOfConstant(j: nat)
    requires j < 32
    ensures Bit(0xFFFF_FFFF, j) && !Bit(0, j)
  {
    MasksApart(j, j);
    FullAnd(Mask(j));
  }

  predicate Agree(w: bv32, u: bv32, m: bv32) { Test(w, m) == Test(u, m) }

  lemma AgreeAt(w: bv32, u: bv32, j: nat, m: bv32)
    requires j < 32 && Bit(w, j) == Bit(u, j) && Mask(j) == m
    ensures Agree(w, u, m)
  {
  }

  lemma SameBits(w: bv32, u: bv32)
    requires Agree(w, u, 0x1) && Agree(w, u, 0x2) && Agree(w, u, 0x4) && Agree(w, u, 0x8)
    requires Agree(w, u, 0x10) && Agree(w, u, 0x20) && Agree(w, u, 0x40) && Agree(w, u, 0x80)
    requires Agree(w, u, 0x100) && Agree(w, u, 0x200) && Agree(w, u, 0x400) && Agree(w, u, 0x800)
    requires Agree(w, u, 0x1000) && Agree(w, u, 0x2000) && Agree(w, u, 0x4000) && Agree(w, u, 0x8000)
    requires Agree(w, u, 0x10000) && Agree(w, u, 0x20000) && Agree(w, u, 0x40000) && Agree(w, u, 0x80000)
    requires Agree(w, u, 0x100000) && Agree(w, u, 0x200000) && Agree(w, u, 0x400000) && Agree(w, u, 0x800000)
    requires Agree(w, u, 0x1000000) && Agree(w, u, 0x2000000) && Agree(w, u, 0x4000000) && Agree(w, u, 0x8000000)
    requires Agree(w, u, 0x10000000) && Agree(w, u, 0x20000000) && Agree(w, u, 0x40000000) && Agree(w, u, 0x80000000)
    ensures w == u
  {
  }

  // A word is determined by its bits.
  lemma BitsDetermine(w: bv32, u: bv32)
    requires forall j :: 0 <= j < 32 ==> Bit(w, j) == Bit(u, j)
    ensures w == u
  {
    MaskTable();
    AgreeAt(w, u, 0, 0x1); AgreeAt(w, u, 1, 0x2); AgreeAt(w, u, 2, 0x4); AgreeAt(w, u, 3, 0x8);
    AgreeAt(w, u, 4, 0x10); AgreeAt(w, u, 5, 0x20); AgreeAt(w, u, 6, 0x40); AgreeAt(w, u, 7, 0x80);
    AgreeAt(w, u, 8, 0x100); AgreeAt(w, u, 9, 0x200); AgreeAt(w, u, 10, 0x400); AgreeAt(w, u, 11, 0x800);
    AgreeAt(w, u, 12, 0x1000); AgreeAt(w, u, 13, 0x2000); AgreeAt(w, u, 14, 0x4000); AgreeAt(w, u, 15, 0x8000);
    AgreeAt(w, u, 16, 0x10000); AgreeAt(w, u, 17, 0x20000); AgreeAt(w, u, 18, 0x40000); AgreeAt(w, u, 19, 0x80000);
    AgreeAt(w, u, 20, 0x100000); AgreeAt(w, u, 21, 0x200000); AgreeAt(w, u, 22, 0x400000); AgreeAt(w, u, 23, 0x800000);
    AgreeAt(w, u, 24, 0x1000000); AgreeAt(w, u, 25, 0x2000000);
    AgreeAt(w, u, 26, 0x4000000); AgreeAt(w, u, 27, 0x8000000);
    AgreeAt(w, u, 28, 0x10000000); AgreeAt(w, u, 29, 0x20000000);
    AgreeAt(w, u, 30, 0x40000000); AgreeAt(w, u, 31, 0x80000000);
    SameBits(w, u);
  }

  // ---------------------------------------------------------------- frames of a bitmap

  predicate IsUsed(m: seq<bv32>, f: nat) {
    f / 32 < |m| && Bit(m[f / 32], f % 32)
  }

  lemma TestIs(w: bv32, m: bv32)
    ensures Test(w, m) == (w & m != 0)
  {
  }

  lemma BitIs(w: bv32, j: nat, m: bv32)
    requires j < 32 && m == Mask(j)
    ensures Bit(w, j) == Test(w, m)
  {
    hide Mask, Test;
  }

  // Frame f has bit f % 32 of word f / 32.
  lemma UsedIsBit(m: seq<bv32>, f: nat, w: bv32, mask: bv32)
    requires f / 32 < |m| && w == m[f / 32] && mask == Mask(f % 32)
    ensures IsUsed(m, f) == (w & mask != 0)
  {
    hide Mask, Test, Bit;
    BitIs(w, f % 32, mask);
    TestIs(w, mask);
  }

  // The frames in use among the first words words.
  ghost function Used(m: seq<bv32>, words: nat): set<nat> {
    set f: nat | 0 <= f < 32 * words && IsUsed(m, f)
  }

  // set_bit and unset_bit.
  function SetBit(m: seq<bv32>, f: nat): seq<bv32>
    requires f / 32 < |m|
  {
    m[f / 32 := m[f / 32] | Mask(f % 32)]
  }

  function ClearBit(m: seq<bv32>, f: nat): seq<bv32>
    requires f / 32 < |m|
  {
    m[f / 32 := m[f / 32] & !Mask(f % 32)]
  }

  lemma SetBitUsed(m: seq<bv32>, m': seq<bv32>, f: nat, g: nat)
    requires f / 32 < |m| && m' == SetBit(m, f)
    ensures IsUsed(m', g) == (g == f || IsUsed(m, g))
  {
    if g == f {
      SetThis(m[f / 32], m'[f / 32], f % 32);
    } else if g / 32 == f / 32 {
      SetOther(m[f / 32], m'[f / 32], f % 32, g % 32);
    }
  }

  lemma ClearBitUsed(m: seq<bv32>, m': seq<bv32>, f: nat, g: nat)
    requires f / 32 < |m| && m' == ClearBit(m, f)
    ensures IsUsed(m', g) == (g != f && IsUsed(m, g))
  {
    if g == f {
      ClearThis(m[f / 32], m'[f / 32], f % 32);
    } else if g / 32 == f / 32 {
      ClearOther(m[f / 32], m'[f / 32], f % 32, g % 32);
    }
  }

  // Two bitmaps of the same length with the same frames in use are equal word for word.
  lemma MapDetermined(m: seq<bv32>, m': seq<bv32>)
    requires |m| == |m'| && forall f: nat :: f < 32 * |m| ==> IsUsed(m, f) == IsUsed(m', f)
    ensures m == m'
  {
    forall i | 0 <= i < |m|
      ensures m[i] == m'[i]
    {
      forall j | 0 <= j < 32
        ensures Bit(m[i], j) == Bit(m'[i], j)
      {
        var f := 32 * i + j;
        assert f / 32 == i && f % 32 == j;
        assert IsUsed(m, f) == IsUsed(m', f);
      }
      BitsDetermine(m[i], m'[i]);
    }
  }
}
