// Bytes of physical memory, which is kept as 32-bit words: little-endian lanes.
module MemoryBytes {
  import opened Basics

  predicate IsByte(b: nat) { b < 256 }

  // Byte k of a word.
  function Lane(w: nat, k: nat): (b: nat)
    requires k < 4
    ensures IsByte(b)
  {
    if k == 0 then w % 256 else if k == 1 then w / 256 % 256 else if k == 2 then w / 65536 % 256 else w / 16777216 % 256
  }

  function Compose(b0: nat, b1: nat, b2: nat, b3: nat): nat {
    b0 + 256 * b1 + 65536 * b2 + 16777216 * b3
  }

  lemma LaneOfCompose(b0: nat, b1: nat, b2: nat, b3: nat, k: nat)
    requires IsByte(b0) && IsByte(b1) && IsByte(b2) && IsByte(b3) && k < 4
    ensures Lane(Compose(b0, b1, b2, b3), k) == if k == 0 then b0 else if k == 1 then b1 else if k == 2 then b2 else b3
  {
    var w := Compose(b0, b1, b2, b3);
    assert w / 256 == b1 + 256 * b2 + 65536 * b3;
    assert w / 65536 == b2 + 256 * b3;
    assert w / 16777216 == b3;
  }

  // The word with byte k replaced.
  function SetLane(w: nat, k: nat, b: nat): nat
    requires k < 4
  {
    Compose(if k == 0 then b else Lane(w, 0), if k == 1 then b else Lane(w, 1),
            if k == 2 then b else Lane(w, 2), if k == 3 then b else Lane(w, 3))
  }

  lemma LaneOfSet(w: nat, k: nat, b: nat, j: nat)
    requires k < 4 && j < 4 && IsByte(b)
    ensures Lane(SetLane(w, k, b), j) == if j == k then b else Lane(w, j)
  {
    LaneOfCompose(if k == 0 then b else Lane(w, 0), if k == 1 then b else Lane(w, 1),
                  if k == 2 then b else Lane(w, 2), if k == 3 then b else Lane(w, 3), j);
  }

  // The byte at a physical address.
  function ByteAt(ram: seq<nat>, addr: nat): (b: nat)
    requires addr / 4 < |ram|
    ensures IsByte(b)
  {
    Lane(ram[addr / 4], addr % 4)
  }

  function Stored(ram: seq<nat>, addr: nat, b: nat): (r: seq<nat>)
    requires addr / 4 < |ram|
    ensures |r| == |ram|
  {
    ram[addr / 4 := SetLane(ram[addr / 4], addr % 4, b)]
  }

  // Storing a byte changes the byte at that address and no other.
  lemma ByteOfStored(ram: seq<nat>, addr: nat, b: nat, x: nat)
    requires addr / 4 < |ram| && x / 4 < |ram| && IsByte(b)
    ensures ByteAt(Stored(ram, addr, b), x) == if x == addr then b else ByteAt(ram, x)
  {
    if x / 4 == addr / 4 {
      LaneOfSet(ram[addr / 4], addr % 4, b, x % 4);
    }
  }

  // An aligned word is zero in all four bytes when it is zero.
  lemma ZeroWordBytes(ram: seq<nat>, addr: nat)
    requires addr / 4 < |ram| && ram[addr / 4] == 0
    ensures ByteAt(ram, addr) == 0
  {
  }

  // A little-endian number of 16 or 32 bits in a row of bytes.
  function Le16(img: seq<nat>, k: nat): nat
    requires k + 2 <= |img|
  {
    img[k] + 256 * img[k + 1]
  }

  function Le32(img: seq<nat>, k: nat): nat
    requires k + 4 <= |img|
  {
    Compose(img[k], img[k + 1], img[k + 2], img[k + 3])
  }

  // The bytes of such a number.
  function Bytes2(n: nat): (b: seq<nat>)
    ensures |b| == 2 && forall x :: x in b ==> IsByte(x)
  {
    [n % 256, n / 256 % 256]
  }

  function Bytes4(n: nat): (b: seq<nat>)
    ensures |b| == 4 && forall x :: x in b ==> IsByte(x)
  {
    [Lane(n, 0), Lane(n, 1), Lane(n, 2), Lane(n, 3)]
  }

  lemma HalvesOfBytes(n: nat)
    requires n < U32
    ensures Bytes4(n) == Bytes2(n % 0x10000) + Bytes2(n / 0x10000)
  {
    var lo, hi := n % 0x10000, n / 0x10000;
    assert n == 0x10000 * hi + lo;
    assert n / 256 == 256 * hi + lo / 256;
    assert n / 16777216 == hi / 256;
  }

  lemma Le16OfBytes(img: seq<nat>, k: nat, n: nat)
    requires k + 2 <= |img| && img[k..k + 2] == Bytes2(n) && n < 0x10000
    ensures Le16(img, k) == n
  {
    assert img[k] == img[k..k + 2][0] && img[k + 1] == img[k..k + 2][1];
  }

  lemma Le32OfBytes(img: seq<nat>, k: nat, n: nat)
    requires k + 4 <= |img| && img[k..k + 4] == Bytes4(n) && n < U32
    ensures Le32(img, k) == n
  {
    assert img[k] == img[k..k + 4][0] && img[k + 1] == img[k..k + 4][1];
    assert img[k + 2] == img[k..k + 4][2] && img[k + 3] == img[k..k + 4][3];
    LanesMakeWord(n);
  }

  lemma LanesMakeWord(n: nat)
    requires n < U32
    ensures Compose(Lane(n, 0), Lane(n, 1), Lane(n, 2), Lane(n, 3)) == n
  {
    var h1 := n / 256;
    var h2 := h1 / 256;
    var h3 := h2 / 256;
    assert n / 65536 == h2 && n / 16777216 == h3;
  }
}
