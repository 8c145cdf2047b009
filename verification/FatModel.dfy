// A FAT12 volume as fat.c sees it: the packed allocation table, the sectors a cluster chain
// leads to, and the bytes of a file as the simple value that FAT_Read has to agree with.
module FatModel {
  import opened Basics

  const SECTOR_SIZE: nat := 512
  const END_OF_CHAIN: nat := 0xFF8
  const ROOT_DIRECTORY_HANDLE: int := -1

  type byte = x: int | 0 <= x < 256

  // ---------------------------------------------------------------- the packed table

  // A little-endian 16-bit load.
  function U16(b: seq<byte>, i: nat): nat
    requires i + 1 < |b|
  {
    var lo: int, hi: int := b[i], b[i+1];
    lo + 256 * hi
  }

  // Entry c of a table: 12 bits at one and a half bytes per entry.
  function EntryIn(table: seq<byte>, c: nat): (n: nat)
    requires c * 3 / 2 + 1 < |table|
    ensures n < 4096
  {
    if c % 2 == 0 then U16(table, c * 3 / 2) % 4096 else U16(table, c * 3 / 2) / 16
  }

  // FAT_NextCluster: fat is the memory from g_Fat on, the table and whatever follows it.
  function NextCluster(fat: nat -> byte, c: nat): (n: nat)
    ensures n < 4096
  {
    EntryIn(seq(c * 3 / 2 + 2, i requires 0 <= i < c * 3 / 2 + 2 => fat(i)), c)
  }

  predicate StartsWith(fat: nat -> byte, table: seq<byte>) {
    forall i :: 0 <= i < |table| ==> fat(i) == table[i]
  }

  lemma NextIsEntry(fat: nat -> byte, table: seq<byte>, c: nat)
    requires StartsWith(fat, table) && c * 3 / 2 + 1 < |table|
    ensures NextCluster(fat, c) == EntryIn(table, c)
  {
  }

  // The reference packing: two 12-bit values in three bytes, low bits first.
  function Pack(es: seq<nat>): seq<byte>
    requires forall i :: 0 <= i < |es| ==> es[i] < 4096
  {
    if |es| == 0 then []
    else if |es| == 1 then [es[0] % 256, es[0] / 256]
    else [es[0] % 256, es[0] / 256 + es[1] % 16 * 16, es[1] / 16] + Pack(es[2..])
  }

  lemma {:induction false} PackLength(es: seq<nat>)
    requires forall k :: 0 <= k < |es| ==> es[k] < 4096
    ensures |Pack(es)| == (3 * |es| + 1) / 2
  {
    if |es| >= 2 { PackLength(es[2..]); }
  }

  lemma EvenHalf(a: nat, b: nat)
    requires a < 4096
    ensures (a % 256 + 256 * (a / 256 + b % 16 * 16)) % 4096 == a
  {
    assert a % 256 + 256 * (a / 256 + b % 16 * 16) == a + 4096 * (b % 16);
  }

  lemma OddHalf(a: nat, b: nat)
    requires a < 4096
    ensures (a / 256 + b % 16 * 16 + 256 * (b / 16)) / 16 == b
  {
    assert b % 16 * 16 + 256 * (b / 16) == 16 * b;
  }

  lemma EvenEntry(p: seq<byte>, a: nat, b: nat)
    requires |p| >= 2 && a < 4096
    requires p[0] == a % 256 && p[1] == a / 256 + b % 16 * 16
    ensures EntryIn(p, 0) == a
  {
    EvenHalf(a, b);
  }

  lemma OddEntry(p: seq<byte>, a: nat, b: nat)
    requires |p| >= 3 && a < 4096 && b < 4096
    requires p[1] == a / 256 + b % 16 * 16 && p[2] == b / 16
    ensures EntryIn(p, 1) == b
  {
    OddHalf(a, b);
  }

  lemma PackHead(es: seq<nat>, i: nat)
    requires i < 2 && i < |es| && forall k :: 0 <= k < |es| ==> es[k] < 4096
    ensures i * 3 / 2 + 1 < |Pack(es)| && EntryIn(Pack(es), i) == es[i]
  {
    if |es| == 1 {
      EvenEntry(Pack(es), es[0], 0);
    } else if i == 0 {
      EvenEntry(Pack(es), es[0], es[1]);
    } else {
      OddEntry(Pack(es), es[0], es[1]);
    }
  }

  lemma {:induction false} EntryOfPack(es: seq<nat>, i: nat)
    requires i < |es| && forall k :: 0 <= k < |es| ==> es[k] < 4096
    ensures i * 3 / 2 + 1 < |Pack(es)| && EntryIn(Pack(es), i) == es[i]
  {
    if i < 2 {
      PackHead(es, i);
    } else {
      EntryOfPack(es[2..], i - 2);
      assert Pack(es)[3..] == Pack(es[2..]);
      assert i * 3 / 2 == 3 + (i - 2) * 3 / 2;
      NextShift(Pack(es), i);
    }
  }

  // Every entry of a packed table is read back, at even and at odd positions, whatever follows
  // the table in memory.
  lemma NextOfPack(fat: nat -> byte, es: seq<nat>, i: nat)
    requires i < |es| && (forall k :: 0 <= k < |es| ==> es[k] < 4096) && StartsWith(fat, Pack(es))
    ensures NextCluster(fat, i) == es[i]
  {
    EntryOfPack(es, i);
    NextIsEntry(fat, Pack(es), i);
  }

  // Dropping three bytes drops two entries.
  lemma NextShift(fat: seq<byte>, i: nat)
    requires 2 <= i && i * 3 / 2 + 1 < |fat|
    ensures (i - 2) * 3 / 2 + 1 < |fat[3..]| && EntryIn(fat[3..], i - 2) == EntryIn(fat, i)
  {
    assert i * 3 / 2 == 3 + (i - 2) * 3 / 2;
  }

  function Unpack(fat: seq<byte>): (es: seq<nat>)
    requires |fat| % 3 == 0
    ensures forall i :: 0 <= i < |es| ==> es[i] < 4096
  {
    seq(|fat| / 3 * 2, i requires 0 <= i < |fat| / 3 * 2 => EntryIn(fat, i))
  }

  // The other direction: packing the entries read back gives the table.
  lemma {:induction false} PackOfNext(fat: seq<byte>)
    requires |fat| % 3 == 0
    ensures Pack(Unpack(fat)) == fat
  {
    if |fat| >= 3 {
      PackOfNext(fat[3..]);
      var es := Unpack(fat);
      forall i | 2 <= i < |es|
        ensures es[i] == Unpack(fat[3..])[i-2]
      {
        NextShift(fat, i);
      }
      assert es[2..] == Unpack(fat[3..]);
      PackTriple(fat);
      assert fat == [fat[0], fat[1], fat[2]] + fat[3..];
    }
  }

  lemma PackTriple(fat: seq<byte>)
    requires |fat| >= 3
    ensures var e, o := EntryIn(fat, 0), EntryIn(fat, 1);
      && e % 256 == fat[0] && e / 256 + o % 16 * 16 == fat[1] && o / 16 == fat[2]
  {
    var a: int, b: int, c: int := fat[0], fat[1], fat[2];
    var lo, hi := b % 16, b / 16;
    assert a + 256 * b == a + 256 * lo + 4096 * hi;
    assert EntryIn(fat, 0) == a + 256 * lo;
    assert b + 256 * c == lo + 16 * (hi + 16 * c);
    assert EntryIn(fat, 1) == hi + 16 * c;
  }

  // ---------------------------------------------------------------- reading byte by byte

  // Up to n bytes from p on, as long as there is one.
  function Bytes(has: nat -> bool, at: nat -> byte, p: nat, n: nat): (r: seq<byte>)
    ensures |r| <= n
    decreases n
  {
    if n == 0 || !has(p) then [] else [at(p)] + Bytes(has, at, p + 1, n - 1)
  }

  lemma {:induction false} BytesAre(has: nat -> bool, at: nat -> byte, p: nat, n: nat)
    ensures var r := Bytes(has, at, p, n);
      && (forall q :: p <= q < p + |r| ==> has(q) && r[q - p] == at(q))
      && (|r| < n ==> !has(p + |r|))
    decreases n
  {
    if n > 0 && has(p) {
      BytesAre(has, at, p + 1, n - 1);
    }
  }

  // Asking for more than there is returns the same.
  lemma BytesClamp(has: nat -> bool, at: nat -> byte, p: nat, a: nat, n: nat)
    requires a <= n && !has(p + a)
    ensures Bytes(has, at, p, n) == Bytes(has, at, p, a)
  {
    BytesConcat(has, at, p, a, n - a);
    BytesAre(has, at, p, a);
  }

  lemma {:induction false} BytesDrop(has: nat -> bool, at: nat -> byte, p: nat, n: nat, m: nat)
    requires m <= |Bytes(has, at, p, n)|
    ensures Bytes(has, at, p + m, n - m) == Bytes(has, at, p, n)[m..]
    decreases m
  {
    if m > 0 { BytesDrop(has, at, p + 1, n - 1, m - 1); }
  }

  lemma BytesTake(has: nat -> bool, at: nat -> byte, p: nat, k: nat, n: nat)
    requires !has(p + k)
    ensures var r := Bytes(has, at, p, k);
      Bytes(has, at, p, n) == if n <= |r| then r[..n] else r
  {
    if n <= k {
      BytesConcat(has, at, p, n, k - n);
      BytesAre(has, at, p, n);
    } else {
      BytesClamp(has, at, p, k, n);
    }
  }

  // With size bytes at most, a read at p is that stretch of the whole.
  lemma BytesChunk(has: nat -> bool, at: nat -> byte, size: nat, p: nat, n: nat)
    requires !has(size) && p <= |Bytes(has, at, 0, size)|
    ensures var rest := Bytes(has, at, 0, size)[p..];
      Bytes(has, at, p, n) == if n <= |rest| then rest[..n] else rest
  {
    BytesDrop(has, at, 0, size, p);
    BytesTake(has, at, p, size - p, n);
  }

  // Where a later read is not cut short, an earlier one is not either.
  lemma BytesFull(has: nat -> bool, at: nat -> byte, p: nat, q: nat, n: nat)
    requires p <= q && |Bytes(has, at, q, n)| == n
    requires forall x: nat, y: nat :: x <= y && has(y) ==> has(x)
    ensures |Bytes(has, at, p, n)| == n
  {
    BytesAre(has, at, p, n);
    BytesAre(has, at, q, n);
    var k := |Bytes(has, at, p, n)|;
    if k < n { assert has(q + k); }
  }

  // Bytes that lie next to each other in a buffer.
  lemma {:induction false} BytesSlice(has: nat -> bool, at: nat -> byte, p: nat, n: nat, buf: seq<byte>, k: nat)
    requires k + n <= |buf|
    requires forall q :: p <= q < p + n ==> has(q) && at(q) == buf[k + (q - p)]
    ensures Bytes(has, at, p, n) == buf[k..k + n]
    decreases n
  {
    if n > 0 {
      BytesSlice(has, at, p + 1, n - 1, buf, k + 1);
      assert buf[k..k + n] == [buf[k]] + buf[k + 1..k + n];
    }
  }

  // Reading a then b bytes is reading a + b bytes.
  lemma {:induction false} BytesConcat(has: nat -> bool, at: nat -> byte, p: nat, a: nat, b: nat)
    ensures Bytes(has, at, p, a + b)
         == Bytes(has, at, p, a) + Bytes(has, at, p + |Bytes(has, at, p, a)|, b)
    decreases a
  {
    if a > 0 && has(p) {
      BytesConcat(has, at, p + 1, a - 1, b);
      assert p + 1 + |Bytes(has, at, p + 1, a - 1)| == p + |Bytes(has, at, p, a)|;
    }
  }

  lemma {:induction false} BytesEqual(has: nat -> bool, at: nat -> byte, has': nat -> bool, at': nat -> byte,
                                       p: nat, n: nat)
    requires forall q :: p <= q < p + n ==> has(q) == has'(q) && (has(q) ==> at(q) == at'(q))
    ensures Bytes(has, at, p, n) == Bytes(has', at', p, n)
    decreases n
  {
    if n > 0 && has(p) { BytesEqual(has, at, has', at', p + 1, n - 1); }
  }

  // What a sequence of requests returns, end to end.
  function Reads(has: nat -> bool, at: nat -> byte, p: nat, requests: seq<nat>): seq<byte>
    decreases |requests|
  {
    if requests == [] then []
    else
      var r := Bytes(has, at, p, requests[0]);
      r + Reads(has, at, p + |r|, requests[1..])
  }

  function Sum(ns: seq<nat>): nat {
    if ns == [] then 0 else ns[0] + Sum(ns[1..])
  }

  // Any way of cutting a read into requests returns the same bytes.
  lemma {:induction false} ReadsAreOneRead(has: nat -> bool, at: nat -> byte, p: nat, requests: seq<nat>)
    ensures Reads(has, at, p, requests) == Bytes(has, at, p, Sum(requests))
    decreases |requests|
  {
    if requests != [] {
      ReadsAreOneRead(has, at, p + |Bytes(has, at, p, requests[0])|, requests[1..]);
      BytesConcat(has, at, p, requests[0], Sum(requests[1..]));
    }
  }

  // ---------------------------------------------------------------- volumes and chains

  // fat is the memory from g_Fat on, which does not change. sector and readable stand for the
  // disk: what a sector holds, and whether reading it works.
  datatype Volume = Volume(sectorsPerCluster: nat, dataLba: nat, fat: nat -> byte,
                           sector: nat -> seq<byte>, readable: nat -> bool) {
    // The place of a file's s-th sector in its chain, and within its cluster.
    function ClusterOf(s: nat): nat
      requires sectorsPerCluster > 0
    {
      s / sectorsPerCluster
    }

    function SectorIn(s: nat): nat
      requires sectorsPerCluster > 0
    {
      s % sectorsPerCluster
    }

    ghost predicate Mounted() {
      && sectorsPerCluster > 0
      && forall lba :: |sector(lba)| == SECTOR_SIZE
    }
  }

  // FAT_ClusterToLba in 32-bit arithmetic.
  function ClusterToLba(v: Volume, cluster: nat): nat {
    (v.dataLba + (cluster - 2) * v.sectorsPerCluster) % U32
  }

  // The k-th cluster of a chain; None from the first table entry that marks the end on.
  function Cluster(v: Volume, first: nat, k: nat): (c: Option<nat>)
    requires first < END_OF_CHAIN
    ensures c.Some? ==> c.value < END_OF_CHAIN
  {
    if k == 0 then Some(first)
    else match Cluster(v, first, k - 1)
      case None => None
      case Some(c) => var n := NextCluster(v.fat, c); if n >= END_OF_CHAIN then None else Some(n)
  }

  // The fields of an open file or directory.
  datatype Cursor = Cursor(handle: int, isDirectory: bool, position: nat, size: nat, firstCluster: nat,
                           currentCluster: nat, sectorInCluster: nat, buffer: seq<byte>) {
    predicate IsRoot() { handle == ROOT_DIRECTORY_HANDLE }

    predicate Unbounded() { isDirectory && size == 0 }
  }

  ghost predicate WellFormed(v: Volume, f: Cursor) {
    && v.Mounted()
    && |f.buffer| == SECTOR_SIZE
    && (f.IsRoot() ==> f.isDirectory && f.size > 0)
    && (!f.IsRoot() ==> f.firstCluster < END_OF_CHAIN)
    && (f.Unbounded() || f.position <= f.size)
  }

  // The s-th sector of the file, if its chain is that long.
  function SectorLba(v: Volume, f: Cursor, s: nat): Option<nat>
    requires v.sectorsPerCluster > 0
    requires !f.IsRoot() ==> f.firstCluster < END_OF_CHAIN
  {
    if f.IsRoot() then Some(f.firstCluster + s)
    else match Cluster(v, f.firstCluster, v.ClusterOf(s))
      case None => None
      case Some(c) => Some((ClusterToLba(v, c) + v.SectorIn(s)) % U32)
  }

  // The sector that holds byte p.
  function Location(v: Volume, f: Cursor, p: nat): Option<nat>
    requires v.sectorsPerCluster > 0
    requires !f.IsRoot() ==> f.firstCluster < END_OF_CHAIN
  {
    SectorLba(v, f, p / SECTOR_SIZE)
  }

  // Does the file have a byte p: within its size, and within its chain?
  ghost predicate InFile(v: Volume, f: Cursor, p: nat)
    requires WellFormed(v, f)
  {
    Location(v, f, p).Some? && (f.Unbounded() || p < f.size)
  }

  ghost function ByteAt(v: Volume, f: Cursor, p: nat): byte
    requires WellFormed(v, f) && Location(v, f, p).Some?
  {
    v.sector(Location(v, f, p).value)[p % SECTOR_SIZE]
  }

  ghost function Has(v: Volume, f: Cursor): nat -> bool
    requires WellFormed(v, f)
  {
    (p: nat) => InFile(v, f, p)
  }

  ghost function At(v: Volume, f: Cursor): nat -> byte
    requires WellFormed(v, f)
  {
    (p: nat) => if Location(v, f, p).Some? then ByteAt(v, f, p) else 0
  }

  // The simple view: up to n bytes of the file from p on, one after the other.
  ghost function Content(v: Volume, f: Cursor, p: nat, n: nat): (r: seq<byte>)
    requires WellFormed(v, f)
    ensures |r| <= n
  {
    Bytes(Has(v, f), At(v, f), p, n)
  }

  // The cluster fields point at the s-th sector of the file.
  predicate PointsAt(v: Volume, f: Cursor, s: nat)
    requires v.sectorsPerCluster > 0
    requires !f.IsRoot() ==> f.firstCluster < END_OF_CHAIN
  {
    if f.IsRoot() then f.currentCluster == f.firstCluster + s
    else
      && Cluster(v, f.firstCluster, v.ClusterOf(s)) == Some(f.currentCluster)
      && f.sectorInCluster == v.SectorIn(s)
  }

  // The cache holds the sector of the current position, unless the chain has ended there.
  ghost predicate Coherent(v: Volume, f: Cursor) {
    && WellFormed(v, f)
    && match Location(v, f, f.position)
       case None => !f.Unbounded() && f.position == f.size
       case Some(lba) => f.buffer == v.sector(lba) && PointsAt(v, f, f.position / SECTOR_SIZE)
  }

  // Every sector that reading the file can touch is readable: those it occupies, and the one
  // fetched after a full last sector.
  ghost predicate FileReadable(v: Volume, f: Cursor)
    requires v.sectorsPerCluster > 0 && (!f.IsRoot() ==> f.firstCluster < END_OF_CHAIN)
  {
    forall s: nat :: f.Unbounded() || SECTOR_SIZE * s <= f.size ==>
      match SectorLba(v, f, s)
      case None => true
      case Some(lba) => v.readable(lba)
  }

  // Reading the file f on the disk v gives what the disk seen holds: the two differ at most in
  // the file's first sector, which is not fetched again.
  ghost predicate Shows(v: Volume, seen: Volume, f: Cursor) {
    && v.Mounted() && (!f.IsRoot() ==> f.firstCluster < END_OF_CHAIN)
    && seen == v.(sector := seen.sector)
    && forall s: nat :: s > 0 && SectorLba(v, f, s).Some? ==>
         v.sector(SectorLba(v, f, s).value) == seen.sector(SectorLba(v, f, s).value)
  }

  // The same file: every byte of one is a byte of the other.
  ghost predicate SameFile(v: Volume, f: Cursor, g: Cursor) {
    && WellFormed(v, f) && WellFormed(v, g)
    && f.IsRoot() == g.IsRoot() && f.isDirectory == g.isDirectory && f.firstCluster == g.firstCluster
    && forall p: nat :: InFile(v, f, p) <==> InFile(v, g, p)
  }

  // ---------------------------------------------------------------- moving along the chain

  lemma DivStep(s: nat, m: nat)
    requires m > 0
    ensures s % m + 1 == m ==> (s + 1) / m == s / m + 1 && (s + 1) % m == 0
    ensures s % m + 1 < m ==> (s + 1) / m == s / m && (s + 1) % m == s % m + 1
  {
    var q, r := s / m, s % m;
    assert s == m * q + r;
    if r + 1 == m {
      assert s + 1 == m * (q + 1);
      DivModUnique(s + 1, m, q + 1, 0);
    } else {
      DivModUnique(s + 1, m, q, r + 1);
    }
  }

  lemma MulGrows(m: int, d: int)
    requires m > 0
    ensures d >= 1 ==> m * d >= m
    ensures d <= -1 ==> m * d <= -m
  {
  }

  lemma DivModUnique(x: nat, m: nat, q: nat, r: nat)
    requires m > 0 && r < m && x == m * q + r
    ensures x / m == q && x % m == r
  {
    var d := x / m - q;
    assert x == m * (x / m) + x % m;
    assert m * d == r - x % m;
    MulGrows(m, d);
  }

  // From the s-th sector of a chain to the next one.
  lemma ChainStep(v: Volume, f: Cursor, s: nat)
    requires v.sectorsPerCluster > 0
    requires !f.IsRoot() && f.firstCluster < END_OF_CHAIN && PointsAt(v, f, s)
    ensures f.sectorInCluster + 1 < v.sectorsPerCluster ==>
      PointsAt(v, f.(sectorInCluster := f.sectorInCluster + 1), s + 1)
    ensures f.sectorInCluster + 1 >= v.sectorsPerCluster ==>
      (var n := NextCluster(v.fat, f.currentCluster);
       if n >= END_OF_CHAIN then SectorLba(v, f, s + 1) == None
       else PointsAt(v, f.(sectorInCluster := 0, currentCluster := n), s + 1))
  {
    DivStep(s, v.sectorsPerCluster);
  }

  // An ended chain stays ended, so the bytes in a file are a prefix of the positions.
  lemma {:induction false} ClusterEnds(v: Volume, first: nat, k: nat, l: nat)
    requires first < END_OF_CHAIN
    requires k <= l && Cluster(v, first, l).Some?
    ensures Cluster(v, first, k).Some?
    decreases l
  {
    if k < l { ClusterEnds(v, first, k, l - 1); }
  }

  lemma SectorPrefix(v: Volume, f: Cursor, s: nat, t: nat)
    requires v.sectorsPerCluster > 0
    requires !f.IsRoot() ==> f.firstCluster < END_OF_CHAIN
    requires s <= t && SectorLba(v, f, t).Some?
    ensures SectorLba(v, f, s).Some?
  {
    if !f.IsRoot() {
      DivMonotonic(s, t, v.sectorsPerCluster);
      ClusterEnds(v, f.firstCluster, v.ClusterOf(s), v.ClusterOf(t));
    }
  }

  lemma InFilePrefix(v: Volume, f: Cursor, p: nat, q: nat)
    requires WellFormed(v, f) && p <= q && InFile(v, f, q)
    ensures InFile(v, f, p)
  {
    SectorPrefix(v, f, p / SECTOR_SIZE, q / SECTOR_SIZE);
  }

  lemma DivMonotonic(a: nat, b: nat, m: nat)
    requires m > 0 && a <= b
    ensures a / m <= b / m
  {
    assert a == m * (a / m) + a % m && b == m * (b / m) + b % m;
    MulGrows(m, a / m - b / m);
  }

  // Bytes of one sector are read out of the cache.
  lemma ContentInSector(v: Volume, f: Cursor, p: nat, n: nat)
    requires WellFormed(v, f) && Location(v, f, p).Some?
    requires p % SECTOR_SIZE + n <= SECTOR_SIZE && (f.Unbounded() || p + n <= f.size)
    ensures Content(v, f, p, n) == v.sector(Location(v, f, p).value)[p % SECTOR_SIZE..p % SECTOR_SIZE + n]
  {
    var has, at, sector, k := Has(v, f), At(v, f), v.sector(Location(v, f, p).value), p % SECTOR_SIZE;
    forall q | p <= q < p + n
      ensures has(q) && at(q) == sector[k + (q - p)]
    {
      SameSector(p, q);
    }
    BytesSlice(has, at, p, n, sector, k);
  }

  lemma SameSector(p: nat, q: nat)
    requires p <= q && p % SECTOR_SIZE + (q - p) < SECTOR_SIZE
    ensures q / SECTOR_SIZE == p / SECTOR_SIZE && q % SECTOR_SIZE == p % SECTOR_SIZE + (q - p)
  {
  }

  lemma ContentOfSameFile(v: Volume, f: Cursor, g: Cursor, p: nat, n: nat)
    requires SameFile(v, f, g)
    ensures Content(v, f, p, n) == Content(v, g, p, n)
  {
    forall q | p <= q < p + n
      ensures Has(v, f)(q) == Has(v, g)(q) && At(v, f)(q) == At(v, g)(q)
    {
      assert InFile(v, f, q) <==> InFile(v, g, q);
    }
    BytesEqual(Has(v, f), At(v, f), Has(v, g), At(v, g), p, n);
  }

  // The fields that say which file a cursor reads.
  predicate Like(f: Cursor, g: Cursor) {
    f.IsRoot() == g.IsRoot() && f.isDirectory == g.isDirectory && f.firstCluster == g.firstCluster && f.size == g.size
  }

  lemma LikeSame(v: Volume, f: Cursor, g: Cursor)
    requires WellFormed(v, f) && WellFormed(v, g) && Like(f, g)
    ensures SameFile(v, f, g)
  {
  }

  lemma SameFileTrans(v: Volume, f: Cursor, g: Cursor, h: Cursor)
    requires SameFile(v, f, g) && SameFile(v, g, h)
    ensures SameFile(v, f, h)
  {
    forall p: nat
      ensures InFile(v, f, p) <==> InFile(v, h, p)
    {
      assert InFile(v, f, p) <==> InFile(v, g, p);
    }
  }

  // Moving the position on inside the cached sector, or to its end.
  lemma AdvanceInSector(v: Volume, f: Cursor, take: nat)
    requires Coherent(v, f) && Location(v, f, f.position).Some? && take > 0
    requires f.position % SECTOR_SIZE + take <= SECTOR_SIZE && (f.Unbounded() || f.position + take <= f.size)
    ensures var g := f.(position := f.position + take);
      && WellFormed(v, g) && SameFile(v, f, g)
      && if f.position % SECTOR_SIZE + take < SECTOR_SIZE then Coherent(v, g)
         else g.position % SECTOR_SIZE == 0 && PointsAt(v, g, g.position / SECTOR_SIZE - 1)
  {
    var g := f.(position := f.position + take);
    SameSector(f.position, f.position + take - 1);
    LikeSame(v, f, g);
    if f.position % SECTOR_SIZE + take < SECTOR_SIZE {
      SameSector(f.position, g.position);
    } else {
      assert g.position / SECTOR_SIZE - 1 == f.position / SECTOR_SIZE;
    }
  }

  // Cutting the size down to where the chain ends leaves the file the same.
  lemma TruncatedSame(v: Volume, f: Cursor, g: Cursor)
    requires WellFormed(v, f) && WellFormed(v, g) && f.position > 0
    requires g.handle == f.handle && g.isDirectory == f.isDirectory && g.firstCluster == f.firstCluster
    requires g.size == f.position && Location(v, f, f.position) == None
    ensures SameFile(v, f, g)
  {
    forall p: nat
      ensures InFile(v, f, p) <==> InFile(v, g, p)
    {
      assert Location(v, f, p) == Location(v, g, p);
      if Location(v, f, p).Some? && f.position <= p {
        SectorPrefix(v, f, f.position / SECTOR_SIZE, p / SECTOR_SIZE);
      }
    }
  }

  // ---------------------------------------------------------------- readability and caches

  lemma {:induction false} SameClusters(v: Volume, seen: Volume, first: nat, k: nat)
    requires first < END_OF_CHAIN && seen == v.(sector := seen.sector)
    ensures Cluster(seen, first, k) == Cluster(v, first, k)
  {
    if k > 0 { SameClusters(v, seen, first, k - 1); }
  }

  lemma SameLba(v: Volume, seen: Volume, f: Cursor, s: nat)
    requires v.sectorsPerCluster > 0 && (!f.IsRoot() ==> f.firstCluster < END_OF_CHAIN)
    requires seen == v.(sector := seen.sector)
    ensures SectorLba(seen, f, s) == SectorLba(v, f, s) && PointsAt(seen, f, s) == PointsAt(v, f, s)
  {
    if !f.IsRoot() { SameClusters(v, seen, f.firstCluster, v.ClusterOf(s)); }
  }

  lemma ShowsItself(v: Volume, f: Cursor)
    requires WellFormed(v, f)
    ensures Shows(v, v, f)
  {
  }

  // Neither depends on more than which file it is and how long.
  lemma ShowsKept(v: Volume, seen: Volume, f: Cursor, g: Cursor)
    requires Shows(v, seen, f) && g.IsRoot() == f.IsRoot() && g.firstCluster == f.firstCluster
    ensures Shows(v, seen, g)
  {
    forall s: nat
      ensures SectorLba(v, g, s) == SectorLba(v, f, s)
    {
    }
  }

  lemma ReadableKept(v: Volume, f: Cursor, g: Cursor)
    requires v.sectorsPerCluster > 0 && (!f.IsRoot() ==> f.firstCluster < END_OF_CHAIN)
    requires FileReadable(v, f) && g.IsRoot() == f.IsRoot() && g.firstCluster == f.firstCluster
    requires g.Unbounded() ==> f.Unbounded()
    requires !g.Unbounded() ==> f.Unbounded() || g.size <= f.size
    ensures FileReadable(v, g)
  {
    forall s: nat | g.Unbounded() || SECTOR_SIZE * s <= g.size
      ensures match SectorLba(v, g, s)
        case None => true
        case Some(lba) => v.readable(lba)
    {
      assert SectorLba(v, g, s) == SectorLba(v, f, s);
      assert f.Unbounded() || SECTOR_SIZE * s <= f.size;
    }
  }
}
