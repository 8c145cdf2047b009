// Where the bytes of a file lie on a FAT12 disk, said of the disk itself: the data section holds
// cluster 2, cluster 3 and so on end to end, and a file is the clusters of its chain end to end.
module FatLayout {
  import opened Basics
  import opened FatModel
  import opened FatFiles
  import opened FatDirectory

  // ---------------------------------------------------------------- the disk

  // The sectors from the data section's first one on hold the contents of the clusters, the first
  // of which has number 2.
  ghost predicate DataSection(v: Volume, clusters: seq<seq<byte>>) {
    && v.Mounted() && v.dataLba + |clusters| * v.sectorsPerCluster <= U32
    && (forall i :: 0 <= i < |clusters| ==> |clusters[i]| == 512 * v.sectorsPerCluster)
    && forall k: nat :: k < |clusters| * v.sectorsPerCluster ==> HoldsSector(v, v.dataLba, Flat(clusters), k)
  }

  // Sector first + k holds the k-th 512 bytes of a stretch.
  ghost predicate HoldsSector(v: Volume, first: nat, bytes: seq<byte>, k: nat) {
    512 * k + 512 <= |bytes| && v.sector(first + k) == bytes[512 * k..512 * k + 512]
  }

  // The allocation table has these entries, and this chain of cluster numbers in it.
  ghost predicate HasChain(v: Volume, table: seq<nat>, chain: seq<nat>, clusters: seq<seq<byte>>) {
    && (forall i :: 0 <= i < |table| ==> table[i] < 4096) && StartsWith(v.fat, Pack(table))
    && chain != [] && (forall i :: 0 <= i < |chain| ==> 2 <= chain[i] < 0xFF8 && chain[i] < |table|)
    && (forall i :: 0 <= i < |chain| ==> chain[i] < 2 + |clusters|)
    && (forall i {:trigger table[chain[i]]} :: 0 <= i < |chain| - 1 ==> table[chain[i]] == chain[i + 1])
    && table[chain[|chain| - 1]] >= 0xFF8
  }

  // The contents of its clusters.
  ghost function Parts(chain: seq<nat>, clusters: seq<seq<byte>>): (r: seq<seq<byte>>)
    requires forall i :: 0 <= i < |chain| ==> 2 <= chain[i] < 2 + |clusters|
    ensures |r| == |chain|
  {
    seq(|chain|, i requires 0 <= i < |chain| => clusters[chain[i] - 2])
  }

  // The n bytes from p on, as far as there are any.
  function Stretch(bytes: seq<byte>, p: nat, n: nat): seq<byte> {
    if p >= |bytes| then [] else if p + n <= |bytes| then bytes[p..p + n] else bytes[p..]
  }

  // ---------------------------------------------------------------- pieces end to end

  lemma {:induction false} FlatSize(parts: seq<seq<byte>>, size: nat)
    requires forall i :: 0 <= i < |parts| ==> |parts[i]| == size
    ensures |Flat(parts)| == |parts| * size
  {
    if parts != [] {
      FlatSize(parts[1..], size);
      assert |parts| * size == size + (|parts| - 1) * size;
    }
  }

  lemma {:induction false} FlatAt(parts: seq<seq<byte>>, size: nat, i: nat, x: nat)
    requires forall k :: 0 <= k < |parts| ==> |parts[k]| == size
    requires i < |parts| && x < size
    ensures 0 <= i * size + x < |Flat(parts)| && Flat(parts)[i * size + x] == parts[i][x]
    decreases i
  {
    if i > 0 {
      FlatAt(parts[1..], size, i - 1, x);
      assert i * size + x == size + ((i - 1) * size + x);
    }
  }

  // ---------------------------------------------------------------- along the chain

  lemma {:induction false} ClusterOfChain(v: Volume, table: seq<nat>, chain: seq<nat>, clusters: seq<seq<byte>>, k: nat)
    requires HasChain(v, table, chain, clusters) && k <= |chain|
    ensures Cluster(v, chain[0], k) == if k < |chain| then Some(chain[k]) else None
  {
    if k > 0 {
      ClusterOfChain(v, table, chain, clusters, k - 1);
      NextOfPack(v.fat, table, chain[k - 1]);
    }
  }

  lemma SplitSector(s: nat, m: nat)
    requires m > 0
    ensures s == s / m * m + s % m && s % m < m
  {
  }

  lemma Regroup(a: nat, m: nat)
    ensures a * (512 * m) == 512 * (a * m)
  {
  }

  lemma Below(c: nat, j: nat, m: nat, n: nat)
    requires c < n && j < m
    ensures 0 <= c * m && c * m + j < n * m
  {
    MulGrows(m, n - c);
    assert m * (n - c) == n * m - c * m;
  }

  lemma NotBelow(c: nat, m: nat, n: nat)
    requires n <= c && m > 0
    ensures n * m <= c * m
  {
    MulGrows(m, c - n);
    assert m * (c - n) == c * m - n * m;
  }

  // A place in the data section, in sectors and in bytes.
  lemma Place(a: nat, j: nat, m: nat, x: nat, n: nat) returns (base: nat)
    requires a < n && j < m && x < 512
    ensures base == a * m && base + j < n * m && a * (512 * m) == 512 * base
    ensures 512 * j + x < 512 * m
  {
    base := a * m;
    Below(a, j, m, n);
    Regroup(a, m);
  }

  // Sector j of cluster c, counted from the start of the data section.
  lemma SectorOfCluster(v: Volume, clusters: seq<seq<byte>>, c: nat, j: nat, x: nat)
    requires DataSection(v, clusters) && 2 <= c < 2 + |clusters| && j < v.sectorsPerCluster && x < 512
    ensures 512 * j + x < |clusters[c - 2]|
    ensures var lba := (ClusterToLba(v, c) + j) % U32;
      |v.sector(lba)| == 512 && v.sector(lba)[x] == clusters[c - 2][512 * j + x]
  {
    hide Flat;
    var m := v.sectorsPerCluster;
    var base := Place(c - 2, j, m, x, |clusters|);
    assert HoldsSector(v, v.dataLba, Flat(clusters), base + j);
    FlatAt(clusters, 512 * m, c - 2, 512 * j + x);
    assert v.sector(v.dataLba + (base + j))[x] == Flat(clusters)[512 * (base + j) + x];
    LbaOf(v, c, base);
  }

  lemma LbaOf(v: Volume, c: nat, base: nat)
    requires c >= 2 && base == (c - 2) * v.sectorsPerCluster && v.dataLba + base < U32
    ensures ClusterToLba(v, c) == v.dataLba + base
  {
  }

  // Byte q of a file lies at place q of its clusters end to end, and there is none behind them.
  lemma ByteOfChain(v: Volume, f: Cursor, table: seq<nat>, chain: seq<nat>, clusters: seq<seq<byte>>, q: nat)
    requires DataSection(v, clusters) && HasChain(v, table, chain, clusters)
    requires WellFormed(v, f) && !f.IsRoot() && f.firstCluster == chain[0]
    ensures var whole := Flat(Parts(chain, clusters));
      && (q < |whole| ==> At(v, f)(q) == whole[q])
      && (Location(v, f, q).Some? <==> q < |whole|)
  {
    var m, parts, s := v.sectorsPerCluster, Parts(chain, clusters), q / 512;
    var k, j := v.ClusterOf(s), v.SectorIn(s);
    SplitSector(s, m);
    FlatSize(parts, 512 * m);
    Regroup(|chain|, m);
    hide Flat, HasChain, DataSection, ClusterToLba;
    if k < |chain| {
      ByteInChain(v, table, chain, clusters, k, j, q % 512, k * m);
    } else {
      NotBelow(k, m, |chain|);
      ChainEnds(v, table, chain, clusters, k);
    }
  }

  lemma ByteInChain(v: Volume, table: seq<nat>, chain: seq<nat>, clusters: seq<seq<byte>>,
                    k: nat, j: nat, x: nat, base: nat)
    requires DataSection(v, clusters) && HasChain(v, table, chain, clusters)
    requires k < |chain| && j < v.sectorsPerCluster && x < 512 && base == k * v.sectorsPerCluster
    ensures Cluster(v, chain[0], k) == Some(chain[k])
    ensures var whole, lba := Flat(Parts(chain, clusters)), (ClusterToLba(v, chain[k]) + j) % U32;
      && 512 * (base + j) + x < |whole| && |v.sector(lba)| == 512
      && v.sector(lba)[x] == whole[512 * (base + j) + x]
  {
    var m, parts := v.sectorsPerCluster, Parts(chain, clusters);
    ClusterOfChain(v, table, chain, clusters, k);
    SectorOfCluster(v, clusters, chain[k], j, x);
    hide Flat, ClusterToLba, DataSection, HasChain;
    Regroup(k, m);
    PartAt(chain, clusters, 512 * m, k, 512 * j + x);
  }

  lemma PartAt(chain: seq<nat>, clusters: seq<seq<byte>>, size: nat, k: nat, x: nat)
    requires forall i :: 0 <= i < |chain| ==> 2 <= chain[i] < 2 + |clusters|
    requires forall i :: 0 <= i < |clusters| ==> |clusters[i]| == size
    requires k < |chain| && x < size
    ensures 0 <= k * size + x < |Flat(Parts(chain, clusters))|
    ensures Flat(Parts(chain, clusters))[k * size + x] == clusters[chain[k] - 2][x]
  {
    FlatAt(Parts(chain, clusters), size, k, x);
  }

  lemma ChainEnds(v: Volume, table: seq<nat>, chain: seq<nat>, clusters: seq<seq<byte>>, k: nat)
    requires HasChain(v, table, chain, clusters) && |chain| <= k
    ensures Cluster(v, chain[0], k) == None
  {
    ClusterOfChain(v, table, chain, clusters, |chain|);
    if Cluster(v, chain[0], k).Some? {
      ClusterEnds(v, chain[0], |chain|, k);
    }
  }

  // Reading byte by byte what lies in a row.
  lemma BytesOfRow(has: nat -> bool, at: nat -> byte, row: seq<byte>, p: nat, n: nat)
    requires forall q: nat :: has(q) <==> q < |row|
    requires forall q: nat :: q < |row| ==> at(q) == row[q]
    ensures Bytes(has, at, p, n) == Stretch(row, p, n)
  {
    if p < |row| {
      if p + n <= |row| {
        BytesSlice(has, at, p, n, row, p);
      } else {
        BytesClamp(has, at, p, |row| - p, n);
        BytesSlice(has, at, p, |row| - p, row, p);
      }
    }
  }

  // ---------------------------------------------------------------- what a file is

  // A file is the contents of its clusters end to end, cut at its size; a directory of size 0 is
  // all of them.
  function Cut(whole: seq<byte>, isDirectory: bool, size: nat): seq<byte> {
    if (isDirectory && size == 0) || size >= |whole| then whole else whole[..size]
  }

  lemma ContentOfChain(v: Volume, f: Cursor, table: seq<nat>, chain: seq<nat>, clusters: seq<seq<byte>>,
                       p: nat, n: nat)
    requires DataSection(v, clusters) && HasChain(v, table, chain, clusters)
    requires WellFormed(v, f) && !f.IsRoot() && f.firstCluster == chain[0]
    ensures Content(v, f, p, n) == Stretch(Cut(Flat(Parts(chain, clusters)), f.isDirectory, f.size), p, n)
  {
    var whole := Flat(Parts(chain, clusters));
    forall q: nat
      ensures Has(v, f)(q) <==> q < |Cut(whole, f.isDirectory, f.size)|
      ensures q < |whole| ==> At(v, f)(q) == whole[q]
    {
      ByteOfChain(v, f, table, chain, clusters, q);
    }
    BytesOfRow(Has(v, f), At(v, f), Cut(whole, f.isDirectory, f.size), p, n);
  }

  // What reading an entry that was just opened returns.
  lemma OpenedReads(v: Volume, e: Entry, h: nat, table: seq<nat>, chain: seq<nat>, clusters: seq<seq<byte>>, n: nat)
    requires DataSection(v, clusters) && HasChain(v, table, chain, clusters) && e.firstCluster == chain[0]
    ensures Coherent(v, Opened(v, e, h)) && Opened(v, e, h).position == 0
    ensures Content(v, Opened(v, e, h), 0, n) == Stretch(Cut(Flat(Parts(chain, clusters)), e.isDirectory, e.size), 0, n)
  {
    OpenedCoherent(v, e, h);
    ContentOfChain(v, Opened(v, e, h), table, chain, clusters, 0, n);
  }

  // The root directory is the bytes of its sectors end to end, cut at its size.
  lemma ContentOfRoot(v: Volume, f: Cursor, bytes: seq<byte>, p: nat, n: nat)
    requires WellFormed(v, f) && f.IsRoot() && f.size <= |bytes|
    requires forall k: nat :: 512 * k < |bytes| ==> HoldsSector(v, f.firstCluster, bytes, k)
    ensures Content(v, f, p, n) == Stretch(bytes[..f.size], p, n)
  {
    forall q: nat
      ensures Has(v, f)(q) <==> q < f.size
      ensures q < f.size ==> At(v, f)(q) == bytes[q]
    {
      if q < f.size {
        assert HoldsSector(v, f.firstCluster, bytes, q / 512);
      }
    }
    BytesOfRow(Has(v, f), At(v, f), bytes[..f.size], p, n);
  }

  // ---------------------------------------------------------------- in numbers

  // Cluster 2 is the first of the data section; the next one follows it.
  lemma FirstClusters(v: Volume)
    requires v.dataLba == 33 && v.sectorsPerCluster == 1
    ensures ClusterToLba(v, 2) == 33 && ClusterToLba(v, 3) == 34
  {
  }

  // Two entries in three bytes.
  lemma EntriesInNumbers()
    ensures EntryIn([0x23, 0xF1, 0x45], 0) == 0x123 && EntryIn([0x23, 0xF1, 0x45], 1) == 0x45F
  {
  }
}
