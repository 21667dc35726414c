/** The sector layer of kernel/fs/fat32/fat32.c: where FAT entries and clusters live on the disk, and
    how patching sectors changes them. The rest of the file system sees two arrays, the FAT and the
    clusters; this module proves that reading and writing sectors behaves as that pair of arrays. */
module FatDisk {
  import opened Bytes
  import opened Common

  const MASK := 0x1000_0000   // entries are 28 bits wide
  const EOC := 0x0FFF_FFF8    // entries from here on end a chain
  const END := 0x0FFF_FFFF    // the end mark the code writes, also its "no cluster" result

  type Sector = s: seq<byte> | |s| == 512 witness seq(512, _ => 0)
  type Disk = seq<Sector>

  /** The fields of the boot record that the code uses. */
  datatype Geometry = Geometry(reserved: nat, fatCount: nat, fatSize: nat, spc: nat) {
    /** Number of FAT entries, which the code takes for the number of clusters. */
    function N(): (n: nat)
      ensures n == 128 * fatSize
    {
      fatSize * 512 / 4
    }
    function FirstData(): nat { reserved + fatCount * fatSize }
    function ClusterSize(): nat { spc * 512 }
    /** cluster_to_lba */
    function Lba(c: nat): int { FirstData() + (c - 2) * spc }
    ghost predicate Valid() {
      1 <= fatCount && 1 <= fatSize && 1 <= spc && N() <= 0x0FFF_FFF7
    }
  }

  /** The disk is large enough for every cluster that the FAT can name, and has no more sectors than
      32 bits can number. */
  ghost predicate Fits(g: Geometry, d: Disk) {
    g.Valid() && g.FirstData() <= |d| <= WORD && forall c :: 2 <= c < g.N() ==> g.Lba(c) + g.spc <= |d|
  }

  // ---- FAT entries ----

  /** Consecutive ranges of `n` sectors do not overlap. */
  lemma Stride(a: int, b: int, n: nat)
    requires a < b
    ensures a * n + n <= b * n
  {
    assert b * n == a * n + n + (b - a - 1) * n;
  }

  /** An entry lies within one sector of its FAT. */
  lemma EntryInFat(fatSize: nat, c: nat)
    requires c < fatSize * 512 / 4
    ensures c * 4 / 512 < fatSize && c * 4 % 512 + 4 <= 512 && c * 4 % 512 == c % 128 * 4 && c * 4 / 512 == c / 128
  {
  }

  function FatSector(g: Geometry, copy: nat, c: nat): nat { g.reserved + copy * g.fatSize + c * 4 / 512 }

  lemma FatSectorRange(g: Geometry, copy: nat, c: nat)
    requires g.Valid() && copy < g.fatCount && c < g.N()
    ensures g.reserved + copy * g.fatSize <= FatSector(g, copy, c) < g.reserved + copy * g.fatSize + g.fatSize
    ensures FatSector(g, copy, c) < g.FirstData()
    ensures c * 4 % 512 + 4 <= 512
  {
    EntryInFat(g.fatSize, c);
    Stride(copy, g.fatCount, g.fatSize);
  }

  lemma DataAboveFats(g: Geometry, d: Disk)
    requires Fits(g, d)
    ensures g.FirstData() <= |d| && 128 <= g.N()
  {
    assert g.N() == g.fatSize * 128;
  }

  /** Entry `c` of FAT copy `copy`, with the four reserved bits masked off. */
  function Entry(g: Geometry, d: Disk, copy: nat, c: nat): nat
    requires Fits(g, d) && copy < g.fatCount && c < g.N()
  {
    FatSectorRange(g, copy, c);
    DataAboveFats(g, d);
    Le32(d[FatSector(g, copy, c)], c * 4 % 512) % MASK
  }

  /** The disk after the four bytes of one entry of one copy have been replaced. */
  function PutEntry(g: Geometry, d: Disk, copy: nat, c: nat, v: nat): (d': Disk)
    requires Fits(g, d) && copy < g.fatCount && c < g.N()
    ensures |d'| == |d|
  {
    FatSectorRange(g, copy, c);
    DataAboveFats(g, d);
    var k := FatSector(g, copy, c);
    d[k := Overlay(d[k], c * 4 % 512, ToLe32(v % MASK))]
  }

  lemma FatSectorsApart(g: Geometry, i: nat, c: nat, j: nat, x: nat)
    requires g.Valid() && i < g.fatCount && j < g.fatCount && c < g.N() && x < g.N()
    requires FatSector(g, i, c) == FatSector(g, j, x)
    ensures i == j && c * 4 / 512 == x * 4 / 512
  {
    FatSectorRange(g, i, c);
    FatSectorRange(g, j, x);
    if i < j {
      Stride(i, j, g.fatSize);
    } else if j < i {
      Stride(j, i, g.fatSize);
    }
  }

  lemma SameSector(c: nat, x: nat)
    requires c * 4 / 512 == x * 4 / 512
    ensures c % 128 * 4 == c * 4 % 512 && x % 128 * 4 == x * 4 % 512
    ensures c == x <==> c % 128 == x % 128
  {
    EntryIndex(c);
    EntryIndex(x);
  }

  lemma EntryIndex(c: nat)
    ensures c * 4 / 512 == c / 128 && c % 128 * 4 == c * 4 % 512
  {
  }

  /** Four bytes patched into a sector, read back at the same or at another entry. */
  lemma PatchReads(s: Sector, c: nat, x: nat, v: nat)
    requires v < 0x1_0000_0000
    ensures var r := Overlay(s, c % 128 * 4, ToLe32(v));
            Le32(r, x % 128 * 4) == if x % 128 == c % 128 then v else Le32(s, x % 128 * 4)
  {
    var at, xt, w := c % 128 * 4, x % 128 * 4, ToLe32(v);
    var r := Overlay(s, at, w);
    if xt == at {
      assert r[at] == w[0] && r[at + 1] == w[1] && r[at + 2] == w[2] && r[at + 3] == w[3];
    } else {
      assert xt + 4 <= at || at + 4 <= xt;
    }
  }

  /** Patching one entry of one copy changes that entry of that copy and no other. */
  lemma PutEntryReads(g: Geometry, d: Disk, i: nat, c: nat, v: nat, j: nat, x: nat)
    requires Fits(g, d) && i < g.fatCount && c < g.N() && j < g.fatCount && x < g.N()
    requires Fits(g, PutEntry(g, d, i, c, v))
    ensures Entry(g, PutEntry(g, d, i, c, v), j, x) == if i == j && c == x then v % MASK else Entry(g, d, j, x)
  {
    FatSectorRange(g, i, c);
    FatSectorRange(g, j, x);
    DataAboveFats(g, d);
    var k, m := FatSector(g, i, c), FatSector(g, j, x);
    var s := d[k];
    var s' := Overlay(s, c * 4 % 512, ToLe32(v % MASK));
    if m == k {
      FatSectorsApart(g, i, c, j, x);
      SameSector(c, x);
      PatchReads(s, c, x, v % MASK);
      assert Entry(g, PutEntry(g, d, i, c, v), j, x) == Le32(s', x * 4 % 512) % MASK;
    } else {
      assert PutEntry(g, d, i, c, v)[m] == d[m];
    }
  }

  /** Where an entry lies: its sector, counted from the start of the disk, and its four bytes there, low byte
      first, of which the upper four bits are not part of it. */
  lemma EntryBytes(g: Geometry, d: Disk, i: nat, c: nat)
    requires Fits(g, d) && i < g.fatCount && c < 128 * g.fatSize
    ensures g.reserved + i * g.fatSize + c / 128 < |d|
    ensures var s, o := d[g.reserved + i * g.fatSize + c / 128], c % 128 * 4;
            Entry(g, d, i, c) == (s[o] as int + 0x100 * s[o + 1] as int + 0x1_0000 * s[o + 2] as int + 0x100_0000 * s[o + 3] as int) % 0x1000_0000
  {
    FatSectorRange(g, i, c);
    EntryIndex(c);
  }

  /** Patching an entry writes exactly these four bytes. */
  lemma PutEntryBytes(g: Geometry, d: Disk, i: nat, c: nat, v: nat, k: nat, j: nat)
    requires Fits(g, d) && i < g.fatCount && c < 128 * g.fatSize && k < |d| && j < 512
    ensures var w := v % 0x1000_0000;
            PutEntry(g, d, i, c, v)[k][j] ==
            if k != g.reserved + i * g.fatSize + c / 128 then d[k][j]
            else if j == c % 128 * 4 then w % 0x100
            else if j == c % 128 * 4 + 1 then w / 0x100 % 0x100
            else if j == c % 128 * 4 + 2 then w / 0x1_0000 % 0x100
            else if j == c % 128 * 4 + 3 then w / 0x100_0000
            else d[k][j]
  {
    FatSectorRange(g, i, c);
    EntryIndex(c);
    LeBytes(v % MASK);
  }

  // ---- clusters ----

  function Flatten(ss: seq<Sector>): (b: seq<byte>)
    ensures |b| == 512 * |ss|
  {
    if ss == [] then [] else ss[0] + Flatten(ss[1..])
  }

  function Split(b: seq<byte>): (ss: seq<Sector>)
    requires |b| % 512 == 0
    ensures |ss| == |b| / 512
  {
    if b == [] then [] else [b[..512]] + Split(b[512..])
  }

  lemma {:induction false} FlattenSplit(b: seq<byte>)
    requires |b| % 512 == 0
    ensures Flatten(Split(b)) == b
  {
    if b != [] {
      FlattenSplit(b[512..]);
      assert Split(b)[1..] == Split(b[512..]);
      assert b == b[..512] + b[512..];
    }
  }

  lemma {:induction false} FlattenAt(ss: seq<Sector>, j: nat)
    requires j < 512 * |ss|
    ensures Flatten(ss)[j] == ss[j / 512][j % 512]
  {
    if j >= 512 {
      FlattenAt(ss[1..], j - 512);
      assert (j - 512) / 512 == j / 512 - 1 && (j - 512) % 512 == j % 512;
    }
  }

  lemma {:induction false} SplitAt(b: seq<byte>, i: nat)
    requires |b| % 512 == 0 && i < |b| / 512
    ensures Split(b)[i] == b[512 * i..512 * i + 512]
  {
    if i > 0 {
      SplitAt(b[512..], i - 1);
      assert Split(b)[i] == Split(b[512..])[i - 1];
      assert b[512..][512 * (i - 1)..512 * (i - 1) + 512] == b[512 * i..512 * i + 512];
    }
  }

  lemma LbaRange(g: Geometry, d: Disk, c: nat)
    requires Fits(g, d) && 2 <= c < g.N()
    ensures g.FirstData() <= g.Lba(c) && g.Lba(c) + g.spc <= |d|
  {
    assert (c - 2) * g.spc >= 0;
  }

  /** Different clusters occupy disjoint sector ranges, and the 32-bit sums that compute them do not
      wrap. */
  lemma LbaApart(g: Geometry, d: Disk, c: nat, x: nat)
    requires Fits(g, d) && 2 <= c < g.N() && 2 <= x < g.N() && c != x
    ensures g.Lba(c) + g.spc <= g.Lba(x) || g.Lba(x) + g.spc <= g.Lba(c)
    ensures 0 <= (c - 2) * g.spc <= g.Lba(c) && g.Lba(c) + g.spc <= WORD
  {
    LbaRange(g, d, c);
    if c < x {
      Stride(c - 2, x - 2, g.spc);
    } else {
      Stride(x - 2, c - 2, g.spc);
    }
  }

  /** disk_read_sectors of one cluster */
  function Cluster(g: Geometry, d: Disk, c: nat): (b: seq<byte>)
    requires Fits(g, d) && 2 <= c < g.N()
    ensures |b| == g.ClusterSize()
  {
    LbaRange(g, d, c);
    Flatten(d[g.Lba(c)..g.Lba(c) + g.spc])
  }

  /** disk_write_sectors of one cluster */
  function PutCluster(g: Geometry, d: Disk, c: nat, b: seq<byte>): (d': Disk)
    requires Fits(g, d) && 2 <= c < g.N() && |b| == g.ClusterSize()
    ensures |d'| == |d|
  {
    LbaRange(g, d, c);
    d[..g.Lba(c)] + Split(b) + d[g.Lba(c) + g.spc..]
  }

  /** Where a cluster's bytes lie: behind the reserved sectors and all FAT copies, cluster 2 first. */
  lemma ClusterBytes(g: Geometry, d: Disk, c: nat, j: nat)
    requires Fits(g, d) && 2 <= c < 128 * g.fatSize && j < 512 * g.spc
    ensures 0 <= g.reserved + g.fatCount * g.fatSize + (c - 2) * g.spc + j / 512 < |d|
    ensures |Cluster(g, d, c)| == 512 * g.spc
    ensures Cluster(g, d, c)[j] == d[g.reserved + g.fatCount * g.fatSize + (c - 2) * g.spc + j / 512][j % 512]
  {
    LbaRange(g, d, c);
    FlattenAt(d[g.Lba(c)..g.Lba(c) + g.spc], j);
  }

  /** Writing a cluster writes exactly its sectors. */
  lemma PutClusterSectors(g: Geometry, d: Disk, c: nat, b: seq<byte>, k: nat)
    requires Fits(g, d) && 2 <= c < 128 * g.fatSize && |b| == 512 * g.spc && k < |d|
    ensures var first := g.reserved + g.fatCount * g.fatSize + (c - 2) * g.spc;
            PutCluster(g, d, c, b)[k] == if first <= k < first + g.spc then b[512 * (k - first)..512 * (k - first) + 512] else d[k]
  {
    LbaRange(g, d, c);
    var first := g.Lba(c);
    if first <= k < first + g.spc {
      SplitAt(b, k - first);
    }
  }

  // ---- the disk as two arrays ----

  /** A volume as its FAT and its clusters, both indexed by cluster number. Numbers 0 and 1 name no
      cluster. */
  datatype Vol = Vol(fat: seq<nat>, data: seq<seq<byte>>, cs: nat)

  /** Every copy of the FAT on the disk holds `v.fat`, and the data sectors hold `v.data`. */
  ghost predicate Holds(g: Geometry, d: Disk, v: Vol) {
    && Fits(g, d)
    && |v.fat| == |v.data| == g.N() && v.cs == g.ClusterSize()
    && v.data[..2] == [[], []]
    && (forall i, c {:trigger Entry(g, d, i, c)} :: 0 <= i < g.fatCount && 0 <= c < g.N() ==> Entry(g, d, i, c) == v.fat[c])
    && forall c {:trigger Cluster(g, d, c)} :: 2 <= c < g.N() ==> Cluster(g, d, c) == v.data[c]
  }

  /** Every disk that is large enough and whose FAT copies agree holds a volume. */
  lemma DiskHolds(g: Geometry, d: Disk) returns (v: Vol)
    requires Fits(g, d)
    requires forall i, c {:trigger Entry(g, d, i, c)} :: 0 <= i < g.fatCount && 0 <= c < g.N() ==> Entry(g, d, i, c) == Entry(g, d, 0, c)
    ensures Holds(g, d, v)
  {
    DataAboveFats(g, d);
    v := Vol(seq(g.N(), c requires 0 <= c < g.N() => Entry(g, d, 0, c)),
             seq(g.N(), c requires 0 <= c < g.N() => if c < 2 then [] else Cluster(g, d, c)),
             g.ClusterSize());
  }

  /** Two copies of the FAT never differ in an entry, and a disk holds only one volume. */
  lemma CopiesAgree(g: Geometry, d: Disk, v: Vol, w: Vol, i: nat, j: nat, c: nat)
    requires Holds(g, d, v) && Holds(g, d, w) && i < g.fatCount && j < g.fatCount && c < g.N()
    ensures Entry(g, d, i, c) == Entry(g, d, j, c)
    ensures v == w
  {
    forall x | 0 <= x < g.N() ensures v.fat[x] == w.fat[x] && v.data[x] == w.data[x] {
      assert Entry(g, d, 0, x) == v.fat[x];
      if x >= 2 {
        assert Cluster(g, d, x) == v.data[x];
      } else {
        assert v.data[x] == v.data[..2][x] && w.data[x] == w.data[..2][x];
      }
    }
    assert v.fat == w.fat && v.data == w.data;
    assert Entry(g, d, i, c) == v.fat[c];
  }

  lemma PutClusterReads(g: Geometry, d: Disk, c: nat, b: seq<byte>, x: nat)
    requires Fits(g, d) && 2 <= c < g.N() && |b| == g.ClusterSize() && 2 <= x < g.N() && Fits(g, PutCluster(g, d, c, b))
    ensures Cluster(g, PutCluster(g, d, c, b), x) == if x == c then b else Cluster(g, d, x)
  {
    var d' := PutCluster(g, d, c, b);
    LbaRange(g, d, c);
    LbaRange(g, d, x);
    var l, k := g.Lba(c), g.Lba(x);
    if x == c {
      assert d'[l..l + g.spc] == Split(b);
      FlattenSplit(b);
    } else {
      LbaApart(g, d, c, x);
      assert d'[k..k + g.spc] == d[k..k + g.spc];
    }
  }

  /** Writing a cluster's sectors updates one element of the cluster array, and no FAT entry. */
  lemma PutClusterHolds(g: Geometry, d: Disk, v: Vol, c: nat, b: seq<byte>)
    requires Holds(g, d, v) && 2 <= c < g.N() && |b| == g.ClusterSize()
    ensures Holds(g, PutCluster(g, d, c, b), v.(data := v.data[c := b]))
  {
    var d' := PutCluster(g, d, c, b);
    LbaRange(g, d, c);
    forall i, x | 0 <= i < g.fatCount && 0 <= x < g.N()
      ensures Entry(g, d', i, x) == Entry(g, d, i, x)
    {
      FatSectorRange(g, i, x);
    }
    forall x | 2 <= x < g.N()
      ensures Cluster(g, d', x) == if x == c then b else Cluster(g, d, x)
    {
      PutClusterReads(g, d, c, b, x);
    }
    assert v.data[c := b][..2] == v.data[..2];
  }

  /** Patching a FAT sector leaves every cluster. */
  lemma PutEntryKeepsClusters(g: Geometry, d: Disk, i: nat, c: nat, v: nat)
    requires Fits(g, d) && i < g.fatCount && c < g.N()
    ensures Fits(g, PutEntry(g, d, i, c, v))
    ensures forall x :: 2 <= x < g.N() ==> Cluster(g, PutEntry(g, d, i, c, v), x) == Cluster(g, d, x)
  {
    var d' := PutEntry(g, d, i, c, v);
    FatSectorRange(g, i, c);
    forall x | 2 <= x < g.N()
      ensures Cluster(g, d', x) == Cluster(g, d, x)
    {
      LbaRange(g, d, x);
      assert d'[g.Lba(x)..g.Lba(x) + g.spc] == d[g.Lba(x)..g.Lba(x) + g.spc];
    }
  }

  /** One entry patched in the first `n` copies of the FAT. */
  ghost function PutEntries(g: Geometry, d: Disk, n: nat, c: nat, v: nat): (d': Disk)
    requires Fits(g, d) && n <= g.fatCount && c < g.N()
    ensures |d'| == |d|
  {
    if n == 0 then d else PutEntry(g, PutEntries(g, d, n - 1, c, v), n - 1, c, v)
  }

  // ---- what the driver never touches ----

  /** The first sector behind the last cluster. */
  ghost function EndOf(g: Geometry): int {
    g.reserved + g.fatCount * g.fatSize + (128 * g.fatSize - 2) * g.spc
  }

  /** The reserved sectors, with the boot record, and those behind the last cluster are as in `d0`. */
  ghost predicate Outside(g: Geometry, d0: Disk, d: Disk) {
    && |d| == |d0|
    && forall k {:trigger d[k]} :: 0 <= k < |d| && (k < g.reserved || k >= EndOf(g)) ==> d[k] == d0[k]
  }

  lemma OutsidePutEntry(g: Geometry, d0: Disk, d: Disk, i: nat, c: nat, v: nat)
    requires Fits(g, d) && Outside(g, d0, d) && i < g.fatCount && c < g.N()
    ensures Outside(g, d0, PutEntry(g, d, i, c, v))
  {
    hide Fits, Overlay, FatSector, EndOf;
    FitsFacts(g, d);
    FatSectorRange(g, i, c);
    NotNegative(i, g.fatSize);
  }

  lemma FitsFacts(g: Geometry, d: Disk)
    requires Fits(g, d)
    ensures g.Valid() && g.FirstData() <= |d| && g.FirstData() <= EndOf(g)
  {
    DataAboveFats(g, d);
    NotNegative(128 * g.fatSize - 2, g.spc);
  }

  lemma NotNegative(a: nat, b: nat)
    ensures a * b >= 0
  {
  }

  lemma OutsidePutCluster(g: Geometry, d0: Disk, d: Disk, c: nat, b: seq<byte>)
    requires Fits(g, d) && Outside(g, d0, d) && 2 <= c < g.N() && |b| == g.ClusterSize()
    ensures Outside(g, d0, PutCluster(g, d, c, b))
  {
    LbaRange(g, d, c);
    Stride(c - 2, g.N() - 2, g.spc);
    assert g.fatCount * g.fatSize >= 0;
  }
}
