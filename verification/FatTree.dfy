/** What a well-formed FAT32 volume is, over its FAT and its clusters, and what each step of the file
    operations does to it. */
module FatTree {
  import opened Bytes
  import opened Common
  import opened FatDisk
  import opened FatChain
  import opened FatDir
  import opened FatName

  /** The chains of a volume by first cluster, and which of them are directories. */
  datatype Tree = Tree(root: nat, dirs: set<nat>, chains: map<nat, seq<nat>>)

  ghost predicate Shaped(v: Vol) {
    && |v.fat| == |v.data| && 2 <= |v.fat| < EOC
    && 64 <= v.cs && v.cs % 32 == 0 && Sized(v.data, v.cs)
  }

  lemma ShapedFacts(v: Vol)
    requires Shaped(v)
    ensures |v.fat| == |v.data| < EOC && 64 <= v.cs && Sized(v.data, v.cs)
  {
  }

  // ---- chains ----

  ghost predicate ChainsOk(fat: seq<nat>, chains: map<nat, seq<nat>>) {
    && (forall s {:trigger IsChain(fat, chains[s])} :: s in chains ==> IsChain(fat, chains[s]) && chains[s][0] == s)
    && forall s, t, c {:trigger c in chains[s], c in chains[t]} ::
         s in chains && t in chains && s != t && c in chains[s] ==> c !in chains[t]
  }

  ghost function FreeSet(fat: seq<nat>): set<nat> {
    set c | 2 <= c < |fat| && fat[c] == 0
  }

  // ---- directories ----

  ghost predicate DirsOk(t: Tree) {
    && t.root in t.dirs
    && forall d :: d in t.dirs ==> d in t.chains && t.chains[d] == [d]
  }

  /** A live slot that names a file or a directory with clusters: neither a dot entry nor empty. */
  predicate Refers(e: Slot) { Live(e) && e[0] != DOT && StartOf(e) != 0 }

  ghost predicate SlotOk(e: Slot, t: Tree, cs: nat) {
    && (Refers(e) ==>
          && StartOf(e) in t.chains && StartOf(e) != t.root
          && (IsDirAttr(AttrOf(e)) <==> StartOf(e) in t.dirs)
          && SizeOf(e) <= Span(|t.chains[StartOf(e)]|, cs))
    && (Live(e) && e[0] != DOT && IsDirAttr(AttrOf(e)) ==> StartOf(e) != 0)
    && (Live(e) && e[0] == DOT ==> StartOf(e) == 0 || StartOf(e) in t.dirs)
  }

  ghost predicate SlotsOk(table: seq<Slot>, t: Tree, cs: nat) {
    && TailUnused(table)
    && forall k {:trigger SlotOk(table[k], t, cs)} :: 0 <= k < |table| ==> SlotOk(table[k], t, cs)
  }

  ghost function Table(v: Vol, d: nat): seq<Slot>
    requires Shaped(v) && 2 <= d < |v.data|
  {
    Slots(v.data[d])
  }

  /** Slot `k` of directory `d` refers to the chain from `s`. */
  ghost predicate RefAt(v: Vol, t: Tree, d: nat, k: nat, s: nat)
    requires Shaped(v)
  {
    d in t.dirs && 2 <= d < |v.data| && k < |Table(v, d)| && Refers(Table(v, d)[k]) && StartOf(Table(v, d)[k]) == s
  }

  ghost predicate RefsUnique(v: Vol, t: Tree)
    requires Shaped(v)
  {
    forall s, d, k, d', k' :: RefAt(v, t, d, k, s) && RefAt(v, t, d', k', s) ==> d == d' && k == k'
  }

  /** Slot `k` of directory `d` is a dot entry that leads to `s`. */
  ghost predicate DotAt(v: Vol, t: Tree, d: nat, k: nat, s: nat)
    requires Shaped(v)
  {
    && d in t.dirs && 2 <= d < |v.data| && k < |Table(v, d)|
    && Live(Table(v, d)[k]) && Table(v, d)[k][0] == DOT && StartOf(Table(v, d)[k]) == s
  }

  /** A dot entry leads to the directory itself or to the one that refers to it, or is 0. */
  ghost predicate DotsOk(v: Vol, t: Tree)
    requires Shaped(v)
  {
    && (forall k, x :: DotAt(v, t, t.root, k, x) ==> x == 0 || x == t.root)
    && forall y, k, x, d, j :: DotAt(v, t, y, k, x) && RefAt(v, t, d, j, y) ==> x == 0 || x == y || x == d
  }

  /** With fewer references and dot entries this stays so. */
  lemma DotsFewer(v: Vol, t: Tree, v': Vol, t': Tree)
    requires Shaped(v) && Shaped(v') && t'.root == t.root && DotsOk(v, t)
    requires forall d, k, x :: DotAt(v', t', d, k, x) ==> DotAt(v, t, d, k, x)
    requires forall d, k, x :: RefAt(v', t', d, k, x) ==> RefAt(v, t, d, k, x)
    ensures DotsOk(v', t')
  {
  }

  /** The invariant: chains are complete and disjoint, directories are one cluster each with a
      well-formed slot table, every chain is named by at most one slot, and dot entries lead to the
      directory itself or its parent. */
  ghost predicate Inv(v: Vol, t: Tree) {
    && Shaped(v)
    && ChainsOk(v.fat, t.chains)
    && DirsOk(t)
    && (forall d {:trigger Table(v, d)} :: d in t.dirs && 2 <= d < |v.data| ==> SlotsOk(Table(v, d), t, v.cs))
    && RefsUnique(v, t)
    && DotsOk(v, t)
  }

  ghost predicate Unreferenced(v: Vol, t: Tree, s: nat)
    requires Shaped(v)
  {
    forall d, k :: !RefAt(v, t, d, k, s)
  }

  lemma FileChain(v: Vol, t: Tree, s: nat)
    requires Inv(v, t) && s in t.chains
    ensures Shaped(v) && IsChain(v.fat, t.chains[s]) && t.chains[s][0] == s && 2 <= s < |v.fat|
  {
    assert IsChain(v.fat, t.chains[s]);
  }

  lemma RootIsDir(v: Vol, t: Tree)
    requires Inv(v, t)
    ensures t.root in t.dirs
  {
  }

  lemma DirInTable(v: Vol, t: Tree, d: nat)
    requires Inv(v, t) && d in t.dirs
    ensures Shaped(v) && 2 <= d < |v.data| && |v.data[d]| == v.cs && v.cs % 32 == 0
    ensures SlotsOk(Table(v, d), t, v.cs) && |Table(v, d)| == v.cs / 32
  {
    FileChain(v, t, d);
    assert Sized(v.data, v.cs);
  }

  /** A slot that refers to a file names a complete chain large enough for the size it records. */
  lemma RefChain(v: Vol, t: Tree, d: nat, k: nat, s: nat)
    requires Inv(v, t) && RefAt(v, t, d, k, s)
    ensures s in t.chains && s != t.root && IsChain(v.fat, t.chains[s]) && t.chains[s][0] == s
    ensures SizeOf(Table(v, d)[k]) <= Span(|t.chains[s]|, v.cs)
  {
    assert SlotOk(Table(v, d)[k], t, v.cs);
  }

  /** A live slot that starts at a file's cluster is a reference to it, never a dot entry. */
  lemma LiveStartIsRef(v: Vol, t: Tree, d: nat, k: nat, s: nat)
    requires Inv(v, t) && d in t.dirs && s in t.chains && s !in t.dirs
    requires 2 <= d < |v.data| && k < |Table(v, d)| && Live(Table(v, d)[k]) && StartOf(Table(v, d)[k]) == s
    ensures RefAt(v, t, d, k, s)
  {
    assert SlotOk(Table(v, d)[k], t, v.cs);
    assert IsChain(v.fat, t.chains[s]) && t.chains[s][0] == s;
  }

  /** Directory `d` has a slot for the chain from `s` that records the size `len`. */
  ghost predicate Names(v: Vol, t: Tree, d: nat, s: nat, len: nat)
    requires Shaped(v)
  {
    exists k: nat :: RefAt(v, t, d, k, s) && SizeOf(Table(v, d)[k]) == len
  }

  /** No chain of a well-formed volume holds a free cluster. */
  lemma FreeOutsideChains(v: Vol, t: Tree, c: nat, s: nat)
    requires Inv(v, t) && c < |v.fat| && v.fat[c] == 0 && s in t.chains
    ensures c !in t.chains[s]
  {
    if c in t.chains[s] {
      ChainInUse(v.fat, t.chains[s], c);
    }
  }

  ghost predicate Full(fat: seq<nat>) {
    forall c :: 2 <= c < |fat| ==> fat[c] != 0
  }

  // ---- formatted disks ----

  /** A freshly formatted disk: in every FAT copy the root directory is a chain of one cluster and all
      other clusters are free; the root directory is empty. Other sectors hold anything. */
  ghost predicate Formatted(g: Geometry, d: Disk, root: nat) {
    && Fits(g, d) && 2 <= root < g.N()
    && (forall i, c {:trigger Entry(g, d, i, c)} :: 0 <= i < g.fatCount && 0 <= c < g.N() ==>
          Entry(g, d, i, c) == if c == root then END else if c < 2 then Entry(g, d, 0, c) else 0)
    && forall j :: 0 <= j < g.ClusterSize() ==> Cluster(g, d, root)[j] == 0
  }

  ghost function RootOnly(root: nat): Tree {
    Tree(root, {root}, map[root := [root]])
  }

  /** A formatted disk holds a well-formed volume with nothing but its root directory. */
  lemma FormattedHolds(g: Geometry, d: Disk, root: nat) returns (v: Vol)
    requires Formatted(g, d, root)
    ensures Holds(g, d, v) && Inv(v, RootOnly(root)) && 2 <= root < |v.data| && |v.data[root]| == v.cs
    ensures forall i :: 0 <= i < v.cs ==> v.data[root][i] == 0
    ensures forall c :: c in FreeSet(v.fat) <==> 2 <= c < g.N() && c != root
  {
    hide Entry, Cluster, Shaped, Inv;
    v := DiskHolds(g, d);
    HeldShape(g, d, v);
    forall c | 0 <= c < g.N() ensures v.fat[c] == Entry(g, d, 0, c) {
    }
    assert v.data[root] == Cluster(g, d, root);
    EmptyRoot(v, root);
  }

  /** A volume read from a disk has the right sizes. */
  lemma HeldShape(g: Geometry, d: Disk, v: Vol)
    requires Holds(g, d, v)
    ensures Shaped(v)
  {
    hide Entry, Cluster;
    DataAboveFats(g, d);
    forall c | 2 <= c < g.N() ensures |v.data[c]| == v.cs {
      assert Cluster(g, d, c) == v.data[c];
    }
    SectorMultiple(g.spc);
  }

  lemma SectorMultiple(n: nat)
    requires n >= 1
    ensures n * 512 >= 64 && n * 512 % 32 == 0
  {
  }

  /** Nothing but an empty root directory: the invariant holds. */
  lemma EmptyRoot(v: Vol, root: nat)
    requires Shaped(v) && 2 <= root < |v.fat| && v.fat[root] == END && forall i :: 0 <= i < v.cs ==> v.data[root][i] == 0
    ensures Inv(v, RootOnly(root))
  {
    var t := RootOnly(root);
    assert IsChain(v.fat, t.chains[root]);
    ZeroSlots(v.data[root]);
    forall k | 0 <= k < |Table(v, root)| ensures SlotOk(Table(v, root)[k], t, v.cs) {
      assert IsUnused(Table(v, root)[k]);
    }
    assert SlotsOk(Table(v, root), t, v.cs);
    forall k: nat, x: nat ensures !DotAt(v, t, root, k, x) {
      assert k < |Table(v, root)| ==> IsUnused(Table(v, root)[k]);
    }
  }

  /** There is such a disk for every geometry that 32-bit sector numbers can address. */
  lemma FormattedExists(g: Geometry, root: nat) returns (d: Disk)
    requires g.Valid() && 2 <= root < g.N() && g.FirstData() + g.N() * g.spc <= WORD
    ensures Formatted(g, d, root)
  {
    d := ZeroDisk(g);
    var n := 0;
    while n < g.fatCount
      invariant 0 <= n <= g.fatCount && Fits(g, d)
      invariant forall i, c {:trigger Entry(g, d, i, c)} :: 0 <= i < g.fatCount && 0 <= c < g.N() ==>
                  Entry(g, d, i, c) == if c == root && i < n then END else 0
      invariant forall j :: 0 <= j < g.ClusterSize() ==> Cluster(g, d, root)[j] == 0
    {
      PutEntryKeepsClusters(g, d, n, root, END);
      var d' := PutEntry(g, d, n, root, END);
      forall i, c | 0 <= i < g.fatCount && 0 <= c < g.N()
        ensures Entry(g, d', i, c) == if i == n && c == root then END else Entry(g, d, i, c)
      {
        PutEntryReads(g, d, n, root, END, i, c);
      }
      d, n := d', n + 1;
    }
  }

  lemma ZeroDisk(g: Geometry) returns (d: Disk)
    requires g.Valid() && g.FirstData() + g.N() * g.spc <= WORD
    ensures Fits(g, d)
    ensures forall i, c {:trigger Entry(g, d, i, c)} :: 0 <= i < g.fatCount && 0 <= c < g.N() ==> Entry(g, d, i, c) == 0
    ensures forall c {:trigger Cluster(g, d, c)} :: 2 <= c < g.N() ==> forall j :: 0 <= j < g.ClusterSize() ==> Cluster(g, d, c)[j] == 0
  {
    var zero: Sector := seq(512, _ => 0);
    d := seq(g.FirstData() + g.N() * g.spc, _ => zero);
    forall c | 2 <= c < g.N() ensures g.Lba(c) + g.spc <= |d| {
      Stride(c - 2, g.N(), g.spc);
    }
    assert Fits(g, d);
    forall c | 2 <= c < g.N() ensures forall j :: 0 <= j < g.ClusterSize() ==> Cluster(g, d, c)[j] == 0 {
      LbaRange(g, d, c);
      FlattenZero(d[g.Lba(c)..g.Lba(c) + g.spc]);
    }
    forall i, c | 0 <= i < g.fatCount && 0 <= c < g.N() ensures Entry(g, d, i, c) == 0 {
      FatSectorRange(g, i, c);
    }
  }

  lemma {:induction false} FlattenZero(ss: seq<Sector>)
    requires forall i :: 0 <= i < |ss| ==> forall j :: 0 <= j < 512 ==> ss[i][j] == 0
    ensures forall j :: 0 <= j < |Flatten(ss)| ==> Flatten(ss)[j] == 0
  {
    if ss != [] {
      FlattenZero(ss[1..]);
    }
  }

  // ---- steps ----

  /** A free cluster, once marked as an end of chain, is a new chain that nothing refers to. */
  lemma AddChain(v: Vol, t: Tree, c: nat)
    requires Inv(v, t) && 2 <= c < |v.fat| && v.fat[c] == 0
    ensures c !in t.chains && c !in t.dirs
    ensures var v', t' := v.(fat := v.fat[c := END]), t.(chains := t.chains[c := [c]]);
            Inv(v', t') && Unreferenced(v', t', c)
  {
    var v', t' := v.(fat := v.fat[c := END]), t.(chains := t.chains[c := [c]]);
    forall s | s in t.chains
      ensures c !in t.chains[s] && c != s && IsChain(v'.fat, t.chains[s]) && t.chains[s][0] == s
    {
      FreeOutsideChains(v, t, c, s);
      FileChain(v, t, s);
      ChainFrame(v.fat, v'.fat, t.chains[s]);
    }
    assert IsChain(v'.fat, [c]);
    forall d | d in t.dirs
      ensures SlotsOk(Table(v', d), t', v.cs)
      ensures forall k :: 0 <= k < |Table(v', d)| && Refers(Table(v', d)[k]) ==> StartOf(Table(v', d)[k]) != c
    {
      DirInTable(v, t, d);
      assert forall k :: 0 <= k < |Table(v, d)| ==> SlotOk(Table(v, d)[k], t, v.cs);
    }
    assert forall s, d, k :: RefAt(v', t', d, k, s) ==> RefAt(v, t, d, k, s);
    DotsFewer(v, t, v', t');
  }

  /** Writing a slot that refers to no chain, or to a chain no other slot refers to. */
  lemma PutRef(v: Vol, t: Tree, d: nat, k: nat, e: Slot)
    requires Inv(v, t) && d in t.dirs && 2 <= d < |v.data| && |v.data[d]| == v.cs && v.cs % 32 == 0 && k < v.cs / 32
    requires e[0] != UNUSED && e[0] != DOT && SlotOk(e, t, v.cs)
    requires Live(Table(v, d)[k]) || IsFirstFree(Table(v, d), k)
    requires Refers(e) ==> forall d', k' :: RefAt(v, t, d', k', StartOf(e)) ==> d' == d && k' == k
    requires Refers(e) ==> forall k', x :: DotAt(v, t, StartOf(e), k', x) ==> x == 0 || x == StartOf(e) || x == d
    ensures Inv(v.(data := v.data[d := Overlay(v.data[d], 32 * k, e)]), t)
  {
    var b := Overlay(v.data[d], 32 * k, e);
    var v' := v.(data := v.data[d := b]);
    PutSlot(v.data[d], k, e);
    DirInTable(v, t, d);
    TailKept(Table(v, d), k, e);
    assert Table(v', d) == Table(v, d)[k := e];
    forall d' | d' in t.dirs && 2 <= d' < |v'.data|
      ensures SlotsOk(Table(v', d'), t, v'.cs)
    {
      DirInTable(v, t, d');
      assert d' != d ==> Table(v', d') == Table(v, d');
    }
    forall s, d1, k1 | RefAt(v', t, d1, k1, s) && !(d1 == d && k1 == k)
      ensures RefAt(v, t, d1, k1, s)
    {
    }
    forall d1, k1, x | DotAt(v', t, d1, k1, x) ensures DotAt(v, t, d1, k1, x) {
    }
  }

  /** Turning an unreferenced one-cluster chain into a directory with the given bytes. */
  lemma AddDir(v: Vol, t: Tree, c: nat, b: seq<byte>)
    requires Inv(v, t) && c in t.chains && t.chains[c] == [c] && c !in t.dirs && 2 <= c < |v.data|
    requires Unreferenced(v, t, c) && |b| == v.cs && v.cs % 32 == 0
    requires forall k :: 0 <= k < |Slots(b)| ==> !Refers(Slots(b)[k])
    requires SlotsOk(Slots(b), t.(dirs := t.dirs + {c}), v.cs)
    ensures var v', t' := v.(data := v.data[c := b]), t.(dirs := t.dirs + {c});
            Inv(v', t') && Unreferenced(v', t', c)
  {
    var v', t' := v.(data := v.data[c := b]), t.(dirs := t.dirs + {c});
    forall d | d in t'.dirs && 2 <= d < |v'.data|
      ensures SlotsOk(Table(v', d), t', v'.cs)
    {
      if d != c {
        DirInTable(v, t, d);
        forall k | 0 <= k < |Table(v, d)|
          ensures SlotOk(Table(v, d)[k], t', v.cs)
        {
          assert SlotOk(Table(v, d)[k], t, v.cs);
          if Refers(Table(v, d)[k]) {
            assert RefAt(v, t, d, k, StartOf(Table(v, d)[k]));
          }
        }
      }
    }
    assert forall s, d, k :: RefAt(v', t', d, k, s) ==> RefAt(v, t, d, k, s);
    assert forall d, k, x :: DotAt(v', t', d, k, x) && d != c ==> DotAt(v, t, d, k, x);
  }

  /** Deleting the slot of a file and clearing its chain. */
  lemma DropFile(v: Vol, t: Tree, d: nat, k: nat)
    requires Inv(v, t) && d in t.dirs && 2 <= d < |v.data| && |v.data[d]| == v.cs && v.cs % 32 == 0 && k < v.cs / 32
    requires Refers(Table(v, d)[k]) && StartOf(Table(v, d)[k]) !in t.dirs
    ensures var e := Table(v, d)[k];
            StartOf(e) in t.chains
            && Inv(v.(fat := Zeroed(v.fat, t.chains[StartOf(e)]), data := v.data[d := Overlay(v.data[d], 32 * k, Mark(e))]),
                   t.(chains := t.chains - {StartOf(e)}))
  {
    var e := Table(v, d)[k];
    var s := StartOf(e);
    DirInTable(v, t, d);
    assert SlotOk(e, t, v.cs);
    var ch := t.chains[s];
    var v1 := v.(data := v.data[d := Overlay(v.data[d], 32 * k, Mark(e))]);
    PutSlot(v.data[d], k, Mark(e));
    assert Table(v1, d) == Table(v, d)[k := Mark(e)];
    assert RefAt(v, t, d, k, s);
    PutRef(v, t, d, k, Mark(e));
    assert Unreferenced(v1, t, s) by {
      forall d1, k1 ensures !RefAt(v1, t, d1, k1, s) {
        if RefAt(v1, t, d1, k1, s) {
          assert d1 != d ==> Table(v1, d1) == Table(v, d1);
          assert !(d1 == d && k1 == k);
          assert RefAt(v, t, d1, k1, s);
        }
      }
    }
    DropChain(v1, t, s);
  }

  /** Clearing an unreferenced chain that is not a directory. */
  lemma DropChain(v: Vol, t: Tree, s: nat)
    requires Inv(v, t) && s in t.chains && s !in t.dirs && Unreferenced(v, t, s)
    ensures Inv(v.(fat := Zeroed(v.fat, t.chains[s])), t.(chains := t.chains - {s}))
  {
    var v', t' := v.(fat := Zeroed(v.fat, t.chains[s])), t.(chains := t.chains - {s});
    forall u | u in t'.chains ensures IsChain(v'.fat, t'.chains[u]) && t'.chains[u][0] == u {
      FileChain(v, t, u);
      assert forall c :: c in t.chains[u] ==> c !in t.chains[s];
      ChainFrame(v.fat, v'.fat, t.chains[u]);
    }
    forall d | d in t.dirs && 2 <= d < |v.data|
      ensures SlotsOk(Table(v', d), t', v.cs)
    {
      DirInTable(v, t, d);
      forall k | 0 <= k < |Table(v, d)| ensures SlotOk(Table(v, d)[k], t', v.cs) {
        assert SlotOk(Table(v, d)[k], t, v.cs);
        assert !RefAt(v, t, d, k, s);
      }
    }
    assert forall u, d, k :: RefAt(v', t', d, k, u) ==> RefAt(v, t, d, k, u);
    DotsFewer(v, t, v', t');
  }

  /** A file's chain `ch0` has become `ch`: extended only by clusters that were free, everything
      outside it untouched except perhaps the directory cluster `d`. */
  ghost predicate Extends(v0: Vol, ch0: seq<nat>, v: Vol, ch: seq<nat>, d: nat) {
    && |v.fat| == |v0.fat| && |v.data| == |v0.data| && v.cs == v0.cs
    && IsChain(v.fat, ch) && ch0 <= ch
    && (forall c :: 0 <= c < |v.fat| && c !in ch ==> v.fat[c] == v0.fat[c])
    && (forall c :: 0 <= c < |v.data| && c !in ch && c != d ==> v.data[c] == v0.data[c])
    && forall i :: |ch0| <= i < |ch| && ch[i] < |v0.fat| ==> v0.fat[ch[i]] == 0
  }

  /** The same, with nothing outside the chain touched: no cluster has the number after the last. */
  ghost predicate Grown(v0: Vol, ch0: seq<nat>, v: Vol, ch: seq<nat>) {
    Shaped(v) && Extends(v0, ch0, v, ch, |v0.data|)
  }

  /** A grown chain stays apart from every other chain. */
  lemma GrowApart(v0: Vol, t: Tree, s: nat, v: Vol, ch: seq<nat>, d: nat, u: nat)
    requires Inv(v0, t) && s in t.chains && Extends(v0, t.chains[s], v, ch, d) && u in t.chains && u != s
    ensures forall c :: c in t.chains[u] ==> c !in ch
    ensures IsChain(v.fat, t.chains[u])
  {
    FileChain(v0, t, u);
    forall c | c in t.chains[u] ensures c !in ch {
      ChainInUse(v0.fat, t.chains[u], c);
      assert c !in t.chains[s];
      forall i | 0 <= i < |ch| ensures ch[i] != c {
        assert i < |t.chains[s]| ==> t.chains[s][i] == ch[i];
      }
    }
    ChainFrame(v0.fat, v.fat, t.chains[u]);
  }

  lemma GrowSlots(v0: Vol, t: Tree, s: nat, v: Vol, ch: seq<nat>, d: nat)
    requires Inv(v0, t) && s in t.chains && s !in t.dirs && Grown(v0, t.chains[s], v, ch) && d in t.dirs
    ensures 2 <= d < |v.data| && v.data[d] == v0.data[d]
    ensures SlotsOk(Table(v, d), t.(chains := t.chains[s := ch]), v.cs)
  {
    DirInTable(v0, t, d);
    GrowApart(v0, t, s, v, ch, d, d);
    assert d in t.chains[d];
    SpanMonotone(|t.chains[s]|, |ch|, v.cs);
    forall k | 0 <= k < |Table(v0, d)|
      ensures SlotOk(Table(v0, d)[k], t.(chains := t.chains[s := ch]), v.cs)
    {
      assert SlotOk(Table(v0, d)[k], t, v.cs);
    }
  }

  /** Growing a file keeps the invariant. */
  lemma GrowFile(v0: Vol, t: Tree, s: nat, v: Vol, ch: seq<nat>)
    requires Inv(v0, t) && s in t.chains && s !in t.dirs && Grown(v0, t.chains[s], v, ch)
    ensures Inv(v, t.(chains := t.chains[s := ch]))
    ensures forall d :: d in t.dirs ==> 2 <= d < |v.data| && v.data[d] == v0.data[d]
    ensures forall d, k, u :: RefAt(v, t.(chains := t.chains[s := ch]), d, k, u) == RefAt(v0, t, d, k, u)
  {
    var t' := t.(chains := t.chains[s := ch]);
    assert ChainsOk(v.fat, t'.chains) by {
      forall u | u in t.chains && u != s
        ensures IsChain(v.fat, t.chains[u]) && t.chains[u][0] == u && forall c :: c in t.chains[u] ==> c !in ch
      {
        GrowApart(v0, t, s, v, ch, 0, u);
        FileChain(v0, t, u);
      }
      FileChain(v0, t, s);
      assert ch[0] == t.chains[s][0];
    }
    forall d | d in t.dirs
      ensures 2 <= d < |v.data| && v.data[d] == v0.data[d] && SlotsOk(Table(v, d), t', v.cs)
    {
      GrowSlots(v0, t, s, v, ch, d);
    }
    assert forall u, d, k :: RefAt(v, t', d, k, u) == RefAt(v0, t, d, k, u);
    assert forall u, d, k :: DotAt(v, t', d, k, u) ==> DotAt(v0, t, d, k, u);
    DotsFewer(v0, t, v, t');
  }

  /** The volume with a new size in one slot. */
  ghost function Resized(v: Vol, d: nat, k: nat, len: nat): Vol
    requires Shaped(v) && 2 <= d < |v.data| && v.cs % 32 == 0 && k < |Table(v, d)| && len < WORD
  {
    v.(data := v.data[d := Overlay(v.data[d], 32 * k, WithSize(Table(v, d)[k], len))])
  }

  /** Recording a new size in the slot of a file changes that slot only. */
  lemma Resize(v: Vol, t: Tree, d: nat, k: nat, s: nat, len: nat)
    requires Inv(v, t) && RefAt(v, t, d, k, s) && s !in t.dirs && v.cs % 32 == 0
    requires s in t.chains && len <= Span(|t.chains[s]|, v.cs) && len < WORD
    ensures Inv(Resized(v, d, k, len), t) && Names(Resized(v, d, k, len), t, d, s, len)
    ensures Table(Resized(v, d, k, len), d) == Table(v, d)[k := WithSize(Table(v, d)[k], len)]
  {
    DirInTable(v, t, d);
    var e := Table(v, d)[k];
    assert SlotOk(e, t, v.cs);
    PutSlot(v.data[d], k, WithSize(e, len));
    PutRef(v, t, d, k, WithSize(e, len));
    assert RefAt(Resized(v, d, k, len), t, d, k, s);
  }

  /** The table of directory `d` differs only in that the slot of the chain from `s`, if `d` has one,
      records the size `len`. */
  ghost predicate TableAfter(v0: Vol, t0: Tree, v: Vol, d: nat, s: nat, len: nat) {
    && Shaped(v0) && Shaped(v) && 2 <= d < |v0.data| && d < |v.data| && len < WORD
    && |Table(v, d)| == |Table(v0, d)|
    && forall j {:trigger RefAt(v0, t0, d, j, s)} :: 0 <= j < |Table(v, d)| ==>
         Table(v, d)[j] == if RefAt(v0, t0, d, j, s) then WithSize(Table(v0, d)[j], len) else Table(v0, d)[j]
  }

  /** The search for the file's slot fails: then the directory has none. */
  lemma NoSlot(v0: Vol, t0: Tree, v1: Vol, ch: seq<nat>, d: nat, s: nat, len: nat)
    requires Inv(v0, t0) && s in t0.chains && s !in t0.dirs && Grown(v0, t0.chains[s], v1, ch) && d in t0.dirs
    requires len < WORD && 2 <= d < |v1.data|
    requires forall j :: 0 <= j < |Table(v1, d)| ==> !(Live(Table(v1, d)[j]) && StartOf(Table(v1, d)[j]) == s)
    ensures TableAfter(v0, t0, v1, d, s, len) && forall len0 :: !Names(v0, t0, d, s, len0)
    ensures Extends(v0, t0.chains[s], v1, ch, d)
  {
    GrowSlots(v0, t0, s, v1, ch, d);
    assert Table(v1, d) == Table(v0, d);
  }

  /** The search finds the file's slot, and the new size is written there. */
  lemma FoundSlot(v0: Vol, t0: Tree, v1: Vol, ch: seq<nat>, d: nat, s: nat, len: nat, k: nat)
    requires Inv(v0, t0) && s in t0.chains && s !in t0.dirs && Grown(v0, t0.chains[s], v1, ch) && d in t0.dirs
    requires len <= Span(|ch|, v1.cs) && len < WORD && v1.cs % 32 == 0
    requires 2 <= d < |v1.data| && k < |Table(v1, d)| && Live(Table(v1, d)[k]) && StartOf(Table(v1, d)[k]) == s
    ensures var v, t1 := Resized(v1, d, k, len), t0.(chains := t0.chains[s := ch]);
            Inv(v, t1) && Names(v, t1, d, s, len) && TableAfter(v0, t0, v, d, s, len)
  {
    var t1 := t0.(chains := t0.chains[s := ch]);
    GrowFile(v0, t0, s, v1, ch);
    LiveStartIsRef(v1, t1, d, k, s);
    Resize(v1, t1, d, k, s, len);
    assert Table(v1, d) == Table(v0, d);
  }

  lemma FoundExtends(v0: Vol, t0: Tree, v1: Vol, ch: seq<nat>, d: nat, s: nat, len: nat, k: nat)
    requires Inv(v0, t0) && s in t0.chains && s !in t0.dirs && Grown(v0, t0.chains[s], v1, ch) && d in t0.dirs
    requires len < WORD && v1.cs % 32 == 0 && 2 <= d < |v1.data| && k < |Table(v1, d)|
    ensures var v := Resized(v1, d, k, len);
            Extends(v0, t0.chains[s], v, ch, d) && InTable(ch, |v.data|) && Raw(v.data, ch) == Raw(v1.data, ch)
  {
    GrowApart(v0, t0, s, v1, ch, d, d);
    assert d in t0.chains[d];
    RawFrame(v1.data, Resized(v1, d, k, len).data, ch);
  }

  // ---- what a write means ----

  /** `raw` is `raw0`, possibly extended, with the first `n` bytes of `buf` laid over it at `off`. */
  ghost predicate Written(raw0: seq<byte>, raw: seq<byte>, off: nat, buf: seq<byte>, n: nat) {
    && |raw0| <= |raw| && n <= |buf| && (n > 0 ==> off + n <= |raw|)
    && (forall j :: 0 <= j < |raw| && off <= j < off + n ==> raw[j] == buf[j - off])
    && forall j :: 0 <= j < |raw0| && !(off <= j < off + n) ==> raw[j] == raw0[j]
  }

  /** The length of a file after `n` bytes have been written at `off`: the source adds in 32 bits. */
  function NewLength(len0: nat, off: nat, n: nat): nat {
    if n > 0 && (off + n) % WORD > len0 then (off + n) % WORD else len0
  }

  /** A chain grows only as far as the bytes to be written reach. */
  ghost predicate AsNeeded(ch0: seq<nat>, ch: seq<nat>, cs: nat, off: nat, buf: seq<byte>) {
    |ch| > |ch0| ==> Span(|ch| - 1, cs) < off + |buf|
  }

  /** A write of `n` bytes of `buf` at `off` into the file that starts at `s`: if directory `d` lists it, its
      slot records `size` now. */
  ghost predicate StoredAs(v0: Vol, t0: Tree, v: Vol, t: Tree, d: nat, s: nat, size: nat,
                           off: nat, buf: seq<byte>, n: nat)
  {
    && s in t0.chains && s in t.chains && t == t0.(chains := t0.chains[s := t.chains[s]])
    && Extends(v0, t0.chains[s], v, t.chains[s], d)
    && TableAfter(v0, t0, v, d, s, size)
    && InTable(t0.chains[s], |v0.data|) && InTable(t.chains[s], |v.data|)
    && Written(Raw(v0.data, t0.chains[s]), Raw(v.data, t.chains[s]), off, buf, n)
    && (n < |buf| ==> Full(v.fat) && Span(|t.chains[s]|, v.cs) <= off + n)
    && AsNeeded(t0.chains[s], t.chains[s], v.cs, off, buf)
  }

  /** The same through a node that knew the file's length: it was `len0` and is now `len`. */
  ghost predicate Stored(v0: Vol, t0: Tree, v: Vol, t: Tree, d: nat, s: nat, len0: nat, len: nat,
                         off: nat, buf: seq<byte>, n: nat)
  {
    StoredAs(v0, t0, v, t, d, s, len, off, buf, n) && len == NewLength(len0, off, n)
  }

  /** The size that a slot records after a write through a node that took the length for `len0` when the
      slot said `size`. */
  function Recorded(size: nat, len0: nat, off: nat, n: nat): nat {
    if NewLength(len0, off, n) != len0 then NewLength(len0, off, n) else size
  }

  /** When that is the size it should be: with a node whose length is out of date, the write must not end
      between the two lengths. */
  lemma StaleSize(size: nat, len0: nat, off: nat, n: nat)
    requires off + n < WORD
    ensures Recorded(size, len0, off, n) == NewLength(size, off, n) <==>
            n == 0 || (if off + n > len0 then off + n >= size else off + n <= size)
  {
  }

  /** Two nodes of an empty file, 100 bytes through the one and 10 through the other: the entry says 10. */
  lemma StaleShrinks()
    ensures Recorded(NewLength(0, 0, 100), 0, 0, 10) == 10 && NewLength(NewLength(0, 0, 100), 0, 10) == 100
  {
  }

  /** The part of a write that precedes the size update: the chain has become `ch`. */
  ghost predicate Laid(v0: Vol, ch0: seq<nat>, v: Vol, ch: seq<nat>, off: nat, buf: seq<byte>, n: nat) {
    && Grown(v0, ch0, v, ch) && InTable(ch0, |v0.data|)
    && Written(Raw(v0.data, ch0), Raw(v.data, ch), off, buf, n)
    && (n < |buf| ==> Full(v.fat) && Span(|ch|, v.cs) <= off + n)
    && (n > 0 ==> off + n <= Span(|ch|, v.cs))
    && AsNeeded(ch0, ch, v.cs, off, buf)
  }

  /** What a write does through any node with a first cluster, be it a directory's: the bytes are laid over
      the chain from `s`, and when the node's length changes, the first live slot of `d` that starts
      at `s` gets it. */
  ghost predicate RawStored(v0: Vol, ch0: seq<nat>, v: Vol, d: nat, s: nat, len0: nat, len: nat,
                            off: nat, buf: seq<byte>, n: nat)
  {
    exists v1: Vol, ch: seq<nat>, k: nat :: RawSteps(v0, ch0, v1, ch, k, v, d, s, len0, len, off, buf, n)
  }

  ghost predicate RawSteps(v0: Vol, ch0: seq<nat>, v1: Vol, ch: seq<nat>, k: nat, v: Vol, d: nat, s: nat, len0: nat, len: nat,
                           off: nat, buf: seq<byte>, n: nat)
  {
    && Laid(v0, ch0, v1, ch, off, buf, n) && len == NewLength(len0, off, n)
    && if len == len0 then v == v1 else Updated(v1, v, d, s, len, k)
  }

  ghost function WithGrown(t: Tree, s: nat, ch: seq<nat>): Tree {
    t.(chains := t.chains[s := ch])
  }

  /** A write that does not change the node's length leaves every slot. */
  lemma StoredKept(v0: Vol, t0: Tree, v: Vol, ch: seq<nat>, d: nat, s: nat, size: nat, off: nat, buf: seq<byte>, n: nat)
    requires Inv(v0, t0) && s in t0.chains && s !in t0.dirs && d in t0.dirs && Laid(v0, t0.chains[s], v, ch, off, buf, n)
    requires Names(v0, t0, d, s, size) || (Unreferenced(v0, t0, s) && size < WORD)
    ensures Inv(v, WithGrown(t0, s, ch)) && StoredAs(v0, t0, v, WithGrown(t0, s, ch), d, s, size, off, buf, n)
    ensures Names(v0, t0, d, s, size) ==> Names(v, WithGrown(t0, s, ch), d, s, size)
  {
    hide IsChain, Written, Raw, Span;
    GrowFile(v0, t0, s, v, ch);
    DirInTable(v0, t0, d);
    assert Table(v, d) == Table(v0, d);
    LaidInside(v0, t0.chains[s], v, ch, off, buf, n);
    if Names(v0, t0, d, s, size) {
      var k: nat :| RefAt(v0, t0, d, k, s) && SizeOf(Table(v0, d)[k]) == size;
      WithSameSize(Table(v0, d)[k]);
      assert RefAt(v, WithGrown(t0, s, ch), d, k, s);
    }
  }

  lemma LaidInside(v0: Vol, ch0: seq<nat>, v: Vol, ch: seq<nat>, off: nat, buf: seq<byte>, n: nat)
    requires Laid(v0, ch0, v, ch, off, buf, n)
    ensures InTable(ch, |v.data|)
  {
  }

  /** A file is listed with one size. */
  lemma NamesOnce(v: Vol, t: Tree, d: nat, s: nat, a: nat, b: nat)
    requires Inv(v, t) && Names(v, t, d, s, a) && Names(v, t, d, s, b)
    ensures a == b && a < WORD
  {
    var k: nat :| RefAt(v, t, d, k, s) && SizeOf(Table(v, d)[k]) == a;
    WithSameSize(Table(v, d)[k]);
  }

  /** A file's content as reads return it: the first `len` bytes of its clusters. */
  ghost function Content(v: Vol, ch: seq<nat>, len: nat): seq<byte>
    requires IsChain(v.fat, ch) && |v.fat| == |v.data|
  {
    var raw := Raw(v.data, ch);
    if len <= |raw| then raw[..len] else raw
  }

  /** What a read returns of a file of `length` bytes in the clusters `raw`: the range asked for, cut at
      the length; but when `offset + size` does not fit in 32 bits the cut is missed, and everything to the
      end of the last cluster is returned. */
  ghost function ReadRange(raw: seq<byte>, length: nat, offset: nat, size: nat): seq<byte>
    requires length <= |raw|
  {
    if offset >= length || size == 0 then []
    else if offset + size < WORD then raw[offset..Min(offset + size, length)]
    else raw[offset..Min(offset + size, |raw|)]
  }

  lemma ReadCases(raw: seq<byte>, length: nat, offset: nat, size: nat)
    requires length <= |raw| && length < WORD && offset < WORD && size < WORD
    ensures ReadRange(raw, length, offset, size) ==
            if length == 0 || size == 0 || offset >= length then []
            else if (offset + size) % WORD > length then raw[offset..length]
            else raw[offset..Min(offset + size, |raw|)]
  {
  }

  /** The range of the content that a caller expects. */
  ghost function Range(content: seq<byte>, offset: nat, size: nat): seq<byte> {
    if offset >= |content| then [] else content[offset..Min(offset + size, |content|)]
  }

  /** A read returns the range of the content asked for if and only if it asks for nothing, or the sum
      fits in 32 bits, or the content fills its clusters. */
  lemma ReadIsContent(raw: seq<byte>, length: nat, offset: nat, size: nat)
    requires length <= |raw| && length < WORD
    ensures ReadRange(raw, length, offset, size) == Range(raw[..length], offset, size) <==>
            offset >= length || size == 0 || offset + size < WORD || length == |raw|
  {
    if offset < length && size > 0 {
      var r := Range(raw[..length], offset, size);
      if offset + size < WORD || length == |raw| {
        assert r == raw[offset..Min(offset + size, length)];
      } else {
        assert |r| == length - offset < |ReadRange(raw, length, offset, size)|;
      }
    }
  }

  /** Such a read: all but the first byte of a ten-byte file, asked for with the largest size. */
  lemma ReadPastEnd(raw: seq<byte>)
    requires 10 < |raw| <= WORD
    ensures ReadRange(raw, 10, 1, 0xFFFF_FFFF) == raw[1..] && |Range(raw[..10], 1, 0xFFFF_FFFF)| == 9
  {
  }

  /** `c` with `b` laid over it at `off`, growing if `b` reaches past its end. */
  ghost function Spliced(c: seq<byte>, off: nat, b: seq<byte>): seq<byte> {
    (if off <= |c| then c[..off] else c) + b + if off + |b| < |c| then c[off + |b|..] else []
  }

  /** The file's content after a write inside it or at its end is the old content overlaid with the
      bytes written if and only if these end below 2^32: the length is kept in 32 bits. */
  lemma StoredContent(v0: Vol, t0: Tree, v: Vol, t: Tree, d: nat, s: nat, len0: nat, len: nat,
                      off: nat, buf: seq<byte>, n: nat)
    requires Inv(v0, t0) && Inv(v, t) && Stored(v0, t0, v, t, d, s, len0, len, off, buf, n)
    requires s in t0.chains && off <= len0 <= Span(|t0.chains[s]|, v0.cs) && len0 < WORD
    ensures n <= |buf| && s in t.chains && IsChain(v0.fat, t0.chains[s]) && IsChain(v.fat, t.chains[s])
    ensures |Content(v0, t0.chains[s], len0)| == len0 && |Content(v, t.chains[s], len)| == len
    ensures Content(v, t.chains[s], len) == Spliced(Content(v0, t0.chains[s], len0), off, buf[..n]) <==> off + n < WORD
  {
    hide Extends, TableAfter, Raw, Inv, IsChain, Span;
    FileChain(v0, t0, s);
    FileChain(v, t, s);
    ShapedFacts(v0);
    RawLength(v0.data, t0.chains[s], v0.cs);
    var raw0, raw := Raw(v0.data, t0.chains[s]), Raw(v.data, t.chains[s]);
    SplicedWritten(raw0, raw, off, buf, n, len0);
  }

  lemma SplicedWritten(raw0: seq<byte>, raw: seq<byte>, off: nat, buf: seq<byte>, n: nat, len0: nat)
    requires Written(raw0, raw, off, buf, n) && off <= len0 <= |raw0|
    ensures var len := if n > 0 && off + n > len0 then off + n else len0;
            len <= |raw| && raw[..len] == Spliced(raw0[..len0], off, buf[..n])
            && |Spliced(raw0[..len0], off, buf[..n])| == len
  {
    var len := if n > 0 && off + n > len0 then off + n else len0;
    var w := Spliced(raw0[..len0], off, buf[..n]);
    assert |w| == len;
    forall j | 0 <= j < len ensures raw[..len][j] == w[j] {
      if off + n <= j {
        assert w[j] == raw0[..len0][j];
      }
    }
  }

  /** Every other chain keeps its clusters and its bytes, except the directory that lists the file. */
  lemma StoredOthers(v0: Vol, t0: Tree, v: Vol, t: Tree, d: nat, s: nat, len0: nat, len: nat,
                     off: nat, buf: seq<byte>, n: nat, u: nat)
    requires Inv(v0, t0) && d in t0.dirs && Stored(v0, t0, v, t, d, s, len0, len, off, buf, n)
    requires u in t0.chains && u != s && u != d
    ensures u in t.chains && t.chains[u] == t0.chains[u]
    ensures IsChain(v0.fat, t0.chains[u]) && IsChain(v.fat, t.chains[u])
    ensures forall m: nat :: Content(v, t.chains[u], m) == Content(v0, t0.chains[u], m)
  {
    FileChain(v0, t0, u);
    GrowApart(v0, t0, s, v, t.chains[s], d, u);
    assert d in t0.chains[d];
    RawFrame(v0.data, v.data, t0.chains[u]);
  }

  /** The free clusters after a write: those before it, without the clusters the file has gained. */
  lemma StoredFree(v0: Vol, t0: Tree, v: Vol, t: Tree, d: nat, s: nat, len0: nat, len: nat,
                   off: nat, buf: seq<byte>, n: nat)
    requires Inv(v0, t0) && Stored(v0, t0, v, t, d, s, len0, len, off, buf, n)
    ensures FreeSet(v.fat) == FreeSet(v0.fat) - (set c | c in t.chains[s])
    ensures FreeSet(v0.fat) == FreeSet(v.fat) + (set c | c in t.chains[s] && c !in t0.chains[s])
  {
    FileChain(v0, t0, s);
    var ch0, ch := t0.chains[s], t.chains[s];
    forall c | c in ch ensures 2 <= c < |v.fat| && v.fat[c] != 0 {
      ChainInUse(v.fat, ch, c);
    }
    forall c | c in ch0 ensures 2 <= c < |v0.fat| && v0.fat[c] != 0 {
      ChainInUse(v0.fat, ch0, c);
    }
    forall c | c in ch && c !in ch0 ensures v0.fat[c] == 0 {
      assert forall i :: 0 <= i < |ch0| ==> ch0[i] == ch[i] && ch[i] in ch0;
    }
  }

  // ---- create, mkdir and unlink ----

  /** The volume after cluster `c` has been taken and slot `k` of directory `d` filled with `e`. */
  ghost function WithEntry(v: Vol, d: nat, k: nat, c: nat, e: Slot): Vol
    requires Shaped(v) && 2 <= c < |v.fat| && 2 <= d < |v.data| && v.cs % 32 == 0 && k < v.cs / 32
  {
    v.(fat := v.fat[c := END], data := v.data[d := Overlay(v.data[d], 32 * k, e)])
  }

  ghost function WithChain(t: Tree, c: nat): Tree {
    t.(chains := t.chains[c := [c]])
  }

  /** Creating an entry for a new file keeps the invariant. */
  lemma AddFile(v: Vol, t: Tree, d: nat, k: nat, c: nat, e: Slot)
    requires Inv(v, t) && d in t.dirs && 2 <= c < |v.fat| && v.fat[c] == 0
    requires 2 <= d < |v.data| && v.cs % 32 == 0 && k < v.cs / 32 && IsFirstFree(Table(v, d), k)
    requires e[0] != UNUSED && e[0] != DOT && StartOf(e) == c && SizeOf(e) == 0 && !IsDirAttr(AttrOf(e))
    ensures Inv(WithEntry(v, d, k, c, e), WithChain(t, c)) && c !in t.chains && c !in t.dirs
    ensures Table(WithEntry(v, d, k, c, e), d) == Table(v, d)[k := e]
    ensures Live(e) ==> Names(WithEntry(v, d, k, c, e), WithChain(t, c), d, c, 0)
  {
    AddChain(v, t, c);
    var v1, t1 := v.(fat := v.fat[c := END]), WithChain(t, c);
    assert Table(v1, d) == Table(v, d);
    assert SlotOk(e, t1, v.cs);
    PutRef(v1, t1, d, k, e);
    PutSlot(v.data[d], k, e);
    if Live(e) {
      assert RefAt(WithEntry(v, d, k, c, e), t1, d, k, c);
    }
  }

  const DOT_NAME: Name := [DOT, 0x20, 0x20, 0x20, 0x20, 0x20, 0x20, 0x20, 0x20, 0x20, 0x20]
  const DOTDOT_NAME: Name := [DOT, DOT, 0x20, 0x20, 0x20, 0x20, 0x20, 0x20, 0x20, 0x20, 0x20]

  /** The cluster of a new directory: its own dot entries and unused slots. */
  function FreshDir(c: nat, parent: nat, cs: nat): (b: seq<byte>)
    requires c < WORD && parent < WORD && cs >= 64
    ensures |b| == cs
  {
    Overlay(Overlay(seq(cs, _ => 0), 0, MakeSlot(DOT_NAME, 0x10, c, 0)), 32, MakeSlot(DOTDOT_NAME, 0x10, parent, 0))
  }

  lemma FreshDirSlots(c: nat, parent: nat, cs: nat)
    requires c < WORD && parent < WORD && cs >= 64 && cs % 32 == 0
    ensures var table := Slots(FreshDir(c, parent, cs));
            && |table| >= 2 && table[0][0] == DOT && table[1][0] == DOT
            && NameOf(table[0]) == DOT_NAME && NameOf(table[1]) == DOTDOT_NAME
            && AttrOf(table[0]) == AttrOf(table[1]) == 0x10 && SizeOf(table[0]) == SizeOf(table[1]) == 0
            && StartOf(table[0]) == c && StartOf(table[1]) == parent
            && forall k :: 2 <= k < |table| ==> IsUnused(table[k])
  {
    var z: seq<byte> := seq(cs, _ => 0);
    var dot, dotdot := MakeSlot(DOT_NAME, 0x10, c, 0), MakeSlot(DOTDOT_NAME, 0x10, parent, 0);
    ZeroSlots(z);
    PutSlot(z, 0, dot);
    PutSlot(Overlay(z, 0, dot), 1, dotdot);
  }

  /** Creating a directory: a new entry, and a new cluster with the dot entries. */
  lemma AddSubdir(v: Vol, t: Tree, d: nat, k: nat, c: nat, e: Slot)
    requires Inv(v, t) && d in t.dirs && 2 <= c < |v.fat| && v.fat[c] == 0
    requires 2 <= d < |v.data| && v.cs % 32 == 0 && v.cs >= 64 && k < v.cs / 32 && IsFirstFree(Table(v, d), k)
    requires e[0] != UNUSED && e[0] != DOT && StartOf(e) == c && SizeOf(e) == 0 && IsDirAttr(AttrOf(e))
    ensures c !in t.chains && c != d
    ensures var v', t' := WithEntry(v, d, k, c, e), WithChain(t, c);
            && Inv(v'.(data := v'.data[c := FreshDir(c, d, v.cs)]), t'.(dirs := t'.dirs + {c}))
            && Table(v'.(data := v'.data[c := FreshDir(c, d, v.cs)]), d) == Table(v, d)[k := e]
  {
    hide Inv, FreshDir, Slots, IsChain, Overlay;
    DirInTable(v, t, d);
    RootIsDir(v, t);
    AddChain(v, t, c);
    var v1, t1 := v.(fat := v.fat[c := END]), WithChain(t, c);
    var b := FreshDir(c, d, v.cs);
    FreshDirSlots(c, d, v.cs);
    var t2, v2 := t1.(dirs := t1.dirs + {c}), v1.(data := v1.data[c := b]);
    FreshSlotsOk(Slots(b), t2, v.cs);
    AddDir(v1, t1, c, b);
    assert Table(v2, d) == Table(v, d);
    FreshDots(v2, t2, c, d);
    assert SlotOk(e, t2, v.cs);
    PutRef(v2, t2, d, k, e);
    PutSlot(v.data[d], k, e);
    var v3 := WithEntry(v, d, k, c, e);
    assert v3.(data := v3.data[c := b]) == v2.(data := v2.data[d := Overlay(v2.data[d], 32 * k, e)]);
  }

  lemma FreshDots(v: Vol, t: Tree, c: nat, d: nat)
    requires Shaped(v) && 2 <= c < |v.data| && d < |v.data| && v.data[c] == FreshDir(c, d, v.cs)
    ensures forall k, x :: DotAt(v, t, c, k, x) ==> x == c || x == d
  {
    hide FreshDir, Slots;
    FreshDirSlots(c, d, v.cs);
    forall k: nat, x: nat | DotAt(v, t, c, k, x) ensures x == c || x == d {
      assert k == 0 || k == 1 || IsUnused(Table(v, c)[k]);
    }
  }

  lemma FreshSlotsOk(table: seq<Slot>, t: Tree, cs: nat)
    requires |table| >= 2 && table[0][0] == DOT && table[1][0] == DOT
    requires StartOf(table[0]) in t.dirs && StartOf(table[1]) in t.dirs
    requires forall k :: 2 <= k < |table| ==> IsUnused(table[k])
    ensures SlotsOk(table, t, cs) && forall k :: 0 <= k < |table| ==> !Refers(table[k])
  {
    forall k | 0 <= k < |table| ensures SlotOk(table[k], t, cs) && !Refers(table[k]) {
      assert k == 0 || k == 1 || IsUnused(table[k]);
    }
  }

  /** A write into a chain that no slot refers to changes no directory. */
  lemma StoredUnlisted(v0: Vol, t0: Tree, v: Vol, t: Tree, d: nat, s: nat, len0: nat, len: nat,
                       off: nat, buf: seq<byte>, n: nat, dir: nat)
    requires Inv(v0, t0) && s !in t0.dirs && d in t0.dirs && dir in t0.dirs && Unreferenced(v0, t0, s)
    requires Stored(v0, t0, v, t, d, s, len0, len, off, buf, n)
    ensures 2 <= dir < |v.data| && dir < |v0.data| && Table(v, dir) == Table(v0, dir)
  {
    DirInTable(v0, t0, dir);
    if dir == d {
      forall j | 0 <= j < |Table(v, d)| ensures Table(v, d)[j] == Table(v0, d)[j] {
        assert !RefAt(v0, t0, d, j, s);
      }
    } else {
      GrowApart(v0, t0, s, v, t.chains[s], d, dir);
      assert dir in t0.chains[dir];
    }
  }

  /** A live slot of a well-formed directory, found by name. */
  lemma FoundNode(v: Vol, t: Tree, d: nat, k: nat)
    requires Inv(v, t) && d in t.dirs && 2 <= d < |v.data| && k < |Table(v, d)|
    requires Live(Table(v, d)[k]) && Table(v, d)[k][0] != DOT
    ensures var e := Table(v, d)[k];
            if StartOf(e) == 0 then !IsDirAttr(AttrOf(e))
            else StartOf(e) in t.chains && (IsDirAttr(AttrOf(e)) <==> StartOf(e) in t.dirs) && Names(v, t, d, StartOf(e), SizeOf(e))
  {
    var e := Table(v, d)[k];
    assert SlotOk(e, t, v.cs);
    if StartOf(e) != 0 {
      assert RefAt(v, t, d, k, StartOf(e));
    }
  }

  /** Up along dot entries from `p[0]` to the last directory of `p`. */
  ghost predicate IsClimb(v: Vol, t: Tree, p: seq<nat>)
    requires Shaped(v)
  {
    && |p| > 0
    && forall i {:trigger ClimbStep(v, t, p, i)} :: 0 <= i < |p| - 1 ==> ClimbStep(v, t, p, i)
  }

  ghost predicate ClimbStep(v: Vol, t: Tree, p: seq<nat>, i: nat)
    requires Shaped(v)
  {
    i + 1 < |p| && p[i + 1] != p[i] && p[i + 1] != 0 && DotTo(v, t, p[i], p[i + 1])
  }

  ghost predicate DotTo(v: Vol, t: Tree, y: nat, x: nat)
    requires Shaped(v)
  {
    exists k :: DotAt(v, t, y, k, x)
  }

  ghost predicate Climbs(v: Vol, t: Tree, y: nat, s: nat)
    requires Shaped(v)
  {
    exists p :: IsClimb(v, t, p) && p[0] == y && p[|p| - 1] == s
  }

  /** Directory `s` and all directories that lead up to it. */
  ghost function Subtree(v: Vol, t: Tree, s: nat): set<nat>
    requires Shaped(v)
  {
    set y | y in t.dirs && Climbs(v, t, y, s)
  }

  lemma ClimbSelf(v: Vol, t: Tree, s: nat)
    requires Shaped(v)
    ensures Climbs(v, t, s, s)
  {
    assert IsClimb(v, t, [s]) && [s][0] == s;
  }

  /** What leads into the subtree belongs to it. */
  lemma ClimbMore(v: Vol, t: Tree, y: nat, k: nat, x: nat, s: nat)
    requires Shaped(v) && DotAt(v, t, y, k, x) && x != y && x != 0 && Climbs(v, t, x, s)
    ensures Climbs(v, t, y, s)
  {
    var p :| IsClimb(v, t, p) && p[0] == x && p[|p| - 1] == s;
    var q := [y] + p;
    forall i | 0 <= i < |q| - 1 ensures ClimbStep(v, t, q, i) {
      assert i > 0 ==> ClimbStep(v, t, p, i - 1);
      assert i == 0 ==> DotTo(v, t, q[0], q[1]);
    }
    assert IsClimb(v, t, q) && q[0] == y && q[|q| - 1] == s;
  }

  /** A directory of the subtree other than its top leads to another one of it. */
  lemma ClimbFirst(v: Vol, t: Tree, y: nat, s: nat) returns (k: nat, x: nat)
    requires Shaped(v) && Climbs(v, t, y, s) && y != s
    ensures DotAt(v, t, y, k, x) && x != y && x != 0 && Climbs(v, t, x, s)
  {
    var p :| IsClimb(v, t, p) && p[0] == y && p[|p| - 1] == s;
    assert ClimbStep(v, t, p, 0);
    x := p[1];
    k :| DotAt(v, t, p[0], k, x);
    var q := p[1..];
    forall i | 0 <= i < |q| - 1 ensures ClimbStep(v, t, q, i) {
      assert ClimbStep(v, t, p, i + 1);
    }
    assert IsClimb(v, t, q) && q[0] == x && q[|q| - 1] == s;
  }

  /** The volume and the chains after unlink has deleted slot `k` of directory `d`. With a directory its
      whole subtree is out of reach and no longer counts as directories; only the directory's own
      cluster is freed. */
  ghost function Unlinked(v: Vol, t: Tree, d: nat, k: nat): (Vol, Tree)
    requires Shaped(v) && 2 <= d < |v.data| && v.cs % 32 == 0 && k < |Table(v, d)|
  {
    var e := Table(v, d)[k];
    var v' := v.(data := v.data[d := Overlay(v.data[d], 32 * k, Mark(e))]);
    var dirs := if IsDirAttr(AttrOf(e)) then t.dirs - Subtree(v, t, StartOf(e)) else t.dirs;
    if StartOf(e) in t.chains then
      (v'.(fat := Zeroed(v.fat, t.chains[StartOf(e)])), t.(chains := t.chains - {StartOf(e)}, dirs := dirs))
    else (v', t)
  }

  lemma UnlinkFile(v: Vol, t: Tree, d: nat, k: nat)
    requires Inv(v, t) && d in t.dirs && 2 <= d < |v.data| && v.cs % 32 == 0 && k < |Table(v, d)|
    requires var e := Table(v, d)[k]; Live(e) && e[0] != DOT && !IsDirAttr(AttrOf(e))
    ensures var (v', t') := Unlinked(v, t, d, k);
            Inv(v', t') && Table(v', d) == Table(v, d)[k := Mark(Table(v, d)[k])]
    ensures var e := Table(v, d)[k]; StartOf(e) != 0 <==> StartOf(e) in t.chains
  {
    DirInTable(v, t, d);
    var e := Table(v, d)[k];
    PutSlot(v.data[d], k, Mark(e));
    assert SlotOk(e, t, v.cs);
    if StartOf(e) != 0 {
      DropFile(v, t, d, k);
    } else {
      if 0 in t.chains { FileChain(v, t, 0); }
      PutRef(v, t, d, k, Mark(e));
    }
  }

  /** Unlinking a directory, empty or not, keeps the invariant. */
  lemma UnlinkDir(v: Vol, t: Tree, d: nat, k: nat)
    requires Inv(v, t) && d in t.dirs && 2 <= d < |v.data| && v.cs % 32 == 0 && k < |Table(v, d)|
    requires var e := Table(v, d)[k]; Refers(e) && IsDirAttr(AttrOf(e))
    ensures var (v', t') := Unlinked(v, t, d, k);
            Inv(v', t') && Table(v', d) == Table(v, d)[k := Mark(Table(v, d)[k])]
    ensures var s := StartOf(Table(v, d)[k]); s in t.chains && s in t.dirs && s != t.root && t.chains[s] == [s]
  {
    hide IsChain, ChainsOk, Subtree;
    var e := Table(v, d)[k];
    var s := StartOf(e);
    DirInTable(v, t, d);
    assert SlotOk(e, t, v.cs);
    var v1 := v.(data := v.data[d := Overlay(v.data[d], 32 * k, Mark(e))]);
    PutSlot(v.data[d], k, Mark(e));
    assert Table(v1, d) == Table(v, d)[k := Mark(e)];
    assert RefAt(v, t, d, k, s);
    PutRef(v, t, d, k, Mark(e));
    forall d1: nat, k1: nat ensures !RefAt(v1, t, d1, k1, s) {
      MarkedElsewhere(v, t, v1, d, k, d1, k1, s);
    }
    MarkedSubtree(v, t, v1, d, k, s);
    DropDirs(v1, t, s);
  }

  lemma MarkedElsewhere(v: Vol, t: Tree, v1: Vol, d: nat, k: nat, d1: nat, k1: nat, s: nat)
    requires Shaped(v) && Shaped(v1) && RefsUnique(v, t) && RefAt(v, t, d, k, s)
    requires |v1.data| == |v.data| && Table(v1, d) == Table(v, d)[k := Mark(Table(v, d)[k])]
    requires forall c :: 0 <= c < |v.data| && c != d ==> v1.data[c] == v.data[c]
    ensures !RefAt(v1, t, d1, k1, s)
  {
    if d1 != d && 2 <= d1 < |v.data| {
      assert Table(v1, d1) == Table(v, d1);
    }
    assert RefAt(v1, t, d1, k1, s) ==> RefAt(v, t, d1, k1, s);
  }

  /** Deleting a slot that is no dot entry changes no subtree. */
  lemma MarkedSubtree(v: Vol, t: Tree, v1: Vol, d: nat, k: nat, s: nat)
    requires Shaped(v) && Shaped(v1) && |v1.data| == |v.data| && 2 <= d < |v.data| && k < |Table(v, d)| && Table(v, d)[k][0] != DOT
    requires Table(v1, d) == Table(v, d)[k := Mark(Table(v, d)[k])]
    requires forall c :: 0 <= c < |v.data| && c != d ==> v1.data[c] == v.data[c]
    ensures Subtree(v1, t, s) == Subtree(v, t, s)
  {
    forall y: nat, j: nat, x: nat ensures DotAt(v1, t, y, j, x) == DotAt(v, t, y, j, x) {
      assert y != d && 2 <= y < |v.data| ==> Table(v1, y) == Table(v, y);
    }
    forall p: seq<nat>, i: nat ensures ClimbStep(v1, t, p, i) == ClimbStep(v, t, p, i) {
    }
    forall p: seq<nat> ensures IsClimb(v1, t, p) == IsClimb(v, t, p) {
      assert forall i: nat :: ClimbStep(v1, t, p, i) == ClimbStep(v, t, p, i);
    }
  }

  /** Clearing the cluster of an unreferenced directory and forgetting its subtree. */
  lemma DropDirs(v: Vol, t: Tree, s: nat)
    requires Inv(v, t) && s in t.dirs && s != t.root && Unreferenced(v, t, s)
    ensures s in t.chains
    ensures Inv(v.(fat := Zeroed(v.fat, t.chains[s])), t.(chains := t.chains - {s}, dirs := t.dirs - Subtree(v, t, s)))
  {
    hide IsChain, ChainsOk, SlotsOk, Subtree;
    FileChain(v, t, s);
    var v', t' := v.(fat := Zeroed(v.fat, t.chains[s])), t.(chains := t.chains - {s}, dirs := t.dirs - Subtree(v, t, s));
    DropChains(v, t, s);
    DropTop(v, t, s);
    assert forall u, d, k :: RefAt(v', t', d, k, u) ==> RefAt(v, t, d, k, u);
    assert forall u, d, k :: DotAt(v', t', d, k, u) ==> DotAt(v, t, d, k, u);
    DotsFewer(v, t, v', t');
    forall d | d in t'.dirs && 2 <= d < |v.data| ensures SlotsOk(Table(v', d), t', v.cs) {
      DropSlots(v, t, v', t', s, d);
    }
  }

  lemma DropTop(v: Vol, t: Tree, s: nat)
    requires Inv(v, t) && s in t.dirs && s != t.root
    ensures s in Subtree(v, t, s) && t.root !in Subtree(v, t, s)
  {
    ClimbSelf(v, t, s);
    if t.root in Subtree(v, t, s) {
      var k, x := ClimbFirst(v, t, t.root, s);
    }
  }

  lemma DropChains(v: Vol, t: Tree, s: nat)
    requires Inv(v, t) && s in t.chains
    ensures ChainsOk(Zeroed(v.fat, t.chains[s]), t.chains - {s})
  {
    var fat := Zeroed(v.fat, t.chains[s]);
    forall u | u in t.chains && u != s ensures IsChain(fat, t.chains[u]) && t.chains[u][0] == u {
      FileChain(v, t, u);
      assert forall c :: c in t.chains[u] ==> c !in t.chains[s];
      ChainFrame(v.fat, fat, t.chains[u]);
    }
  }

  /** A directory outside the subtree has no slot that leads into it. */
  lemma DropSlots(v: Vol, t: Tree, v': Vol, t': Tree, s: nat, d: nat)
    requires Inv(v, t) && Shaped(v') && v'.data == v.data && t' == t.(chains := t.chains - {s}, dirs := t.dirs - Subtree(v, t, s))
    requires Unreferenced(v, t, s) && s in t.dirs && d in t'.dirs
    ensures 2 <= d < |v.data| && SlotsOk(Table(v', d), t', v.cs)
  {
    DirInTable(v, t, d);
    FileChain(v, t, s);
    forall k | 0 <= k < |Table(v, d)| ensures SlotOk(Table(v, d)[k], t', v.cs) {
      var e := Table(v, d)[k];
      assert SlotOk(e, t, v.cs);
      if Refers(e) {
        assert RefAt(v, t, d, k, StartOf(e));
        NoWayIn(v, t, s, d, k, StartOf(e));
      } else if Live(e) && e[0] == DOT && StartOf(e) in Subtree(v, t, s) {
        assert DotAt(v, t, d, k, StartOf(e));
        FileChain(v, t, StartOf(e));
        ClimbMore(v, t, d, k, StartOf(e), s);
      }
    }
  }

  lemma NoWayIn(v: Vol, t: Tree, s: nat, d: nat, k: nat, x: nat)
    requires Inv(v, t) && Unreferenced(v, t, s) && d in t.dirs && d !in Subtree(v, t, s) && RefAt(v, t, d, k, x)
    ensures x != s && x !in Subtree(v, t, s)
  {
    if x in Subtree(v, t, s) && x != s {
      var j, y := ClimbFirst(v, t, x, s);
    }
  }

  /** Unlinking any entry keeps the invariant. */
  lemma UnlinkAny(v: Vol, t: Tree, d: nat, k: nat)
    requires Inv(v, t) && d in t.dirs && 2 <= d < |v.data| && v.cs % 32 == 0 && k < |Table(v, d)|
    requires var e := Table(v, d)[k]; Live(e) && e[0] != DOT
    ensures var (v', t') := Unlinked(v, t, d, k);
            Inv(v', t') && Table(v', d) == Table(v, d)[k := Mark(Table(v, d)[k])] && t'.root == t.root
    ensures var e := Table(v, d)[k]; StartOf(e) != 0 <==> StartOf(e) in t.chains
  {
    DirInTable(v, t, d);
    assert SlotOk(Table(v, d)[k], t, v.cs);
    if IsDirAttr(AttrOf(Table(v, d)[k])) {
      UnlinkDir(v, t, d, k);
    } else {
      UnlinkFile(v, t, d, k);
    }
  }

  /** After unlinking, the deleted slot is still found by finddir, under the name that the deletion mark
      has made of its own, and the cluster it names is free: writing through such a node would write to
      a free cluster, or to whatever file has been given it since. */
  lemma DeletedNamesFree(v: Vol, t: Tree, d: nat, k: nat)
    requires Inv(v, t) && d in t.dirs && 2 <= d < |v.data| && v.cs % 32 == 0 && k < |Table(v, d)|
    requires Refers(Table(v, d)[k]) && !IsDirAttr(AttrOf(Table(v, d)[k]))
    requires forall j :: 0 <= j < k ==> NameOf(Table(v, d)[j]) != NameOf(Mark(Table(v, d)[k]))
    ensures var e, v' := Mark(Table(v, d)[k]), Unlinked(v, t, d, k).0;
            && Shaped(v') && Find(Table(v', d), NameOf(e)) == Some(e)
            && StartOf(e) < |v'.fat| && v'.fat[StartOf(e)] == 0
  {
    var e := Mark(Table(v, d)[k]);
    DirInTable(v, t, d);
    UnlinkFile(v, t, d, k);
    assert SlotOk(Table(v, d)[k], t, v.cs);
    FileChain(v, t, StartOf(e));
    var table := Table(v, d)[k := e];
    forall j | 0 <= j <= k ensures !IsUnused(table[j]) {
      assert j < k && IsUnused(Table(v, d)[j]) ==> IsUnused(Table(v, d)[k]);
    }
    FindAt(table, k);
  }

  /** Bytes written over a directory's cluster can break the invariant, whatever chains and directories one
      reads into the volume: here they look like an entry for a free cluster, and a live entry of some
      directory says that the cluster is a directory. */
  lemma StaleWriteBreaks(v: Vol, t: Tree, d: nat, k: nat, c: nat)
    requires Shaped(v) && RefAt(v, t, d, k, c) && IsDirAttr(AttrOf(Table(v, d)[k])) && 2 <= c < |v.data| && v.cs > 0
    requires Refers(Table(v, c)[0]) && StartOf(Table(v, c)[0]) < |v.fat| && v.fat[StartOf(Table(v, c)[0])] == 0
    ensures !Inv(v, t)
  {
    if Inv(v, t) {
      var x := StartOf(Table(v, c)[0]);
      DirInTable(v, t, d);
      assert SlotOk(Table(v, d)[k], t, v.cs);
      DirInTable(v, t, c);
      assert SlotOk(Table(v, c)[0], t, v.cs);
      FileChain(v, t, x);
      ChainInUse(v.fat, t.chains[x], x);
    }
  }

  /** An instance: the file ABC, once deleted, answers to the name that begins with byte 0xE5. */
  lemma DeletedAbc(e: Slot)
    requires NameOf(e) == Normal([0x41, 0x42, 0x43])
    ensures NameOf(Mark(e)) == Normal([0xE5, 0x42, 0x43])
  {
    assert IndexOf([0x41, 0x42, 0x43], DOT) == 3 && IndexOf([0xE5, 0x42, 0x43], DOT) == 3;
    var a, b := Normal([0x41, 0x42, 0x43]), Normal([0xE5, 0x42, 0x43]);
    forall i | 0 <= i < 11 ensures NameOf(Mark(e))[i] == b[i] {
      assert i > 0 ==> NameOf(e)[i] == a[i];
    }
  }

  /** Unlinking a file gives its whole chain back, and nothing else. */
  lemma UnlinkFrees(v: Vol, t: Tree, d: nat, k: nat)
    requires Inv(v, t) && d in t.dirs && 2 <= d < |v.data| && v.cs % 32 == 0 && k < |Table(v, d)|
    requires StartOf(Table(v, d)[k]) in t.chains
    ensures FreeSet(Unlinked(v, t, d, k).0.fat) == FreeSet(v.fat) + (set c | c in t.chains[StartOf(Table(v, d)[k])])
  {
    var s := StartOf(Table(v, d)[k]);
    FileChain(v, t, s);
    forall c | c in t.chains[s] ensures 2 <= c < |v.fat| {
      ChainInUse(v.fat, t.chains[s], c);
    }
  }

  lemma StoredFrom(v0: Vol, t0: Tree, v1: Vol, ch: seq<nat>, v: Vol, d: nat, s: nat, len: nat,
                   off: nat, buf: seq<byte>, n: nat)
    requires s in t0.chains && Laid(v0, t0.chains[s], v1, ch, off, buf, n)
    requires Extends(v0, t0.chains[s], v, ch, d) && TableAfter(v0, t0, v, d, s, len)
    requires v.fat == v1.fat && InTable(ch, |v.data|) && Raw(v.data, ch) == Raw(v1.data, ch)
    ensures StoredAs(v0, t0, v, WithGrown(t0, s, ch), d, s, len, off, buf, n)
  {
    hide IsChain, Written, Raw, Span;
  }

  /** A write that changes the node's length, when the directory has the file's slot: slot `k`. */
  lemma StoredFound(v0: Vol, t0: Tree, v1: Vol, ch: seq<nat>, d: nat, s: nat, len0: nat, len: nat,
                    off: nat, buf: seq<byte>, n: nat, k: nat)
    requires Inv(v0, t0) && s in t0.chains && s !in t0.dirs && d in t0.dirs
    requires Laid(v0, t0.chains[s], v1, ch, off, buf, n) && len == NewLength(len0, off, n) != len0
    requires v1.cs % 32 == 0 && 2 <= d < |v1.data| && k < |Table(v1, d)|
    requires Live(Table(v1, d)[k]) && StartOf(Table(v1, d)[k]) == s
    ensures var v, t := Resized(v1, d, k, len), WithGrown(t0, s, ch);
            Inv(v, t) && StoredAs(v0, t0, v, t, d, s, len, off, buf, n) && Names(v, t, d, s, len)
  {
    hide Inv, StoredAs, Names, TableAfter, Extends, Written, Raw, Table, IsChain, Span, AsNeeded;
    FoundSlot(v0, t0, v1, ch, d, s, len, k);
    FoundExtends(v0, t0, v1, ch, d, s, len, k);
    StoredFrom(v0, t0, v1, ch, Resized(v1, d, k, len), d, s, len, off, buf, n);
  }

  /** The same, when the directory has no slot for the file. */
  lemma StoredUnfound(v0: Vol, t0: Tree, v1: Vol, ch: seq<nat>, d: nat, s: nat, len: nat,
                      off: nat, buf: seq<byte>, n: nat)
    requires Inv(v0, t0) && s in t0.chains && s !in t0.dirs && d in t0.dirs
    requires Laid(v0, t0.chains[s], v1, ch, off, buf, n) && len < WORD
    requires 2 <= d < |v1.data|
    requires forall j :: 0 <= j < |Table(v1, d)| ==> !(Live(Table(v1, d)[j]) && StartOf(Table(v1, d)[j]) == s)
    ensures Inv(v1, WithGrown(t0, s, ch)) && StoredAs(v0, t0, v1, WithGrown(t0, s, ch), d, s, len, off, buf, n)
    ensures forall size :: !Names(v0, t0, d, s, size)
  {
    hide Inv, StoredAs, Names, TableAfter, Extends, Written, Raw, IsChain, Span, AsNeeded, Table;
    GrowFile(v0, t0, s, v1, ch);
    NoSlot(v0, t0, v1, ch, d, s, len);
    LaidInside(v0, t0.chains[s], v1, ch, off, buf, n);
    StoredFrom(v0, t0, v1, ch, v1, d, s, len, off, buf, n);
  }

  /** `v` is `v1` after the first live slot of `d` that starts at `s`, slot `k` if there is one, has
      been given the size `len`. */
  ghost predicate Updated(v1: Vol, v: Vol, d: nat, s: nat, len: nat, k: nat) {
    && Shaped(v1) && 2 <= d < |v1.data| && v1.cs % 32 == 0 && len < WORD && k <= |Table(v1, d)|
    && (forall j :: 0 <= j < k ==> !(Live(Table(v1, d)[j]) && StartOf(Table(v1, d)[j]) == s))
    && if k == |Table(v1, d)| then v == v1
       else Live(Table(v1, d)[k]) && StartOf(Table(v1, d)[k]) == s && v == Resized(v1, d, k, len)
  }

  /** The steps of a write to a file: what they make of the invariant and of the size recorded. A file that
      no slot refers to keeps whatever length its node says. */
  lemma FileStored(v0: Vol, t0: Tree, v1: Vol, ch: seq<nat>, k: nat, v: Vol, d: nat, s: nat, size: nat, len0: nat, len: nat,
                   off: nat, buf: seq<byte>, n: nat)
    requires Inv(v0, t0) && s in t0.chains && s !in t0.dirs && d in t0.dirs && len0 < WORD
    requires RawSteps(v0, t0.chains[s], v1, ch, k, v, d, s, len0, len, off, buf, n)
    requires Names(v0, t0, d, s, size) || (Unreferenced(v0, t0, s) && size == len0)
    ensures Inv(v, WithGrown(t0, s, ch))
    ensures StoredAs(v0, t0, v, WithGrown(t0, s, ch), d, s, Recorded(size, len0, off, n), off, buf, n)
    ensures Names(v0, t0, d, s, size) ==> Names(v, WithGrown(t0, s, ch), d, s, Recorded(size, len0, off, n))
  {
    hide Inv, Laid, StoredAs, IsChain, Unreferenced, Names, Resized, Table, StartOf, Live, Shaped;
    if len == len0 {
      StoredKept(v0, t0, v1, ch, d, s, size, off, buf, n);
    } else if k < |Table(v1, d)| {
      StoredFound(v0, t0, v1, ch, d, s, len0, len, off, buf, n, k);
    } else {
      StoredUnfound(v0, t0, v1, ch, d, s, len, off, buf, n);
    }
  }

  // ---- the life of one file ----

  /** Slot `k` of directory `d` holds the file from `s` under the name `n`; otherwise the directory is
      `table`, in which `n` was absent and slot `k` free. The file's clusters and the free ones make up
      `free`. */
  ghost predicate Alive(v: Vol, t: Tree, d: nat, k: nat, s: nat, n: Name, table: seq<Slot>, free: set<nat>) {
    && Shaped(v) && 2 <= d < |v.data| && RefAt(v, t, d, k, s) && s in t.chains
    && k < |table| && !Live(table[k]) && (forall j :: 0 <= j < |table| && Live(table[j]) ==> NameOf(table[j]) != n)
    && Table(v, d) == table[k := Table(v, d)[k]]
    && NameOf(Table(v, d)[k]) == n && !IsDirAttr(AttrOf(Table(v, d)[k]))
    && free == FreeSet(v.fat) + (set c | c in t.chains[s]) && FreeSet(v.fat) !! (set c | c in t.chains[s])
  }

  lemma AliveKept(v0: Vol, t0: Tree, v: Vol, t: Tree, d: nat, k: nat, s: nat, n: Name, table: seq<Slot>, free: set<nat>,
                  len0: nat, len: nat, off: nat, buf: seq<byte>, m: nat)
    requires Inv(v0, t0) && Inv(v, t) && d in t0.dirs && Alive(v0, t0, d, k, s, n, table, free)
    requires Stored(v0, t0, v, t, d, s, len0, len, off, buf, m)
    ensures Alive(v, t, d, k, s, n, table, free)
  {
    StoredFree(v0, t0, v, t, d, s, len0, len, off, buf, m);
    var ch0, ch := t0.chains[s], t.chains[s];
    assert forall c :: c in ch0 ==> c in ch by {
      assert forall i :: 0 <= i < |ch0| ==> ch0[i] == ch[i];
    }
    forall j | 0 <= j < |Table(v, d)|
      ensures j != k ==> Table(v, d)[j] == table[j]
      ensures j == k ==> Table(v, d)[j] == WithSize(Table(v0, d)[k], len)
    {
      assert RefAt(v0, t0, d, j, s) ==> j == k;
      assert RefAt(v0, t0, d, k, s);
    }
  }

  lemma AliveEnds(v: Vol, t: Tree, d: nat, k: nat, s: nat, n: Name, table: seq<Slot>, free: set<nat>)
    requires Inv(v, t) && d in t.dirs && Alive(v, t, d, k, s, n, table, free)
    ensures Lookup(Table(v, d), n) == Some(Table(v, d)[k])
    ensures forall j :: 0 <= j < |Table(v, d)| && Lookup(Table(v, d), n) == Some(Table(v, d)[j]) && Live(Table(v, d)[j]) ==> j == k
    ensures var (v', t') := Unlinked(v, t, d, k);
            FreeSet(v'.fat) == free && AsMap(table[k := Mark(Table(v, d)[k])]) == AsMap(table)
  {
    var e := Table(v, d)[k];
    LookupAt(Table(v, d), k);
    UnlinkFrees(v, t, d, k);
    DeadIsNothing(table, k, Mark(e));
  }

  /** Directory `d` is `table`, no slot refers to the file from `s`, and its clusters and the free ones
      make up `free`: they are lost. */
  ghost predicate Lost(v: Vol, t: Tree, d: nat, s: nat, table: seq<Slot>, free: set<nat>) {
    && Shaped(v) && 2 <= d < |v.data| && s in t.chains && s !in t.dirs && Unreferenced(v, t, s) && Table(v, d) == table
    && free == FreeSet(v.fat) + (set c | c in t.chains[s]) && FreeSet(v.fat) !! (set c | c in t.chains[s])
  }

  lemma LostKept(v0: Vol, t0: Tree, v: Vol, t: Tree, d: nat, s: nat, table: seq<Slot>, free: set<nat>,
                 len0: nat, len: nat, off: nat, buf: seq<byte>, m: nat)
    requires Inv(v0, t0) && Inv(v, t) && d in t0.dirs && Lost(v0, t0, d, s, table, free)
    requires Stored(v0, t0, v, t, d, s, len0, len, off, buf, m)
    ensures Lost(v, t, d, s, table, free)
  {
    StoredFree(v0, t0, v, t, d, s, len0, len, off, buf, m);
    var ch0, ch := t0.chains[s], t.chains[s];
    assert forall c :: c in ch0 ==> c in ch by {
      assert forall i :: 0 <= i < |ch0| ==> ch0[i] == ch[i];
    }
    forall x | x in t0.dirs ensures 2 <= x < |v.data| && x < |v0.data| && Table(v, x) == Table(v0, x) {
      StoredUnlisted(v0, t0, v, t, d, s, len0, len, off, buf, m, x);
    }
    UnlistedStays(v0, t0, v, t, s);
  }

  /** A chain stays unreferenced when no table changes. */
  lemma UnlistedStays(v0: Vol, t0: Tree, v: Vol, t: Tree, s: nat)
    requires Shaped(v0) && Shaped(v) && t.dirs == t0.dirs && |v.data| == |v0.data| && Unreferenced(v0, t0, s)
    requires forall x :: x in t0.dirs ==> 2 <= x < |v.data| && Table(v, x) == Table(v0, x)
    ensures Unreferenced(v, t, s)
  {
    forall d: nat, k: nat ensures !RefAt(v, t, d, k, s) {
      assert !RefAt(v0, t0, d, k, s);
    }
  }

  lemma LostBorn(v: Vol, t: Tree, d: nat, k: nat, c: nat, e: Slot)
    requires Inv(v, t) && d in t.dirs && 2 <= c < |v.fat| && v.fat[c] == 0 && !Live(e)
    requires 2 <= d < |v.data| && k < v.cs / 32 && IsFirstFree(Table(v, d), k)
    requires e[0] != UNUSED && e[0] != DOT && StartOf(e) == c && SizeOf(e) == 0 && !IsDirAttr(AttrOf(e))
    ensures Lost(WithEntry(v, d, k, c, e), WithChain(t, c), d, c, Table(v, d)[k := e], FreeSet(v.fat))
    ensures AsMap(Table(v, d)[k := e]) == AsMap(Table(v, d))
  {
    AddFile(v, t, d, k, c, e);
    AddChain(v, t, c);
    DeadIsNothing(Table(v, d), k, e);
    var v1, v', t' := v.(fat := v.fat[c := END]), WithEntry(v, d, k, c, e), WithChain(t, c);
    forall d1: nat, k1: nat ensures !RefAt(v', t', d1, k1, c) {
      assert !RefAt(v1, t', d1, k1, c);
      assert d1 != d && 2 <= d1 < |v.data| ==> Table(v', d1) == Table(v1, d1);
    }
    assert t'.chains[c] == [c];
    assert FreeSet(v.fat) == FreeSet(v'.fat) + {c};
  }

  lemma InvShaped(v: Vol, t: Tree)
    requires Inv(v, t)
    ensures Shaped(v)
  {
  }

  lemma TakenFromFree(fat: seq<nat>, c: nat)
    requires 2 <= c < |fat| && fat[c] == 0
    ensures FreeSet(fat) == FreeSet(fat[c := END]) + {c} && c !in FreeSet(fat[c := END])
  {
  }

  lemma AliveBorn(v: Vol, t: Tree, d: nat, k: nat, c: nat, e: Slot)
    requires Inv(v, t) && d in t.dirs && 2 <= c < |v.fat| && v.fat[c] == 0 && Live(e)
    requires 2 <= d < |v.data| && k < v.cs / 32 && IsFirstFree(Table(v, d), k)
    requires e[0] != DOT && StartOf(e) == c && SizeOf(e) == 0 && !IsDirAttr(AttrOf(e))
    requires NameOf(e) !in AsMap(Table(v, d))
    ensures Alive(WithEntry(v, d, k, c, e), WithChain(t, c), d, k, c, NameOf(e), Table(v, d), FreeSet(v.fat))
  {
    hide IsChain, AsMap, Lookup, Inv, FreeSet, Overlay, SlotAt;
    InvShaped(v, t);
    AddFile(v, t, d, k, c, e);
    var v', t' := WithEntry(v, d, k, c, e), WithChain(t, c);
    InvShaped(v', t');
    assert RefAt(v', t', d, k, c);
    MapLookup(Table(v, d), NameOf(e));
    assert forall j :: 0 <= j < |Table(v, d)| ==> Table(v, d)[j] in Table(v, d);
    TakenFromFree(v.fat, c);
    assert (set x | x in t'.chains[c]) == {c};
  }
}
