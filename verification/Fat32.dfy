/** kernel/fs/fat32/fat32.c over a disk of sectors. Disk transfers and buffer allocation succeed, and
    the volume has been probed. */
module Fat32 {
  import opened Bytes
  import opened Common
  import opened FatDisk
  import opened FatChain
  import opened FatDir
  import opened FatName
  import opened FatTree
  import opened FatPath
  import opened FatRun

  /** The part of vfs_node_t that the driver reads and writes. */
  class Node {
    var impl: nat     // first cluster
    var inode: nat    // cluster of the directory that holds the entry
    var length: nat
    var isDir: bool

    constructor (impl: nat, inode: nat, length: nat, isDir: bool)
      ensures this.impl == impl && this.inode == inode && this.length == length && this.isDir == isDir
    {
      this.impl, this.inode, this.length, this.isDir := impl, inode, length, isDir;
    }
  }

  lemma SliceOfSlice(s: seq<byte>, a: nat, n: nat, at: nat, m: nat)
    requires a + n <= |s| && at + m <= n
    ensures s[a..a + n][at..at + m] == s[a + at..a + at + m]
  {
    var l, r := s[a..a + n][at..at + m], s[a + at..a + at + m];
    assert forall i :: 0 <= i < m ==> l[i] == s[a..a + n][at + i] == r[i];
  }

  lemma ZeroHeadsNothing(v: Vol, t: Tree)
    requires Inv(v, t)
    ensures Shaped(v) && 0 !in t.chains
    ensures forall d :: d in t.dirs ==> 2 <= d < |v.data|
  {
    if 0 in t.chains {
      FileChain(v, t, 0);
    }
    forall d | d in t.dirs ensures 2 <= d < |v.data| {
      FileChain(v, t, d);
    }
  }

  lemma NextPiece(s: seq<byte>, at: nat, done: seq<byte>, piece: seq<byte>)
    requires at + |done| + |piece| <= |s| && done == s[at..at + |done|] && piece == s[at + |done|..at + |done| + |piece|]
    ensures done + piece == s[at..at + |done + piece|]
  {
  }

  // ---- one write step over the chain's bytes ----

  lemma WriteStep(data: seq<seq<byte>>, ch: seq<nat>, cs: nat, k: nat, at: nat,
                  raw0: seq<byte>, off: nat, buf: seq<byte>, n: nat, m: nat)
    requires InTable(ch, |data|) && Sized(data, cs) && k < |ch|
    requires forall i, j :: 0 <= i < j < |ch| ==> ch[i] != ch[j]
    requires n + m <= |buf| && at + m <= cs && off + n == Span(k, cs) + at
    requires Written(raw0, Raw(data, ch), off, buf, n)
    ensures Written(raw0, Raw(data[ch[k] := Overlay(data[ch[k]], at, buf[n..n + m])], ch), off, buf, n + m)
  {
    RawPut(data, ch, cs, k, at, buf[n..n + m]);
  }

  lemma GrownStep(v0: Vol, ch0: seq<nat>, v: Vol, ch: seq<nat>, c: nat)
    requires Shaped(v0) && Grown(v0, ch0, v, ch) && 2 <= c < |v.fat| && v.fat[c] == 0
    ensures c !in ch && Grown(v0, ch0, v.(fat := v.fat[c := END][ch[|ch| - 1] := c]), ch + [c])
  {
    ExtendChain(v.fat, ch, c);
    var v', ch' := v.(fat := v.fat[c := END][ch[|ch| - 1] := c]), ch + [c];
    assert ch[|ch| - 1] in ch';
    assert c in ch';
    assert forall x :: x in ch ==> x in ch';
  }

  lemma GrownFacts(v0: Vol, ch0: seq<nat>, v: Vol, ch: seq<nat>)
    requires Grown(v0, ch0, v, ch)
    ensures |v.data| == |v0.data| && v.cs == v0.cs && Shaped(v) && IsChain(v.fat, ch) && InTable(ch, |v.data|)
  {
  }

  lemma GrownPut(v0: Vol, ch0: seq<nat>, v: Vol, ch: seq<nat>, k: nat, b: seq<byte>)
    requires Shaped(v0) && Grown(v0, ch0, v, ch) && k < |ch| && |b| == v.cs
    ensures Grown(v0, ch0, v.(data := v.data[ch[k] := b]), ch)
  {
  }

  class Volume {
    const g: Geometry
    const root: nat
    var disk: Disk
    ghost const disk0: Disk   // the disk as it was mounted
    ghost var vol: Vol     // the disk as a FAT and a cluster array
    ghost var tree: Tree

    /** The disk holds `vol`, and nothing outside the FATs and the clusters has changed. */
    ghost predicate DiskOk()
      reads this
    {
      Holds(g, disk, vol) && Outside(g, disk0, disk)
    }

    /** All FAT copies agree, and the volume is well formed. */
    ghost predicate Valid()
      reads this
    {
      DiskOk() && Inv(vol, tree) && tree.root == root
    }

    /** The driver over a disk that holds a well-formed volume, the geometry and the root cluster as the
        boot record gives them. */
    constructor Mount(g: Geometry, root: nat, disk: Disk, ghost v: Vol, ghost t: Tree)
      requires Holds(g, disk, v) && Inv(v, t) && t.root == root
      ensures Valid() && this.g == g && this.root == root && this.disk == disk && disk0 == disk && vol == v && tree == t
    {
      this.g, this.root, this.disk, this.disk0 := g, root, disk, disk;
      vol, tree := v, t;
    }

    lemma Sizes()
      requires DiskOk()
      ensures |vol.fat| == |vol.data| == g.N() && vol.cs == g.ClusterSize()
    {
    }

    // ---- sectors ----

    method GetFatEntry(c: nat) returns (e: nat)
      requires DiskOk() && c < g.N()
      ensures e == vol.fat[c]
    {
      FatSectorRange(g, 0, c);
      assert Entry(g, disk, 0, c) == vol.fat[c];
      var sector := disk[g.reserved + c * 4 / 512];
      e := Le32(sector, c * 4 % 512) % MASK;
    }

    method SetFatEntry(c: nat, value: nat)
      requires DiskOk() && c < g.N()
      modifies this`disk, this`vol
      ensures DiskOk() && vol == old(vol).(fat := old(vol).fat[c := value % MASK])
      ensures Fits(g, old(disk)) && disk == PutEntries(g, old(disk), g.fatCount, c, value)
    {
      hide Outside, Cluster, Entry;
      var i := 0;
      while i < g.fatCount
        invariant 0 <= i <= g.fatCount && Fits(g, disk) && vol == old(vol) && Outside(g, disk0, disk)
        invariant disk == PutEntries(g, old(disk), i, c, value)
        invariant forall x :: 2 <= x < g.N() ==> Cluster(g, disk, x) == vol.data[x]
        invariant forall j, x :: 0 <= j < g.fatCount && 0 <= x < g.N() ==>
                    Entry(g, disk, j, x) == if j < i && x == c then value % MASK else vol.fat[x]
      {
        FatSectorRange(g, i, c);
        PutEntryKeepsClusters(g, disk, i, c, value);
        OutsidePutEntry(g, disk0, disk, i, c, value);
        ghost var before := disk;
        var at := g.reserved + i * g.fatSize + c * 4 / 512;
        var sector: Sector := disk[at];
        sector := Overlay(sector, c * 4 % 512, ToLe32(value % MASK));
        disk := disk[at := sector];
        forall j, x | 0 <= j < g.fatCount && 0 <= x < g.N()
          ensures Entry(g, disk, j, x) == if j == i && x == c then value % MASK else Entry(g, before, j, x)
        {
          PutEntryReads(g, before, i, c, value, j, x);
        }
        i := i + 1;
      }
      vol := vol.(fat := vol.fat[c := value % MASK]);
    }

    method ReadCluster(c: nat) returns (b: seq<byte>)
      requires DiskOk() && 2 <= c < g.N()
      ensures b == vol.data[c] && |b| == vol.cs == g.ClusterSize()
    {
      b := Cluster(g, disk, c);
    }

    method WriteCluster(c: nat, b: seq<byte>)
      requires DiskOk() && 2 <= c < g.N() && |b| == g.ClusterSize()
      modifies this`disk, this`vol
      ensures DiskOk() && vol == old(vol).(data := old(vol).data[c := b])
      ensures Fits(g, old(disk)) && disk == PutCluster(g, old(disk), c, b)
    {
      OutsidePutCluster(g, disk0, disk, c, b);
      PutClusterHolds(g, disk, vol, c, b);
      disk := PutCluster(g, disk, c, b);
      vol := vol.(data := vol.data[c := b]);
    }

    // ---- clusters ----

    /** The least free cluster, marked as an end of chain, or END when there is none. */
    method AllocateCluster() returns (c: nat)
      requires DiskOk()
      modifies this`disk, this`vol
      ensures DiskOk()
      ensures c == END <==> old(Full(vol.fat))
      ensures c == END ==> vol == old(vol)
      ensures c != END ==> 2 <= c < g.N() && old(vol).fat[c] == 0 && (forall i :: 2 <= i < c ==> old(vol).fat[i] != 0)
                           && vol == old(vol).(fat := old(vol).fat[c := 0x0FFF_FFFF])
    {
      DataAboveFats(g, disk);
      var i := 2;
      while i < g.N()
        invariant 2 <= i <= g.N() && disk == old(disk) && vol == old(vol)
        invariant forall j :: 2 <= j < i ==> vol.fat[j] != 0
      {
        var e := GetFatEntry(i);
        if e == 0 {
          SetFatEntry(i, END);
          return i;
        }
        i := i + 1;
      }
      assert Full(vol.fat);
      return END;
    }

    /** The freeing loop of unlink. It needs no well-formed chain, only links that stay inside the
        table; `ch` is the chain to follow when the rest of the table is not known to do so. */
    method FreeChain(start: nat, ghost ch: seq<nat>)
      requires DiskOk() && CanFree(vol.fat, start, ch)
      modifies this`disk, this`vol
      ensures DiskOk() && vol == old(vol).(fat := FreeFrom(old(vol).fat, start))
    {
      var current: nat := start;
      ghost var rest := ch;
      while 2 <= current < EOC
        invariant DiskOk() && CanFree(vol.fat, current, rest)
        invariant vol == old(vol).(fat := vol.fat)
        invariant FreeFrom(vol.fat, current) == FreeFrom(old(vol).fat, start)
        decreases NonZero(vol.fat), if 2 <= current < EOC then 1 else 0
      {
        rest := FreeStep(vol.fat, current, rest);
        var next := GetFatEntry(current);
        SetFatEntry(current, 0);
        current := next;
      }
    }

    /** The next cluster of a chain; at its end a new cluster is allocated and linked. END when the
        disk is full. The two chain walks of write share this step. */
    method Advance(current: nat, ghost ch: seq<nat>, ghost i: nat) returns (next: nat, ghost ch': seq<nat>)
      requires DiskOk() && Shaped(vol) && IsChain(vol.fat, ch) && i < |ch| && current == ch[i]
      modifies this`disk, this`vol
      ensures DiskOk()
      ensures current < |old(vol).fat| && (old(vol).fat[current] >= 0x0FFF_FFF8 <==> |ch| == i + 1)
      ensures next == END ==> vol == old(vol) && ch' == ch && Full(vol.fat) && |ch| == i + 1
      ensures next != END ==> i + 1 < |ch'| && next == ch'[i + 1]
      ensures next != END && i + 1 < |ch| ==> ch' == ch && vol == old(vol)
      ensures next != END && i + 1 == |ch| ==>
                && ch' == ch + [next] && 2 <= next < g.N() && old(vol).fat[next] == 0
                && vol == old(vol).(fat := old(vol).fat[next := END][current := next])
    {
      hide Holds, Outside, IsChain, Shaped, PutEntries, Fits, Full;
      Sizes();
      ShapedFacts(vol);
      ch' := ch;
      ChainNext(vol.fat, ch, i);
      next := GetFatEntry(current);
      if next >= EOC {
        next := AllocateCluster();
        if next == END {
          return;
        }
        SetFatEntry(current, next);
        ch' := ch + [next];
      }
    }

    // ---- file content ----

    /** The node agrees with the directory entry it came from, of a file or of a directory. */
    ghost predicate Entered(node: Node)
      reads this, node
      requires DiskOk() && Shaped(vol)
      ensures Entered(node) ==> node.impl in tree.chains
    {
      node.impl in tree.chains && Names(vol, tree, node.inode, node.impl, node.length)
    }

    /** The same, for a file. */
    ghost predicate NodeOk(node: Node)
      reads this, node
      requires DiskOk() && Shaped(vol)
      ensures NodeOk(node) ==> node.impl in tree.chains
    {
      Entered(node) && node.impl !in tree.dirs
    }

    /** The cluster part of read: walk to the offset, then copy cluster by cluster, to the end of the
        chain at most. */
    method ReadChain(s: nat, ghost ch: seq<nat>, offset: nat, count: nat) returns (out: seq<byte>)
      requires DiskOk() && Shaped(vol) && IsChain(vol.fat, ch) && ch[0] == s
      requires 0 < count && offset < Span(|ch|, vol.cs)
      ensures var raw := Raw(vol.data, ch);
              |raw| == Span(|ch|, vol.cs) && out == raw[offset..Min(offset + count, |raw|)]
    {
      hide Holds, Outside, Raw, IsChain, Span, ClusterIndex, ClusterOffset, Shaped;
      Sizes();
      ShapedFacts(vol);
      ChainInTable(vol.fat, ch);
      ghost var raw := Raw(vol.data, ch);
      RawLength(vol.data, ch, vol.cs);
      var cs := g.ClusterSize();
      SpanDivMod(offset, cs);
      IndexBelow(offset, |ch|, cs);
      var at: nat := ClusterOffset(offset, cs);
      ghost var k: nat := ClusterIndex(offset, cs);
      var current := Skip(s, ch, ClusterIndex(offset, cs));
      out := [];
      while |out| < count && 2 <= current < EOC
        invariant |out| <= count && offset + |out| <= |raw| && out == raw[offset..offset + |out|]
        invariant |out| < count && current >= EOC ==> offset + |out| == |raw|
        invariant |out| < count && current < EOC ==> k < |ch| && current == ch[k] && offset + |out| == Span(k, cs) + at && at < cs
        decreases count - |out|
      {
        ChainInside(vol.fat, ch, k);
        var temp := ReadCluster(current);
        var m := Min(cs - at, count - |out|);
        RawAt(vol.data, ch, cs, k);
        SliceOfSlice(raw, Span(k, cs), cs, at, m);
        NextPiece(raw, offset, out, temp[at..at + m]);
        out := out + temp[at..at + m];
        at := 0;
        if |out| < count {
          ChainNext(vol.fat, ch, k);
          SpanStep(k, cs);
          current := GetFatEntry(current);
          k := k + 1;
        }
      }
      if |out| < count && current < EOC {
        ChainInside(vol.fat, ch, k);
      }
    }

    /** The loop that skips whole clusters before a read; on a chain that reaches far enough its
        end-of-chain exit is never taken. */
    method Skip(s: nat, ghost ch: seq<nat>, skip: nat) returns (current: nat)
      requires DiskOk() && Shaped(vol) && IsChain(vol.fat, ch) && ch[0] == s && skip < |ch|
      ensures current == ch[skip] && 2 <= current < EOC
    {
      current := s;
      var i := 0;
      while i < skip
        invariant 0 <= i <= skip && current == ch[i]
      {
        ChainNext(vol.fat, ch, i);
        current := GetFatEntry(current);
        if current >= EOC {
          return;
        }
        i := i + 1;
      }
    }

    /** fat32_vfs_read, for every 32-bit offset and size: the file's content from `offset` on, `size` bytes
        or as many as there are, unless the 32-bit sum of the two wraps. */
    method Read(node: Node, offset: nat, size: nat) returns (out: seq<byte>)
      requires Valid() && Entered(node) && offset < WORD && size < WORD
      ensures InTable(tree.chains[node.impl], |vol.data|) && IsChain(vol.fat, tree.chains[node.impl]) && node.length < WORD
      ensures var raw, content := Raw(vol.data, tree.chains[node.impl]), Content(vol, tree.chains[node.impl], node.length);
              && node.length <= |raw| && content == raw[..node.length] && (node.length == 0 ==> out == [])
              && out == ReadRange(raw, node.length, offset, size)
              && (out == Range(content, offset, size) <==>
                  offset >= node.length || size == 0 || offset + size < WORD || node.length == |raw|)
    {
      hide Holds, Outside, Inv, Raw, IsChain, Span, ReadRange, Range, Names, Shaped;
      FileLength(node);
      FileChain(vol, tree, node.impl);
      ShapedFacts(vol);
      ChainInTable(vol.fat, tree.chains[node.impl]);
      RawLength(vol.data, tree.chains[node.impl], vol.cs);
      ReadCases(Raw(vol.data, tree.chains[node.impl]), node.length, offset, size);
      ReadIsContent(Raw(vol.data, tree.chains[node.impl]), node.length, offset, size);
      if node.length == 0 || size == 0 || offset >= node.length {
        return [];
      }
      var real_size := size;
      if (offset + size) % WORD > node.length {
        real_size := node.length - offset;
      }
      out := ReadChain(node.impl, tree.chains[node.impl], offset, real_size);
    }

    lemma FileLength(node: Node)
      requires Valid() && Entered(node)
      ensures var ch := tree.chains[node.impl];
              IsChain(vol.fat, ch) && ch[0] == node.impl && node.length <= Span(|ch|, vol.cs)
      ensures node.inode in tree.dirs && node.length < WORD
    {
      var k: nat :| RefAt(vol, tree, node.inode, k, node.impl) && SizeOf(Table(vol, node.inode)[k]) == node.length;
      RefChain(vol, tree, node.inode, k, node.impl);
      WithSameSize(Table(vol, node.inode)[k]);
    }

    /** The cluster part of write: `buf` is laid over the chain from `s` at `offset`, the chain
        growing as needed. `n` bytes are written; fewer than all only when no cluster is left, and then
        the chain is filled to its end, or ends before the offset. `reached` tells whether the walk came
        as far as the offset. */
    method WriteChain(s: nat, ghost ch0: seq<nat>, offset: nat, buf: seq<byte>)
      returns (n: nat, reached: bool, ghost ch: seq<nat>)
      requires DiskOk() && Shaped(vol) && IsChain(vol.fat, ch0) && ch0[0] == s && |buf| > 0
      modifies this`disk, this`vol
      ensures DiskOk() && Grown(old(vol), ch0, vol, ch)
      ensures Written(Raw(old(vol).data, ch0), Raw(vol.data, ch), offset, buf, n)
      ensures n < |buf| ==> Full(vol.fat) && Span(|ch|, vol.cs) <= offset + n
      ensures AsNeeded(ch0, ch, vol.cs, offset, buf)
      ensures reached <==> n > 0
    {
      hide ClusterIndex, ClusterOffset, Holds, Outside, Grown, Written, Raw, IsChain, Shaped, Span, AsNeeded;
      Sizes();
      ShapedFacts(vol);
      ChainInTable(vol.fat, ch0);
      ghost var v0, raw0 := vol, Raw(vol.data, ch0);
      var cs := g.ClusterSize();
      SpanDivMod(offset, cs);
      var current: nat, at: nat;
      ghost var k: nat := ClusterIndex(offset, cs);
      current, ch := Seek(s, ch0, ClusterIndex(offset, cs), offset, buf);
      GrownFacts(v0, ch0, vol, ch);
      NeededSeek(ch0, ch, cs, offset, buf, ClusterIndex(offset, cs));
      if current == END {
        SpanMonotone(|ch|, ClusterIndex(offset, cs), cs);
        return 0, false, ch;
      }
      at := ClusterOffset(offset, cs);
      n := 0;
      var temp: seq<byte> := seq(cs, _ => 0);
      while n < |buf|
        invariant n <= |buf| && |temp| == cs
        invariant DiskOk() && Grown(v0, ch0, vol, ch) && InTable(ch, |vol.data|)
        invariant Written(raw0, Raw(vol.data, ch), offset, buf, n) && AsNeeded(ch0, ch, cs, offset, buf)
        invariant n < |buf| ==> k < |ch| && current == ch[k] && offset + n == Span(k, cs) + at && at < cs && current != END
      {
        GrownFacts(v0, ch0, vol, ch);
        n, temp := WriteOne(current, at, temp, v0, ch0, ch, k, raw0, offset, buf, n);
        at := 0;
        GrownFacts(v0, ch0, vol, ch);
        if n < |buf| {
          ghost var before := ch;
          current, ch := Step(current, v0, ch0, ch, k, raw0, offset, buf, n);
          GrownFacts(v0, ch0, vol, ch);
          NeededStep(ch0, before, ch, cs, offset, buf, k, n);
          if current == END {
            break;
          }
          SpanStep(k, cs);
          k := k + 1;
        }
      }
      GrownFacts(v0, ch0, vol, ch);
      reached := true;
    }

    /** Walk to cluster number `target` of the chain, growing it as needed. */
    method Seek(s: nat, ghost ch0: seq<nat>, target: nat, ghost offset: nat, ghost buf: seq<byte>)
      returns (current: nat, ghost ch: seq<nat>)
      requires DiskOk() && Shaped(vol) && IsChain(vol.fat, ch0) && ch0[0] == s
      modifies this`disk, this`vol
      ensures DiskOk() && Grown(old(vol), ch0, vol, ch)
      ensures Written(Raw(old(vol).data, ch0), Raw(vol.data, ch), offset, buf, 0)
      ensures if current == END then Full(vol.fat) && |ch| <= target else target < |ch| && current == ch[target]
      ensures |ch| > |ch0| ==> |ch| <= target + 1
    {
      ghost var v0, raw0 := vol, Raw(vol.data, ch0);
      ch := ch0;
      current := s;
      var i := 0;
      while i < target
        invariant 0 <= i <= target
        invariant DiskOk() && Grown(v0, ch0, vol, ch) && Written(raw0, Raw(vol.data, ch), offset, buf, 0)
        invariant i < |ch| && current == ch[i] && (|ch| > |ch0| ==> |ch| <= target + 1)
      {
        current, ch := Step(current, v0, ch0, ch, i, raw0, offset, buf, 0);
        if current == END {
          return;
        }
        i := i + 1;
      }
    }

    /** Read, patch and write back one cluster; a whole cluster is not read first. */
    method WriteOne(current: nat, at: nat, buffer: seq<byte>, ghost v0: Vol, ghost ch0: seq<nat>, ghost ch: seq<nat>,
                    ghost k: nat, ghost raw0: seq<byte>, ghost offset: nat, buf: seq<byte>, n: nat)
      returns (n': nat, temp: seq<byte>)
      requires DiskOk() && Shaped(v0) && Grown(v0, ch0, vol, ch) && k < |ch| && current == ch[k]
      requires n < |buf| && at < vol.cs && |buffer| == vol.cs && offset + n == Span(k, vol.cs) + at
      requires Written(raw0, Raw(vol.data, ch), offset, buf, n)
      modifies this`disk, this`vol
      ensures DiskOk() && Grown(v0, ch0, vol, ch) && |temp| == vol.cs
      ensures n < n' <= |buf| && Written(raw0, Raw(vol.data, ch), offset, buf, n')
      ensures n' < |buf| ==> offset + n' == Span(k + 1, vol.cs)
    {
      var cs := g.ClusterSize();
      var m := Min(cs - at, |buf| - n);
      temp := buffer;
      if m < cs {
        temp := ReadCluster(current);
      }
      assert Overlay(temp, at, buf[n..n + m]) == Overlay(vol.data[current], at, buf[n..n + m]);
      temp := Overlay(temp, at, buf[n..n + m]);
      WriteStep(vol.data, ch, cs, k, at, raw0, offset, buf, n, m);
      GrownPut(v0, ch0, vol, ch, k, temp);
      WriteCluster(current, temp);
      n' := n + m;
    }

    /** Advance, with what it means for the write in progress. */
    method Step(current: nat, ghost v0: Vol, ghost ch0: seq<nat>, ghost ch: seq<nat>, ghost i: nat,
                ghost raw0: seq<byte>, ghost offset: nat, ghost buf: seq<byte>, ghost n: nat)
      returns (next: nat, ghost ch': seq<nat>)
      requires DiskOk() && Shaped(v0) && Grown(v0, ch0, vol, ch) && i < |ch| && current == ch[i]
      requires Written(raw0, Raw(vol.data, ch), offset, buf, n)
      modifies this`disk, this`vol
      ensures DiskOk() && Grown(v0, ch0, vol, ch') && Written(raw0, Raw(vol.data, ch'), offset, buf, n)
      ensures if next == END then Full(vol.fat) && |ch'| == i + 1 else i + 1 < |ch'| && next == ch'[i + 1]
      ensures |ch'| == |ch| || |ch'| == i + 2
    {
      ghost var v := vol;
      next, ch' := Advance(current, ch, i);
      if next != END && i + 1 == |ch| {
        GrownStep(v0, ch0, v, ch, next);
        RawAppend(v.data, ch, next);
      }
    }

    // ---- directory slots ----

    /** fat32_create_entry: fill the first unused or deleted slot of a directory. */
    method CreateEntry(dir: nat, name: seq<byte>, attr: byte, start: nat, size: nat) returns (ok: bool, ghost k: nat)
      requires DiskOk() && Shaped(vol) && 2 <= dir < g.N() && IsCString(name)
      requires start < WORD && size < WORD
      modifies this`disk, this`vol
      ensures DiskOk()
      ensures ok ==> IsFirstFree(Table(old(vol), dir), k)
      ensures !ok <==> DirFull(Table(old(vol), dir))
      ensures !ok ==> vol == old(vol)
      ensures ok ==> vol == old(vol).(data := old(vol).data[dir :=
                       Overlay(old(vol).data[dir], 32 * k, MakeSlot(Normal(name), attr, start, size))])
    {
      var buffer := ReadCluster(dir);
      var entries := Slots(buffer);
      var slot := 0;
      while slot < |entries| && Live(entries[slot])
        invariant 0 <= slot <= |entries| && forall j :: 0 <= j < slot ==> Live(entries[j])
      {
        slot := slot + 1;
      }
      k := slot;
      if slot == |entries| {
        return false, k;
      }
      var stored := Format(name);
      buffer := Overlay(buffer, 32 * slot, MakeSlot(stored, attr, start, size));
      WriteCluster(dir, buffer);
      ok := true;
    }

    /** fat32_update_entry_size: the first live slot that starts at `file` gets the new size. */
    method UpdateEntrySize(dir: nat, file: nat, size: nat) returns (ghost k: nat)
      requires DiskOk() && Shaped(vol) && 2 <= dir < g.N() && size < WORD
      modifies this`disk, this`vol
      ensures DiskOk() && Updated(old(vol), vol, dir, file, size, k)
    {
      var buffer := ReadCluster(dir);
      var entries := Slots(buffer);
      var i := 0;
      while i < |entries|
        invariant 0 <= i <= |entries| && vol == old(vol) && disk == old(disk)
        invariant forall j :: 0 <= j < i ==> !(Live(entries[j]) && StartOf(entries[j]) == file)
      {
        if StartOf(entries[i]) == file && Live(entries[i]) {
          WriteCluster(dir, Overlay(buffer, 32 * i, WithSize(entries[i], size)));
          return i;
        }
        i := i + 1;
      }
      k := i;
    }

    // ---- the file operations ----

    /** fat32_vfs_write from its first cluster on: the bytes are laid over the chain, which grows by free
        clusters only, as far as needed, and the size is updated. For a file, outside the chain nothing
        changes but the size recorded in its slot. */
    method Store(node: Node, offset: nat, buf: seq<byte>) returns (n: nat)
      requires Valid() && |buf| < WORD && offset < WORD && node.length < WORD && node.inode in tree.dirs
      requires Backed(node) || node.impl in tree.dirs
      modifies this`disk, this`vol, this`tree, node`length
      ensures DiskOk() && Shaped(vol) && n <= |buf| && (n < |buf| ==> Full(vol.fat))
      ensures node.length == NewLength(old(node.length), offset, n) < WORD && node.impl in old(tree).chains
      ensures RawStored(old(vol), old(tree).chains[node.impl], vol, node.inode, node.impl, old(node.length), node.length, offset, buf, n)
      ensures node.impl in old(tree).dirs ==> tree == old(tree)
      ensures node.impl !in old(tree).dirs ==> Valid() && tree.dirs == old(tree).dirs
      ensures node.impl !in old(tree).dirs ==>
                forall size :: old(Names(vol, tree, node.inode, node.impl, size)) ==>
                  && StoredAs(old(vol), old(tree), vol, tree, node.inode, node.impl, Recorded(size, old(node.length), offset, n), offset, buf, n)
                  && Names(vol, tree, node.inode, node.impl, Recorded(size, old(node.length), offset, n))
      ensures old(NodeOk(node)) ==>
                NodeOk(node) && Stored(old(vol), old(tree), vol, tree, node.inode, node.impl, old(node.length), node.length, offset, buf, n)
      ensures node.impl !in old(tree).dirs && old(Unreferenced(vol, tree, node.impl)) ==>
                && Loose(node)
                && Stored(old(vol), old(tree), vol, tree, node.inode, node.impl, old(node.length), node.length, offset, buf, n)
                && forall d :: d in tree.dirs ==> 2 <= d < |vol.data| && d < |old(vol).data| && Table(vol, d) == Table(old(vol), d)
    {
      hide Inv, Laid, StoredAs, Holds, Outside, Shaped, IsChain, Unreferenced, Names, Table, RawStored, Updated;
      ghost var v0, t0, len0 := vol, tree, node.length;
      Sizes();
      if node.impl in tree.dirs {
        DirHasChain(tree, node.impl, vol);
      }
      FileChain(v0, t0, node.impl);
      DirInTable(v0, t0, node.inode);
      ghost var size := if node.impl in tree.dirs then 0 else SizeNow(node);
      var length;
      ghost var v1, ch, k;
      n, length, v1, ch, k := StoreRaw(node.impl, node.inode, node.length, offset, buf, t0.chains[node.impl]);
      RawDone(v0, t0.chains[node.impl], v1, ch, k, vol, node.inode, node.impl, len0, length, offset, buf, n);
      node.length := length;
      if node.impl !in t0.dirs {
        FileStored(v0, t0, v1, ch, k, vol, node.inode, node.impl, size, len0, length, offset, buf, n);
        tree := WithGrown(t0, node.impl, ch);
        if Unreferenced(v0, t0, node.impl) {
          StoredLoose(v0, t0, vol, tree, node.inode, node.impl, len0, length, offset, buf, n);
        }
      }
    }

    /** The size that the slot of a file records; for a file without a slot, the node's length. */
    ghost function SizeNow(node: Node): (size: nat)
      reads this, node
      requires Valid() && node.length < WORD && Backed(node)
      ensures size < WORD && (Names(vol, tree, node.inode, node.impl, size) || (Unreferenced(vol, tree, node.impl) && size == node.length))
      ensures forall z :: Names(vol, tree, node.inode, node.impl, z) ==> z == size
      ensures Unreferenced(vol, tree, node.impl) ==> size == node.length
    {
      if Unreferenced(vol, tree, node.impl) then node.length
      else
        var size :| Names(vol, tree, node.inode, node.impl, size);
        NamesOnce(vol, tree, node.inode, node.impl, size, size);
        assert forall z :: Names(vol, tree, node.inode, node.impl, z) ==> z == size by {
          forall z | Names(vol, tree, node.inode, node.impl, z) ensures z == size {
            NamesOnce(vol, tree, node.inode, node.impl, z, size);
          }
        }
        size
    }

    /** The steps of Store on the disk. */
    method StoreRaw(s: nat, d: nat, len0: nat, offset: nat, buf: seq<byte>, ghost ch0: seq<nat>)
      returns (n: nat, len: nat, ghost v1: Vol, ghost ch: seq<nat>, ghost k: nat)
      requires DiskOk() && Shaped(vol) && IsChain(vol.fat, ch0) && ch0[0] == s && 2 <= d < g.N()
      requires |buf| < WORD && offset < WORD
      modifies this`disk, this`vol
      ensures DiskOk() && Laid(old(vol), ch0, v1, ch, offset, buf, n)
      ensures len == NewLength(len0, offset, n) && if len == len0 then vol == v1 else Updated(v1, vol, d, s, len, k)
    {
      ChainInTable(vol.fat, ch0);
      if |buf| == 0 {
        return 0, len0, vol, ch0, 0;
      }
      var reached;
      n, reached, ch := WriteChain(s, ch0, offset, buf);
      RawLength(vol.data, ch, vol.cs);
      v1, len, k := vol, len0, 0;
      if reached && (offset + n) % WORD > len0 {
        len := (offset + n) % WORD;
        k := UpdateEntrySize(d, s, len);
      }
    }

    /** A node that no directory entry agrees with: it has no first cluster, or one that was entered
        under a name with the deletion mark. */
    ghost predicate Loose(node: Node)
      reads this, node
      requires DiskOk() && Shaped(vol)
    {
      node.length < WORD && (node.impl == 0 || (node.impl in tree.chains && node.impl !in tree.dirs && Unreferenced(vol, tree, node.impl)))
    }

    /** The node of a file that its directory lists, with whatever size, or that no directory lists. */
    ghost predicate Backed(node: Node)
      reads this, node
      requires DiskOk() && Shaped(vol)
      ensures Backed(node) ==> node.impl in tree.chains
    {
      && node.impl in tree.chains && node.impl !in tree.dirs
      && (Unreferenced(vol, tree, node.impl) || exists size :: Names(vol, tree, node.inode, node.impl, size))
    }

    /** fat32_vfs_write, through any node of a file or a directory.

        With a first cluster, the bytes are laid over its chain and the size is updated (RawStored). For a file
        the volume stays well formed; the size recorded is Recorded, which for a node that agreed with its
        entry is the new length. A directory is overwritten like a file: the source does not look, and the
        volume need not stay well formed. A loose node stays loose: no directory ever learns of it. */
    method Write(node: Node, offset: nat, buf: seq<byte>) returns (n: nat)
      requires Valid() && offset < WORD && |buf| < WORD && node.length < WORD && node.inode in tree.dirs
      requires node.impl == 0 || Backed(node) || node.impl in tree.dirs
      modifies this`disk, this`vol, this`tree, node`length, node`impl
      ensures DiskOk() && Shaped(vol) && n <= |buf| && (n < |buf| ==> Full(vol.fat))
      ensures node.length == NewLength(old(node.length), offset, n) < WORD
      ensures old(node.impl) != 0 ==>
                && node.impl == old(node.impl) && node.impl in old(tree).chains
                && RawStored(old(vol), old(tree).chains[node.impl], vol, node.inode, node.impl, old(node.length), node.length, offset, buf, n)
      ensures old(node.impl in tree.dirs) ==> tree == old(tree)
      ensures !old(node.impl in tree.dirs) ==> Valid() && tree.dirs == old(tree).dirs
      ensures old(node.impl != 0 && Backed(node)) ==>
                forall size :: old(Names(vol, tree, node.inode, node.impl, size)) ==>
                  && StoredAs(old(vol), old(tree), vol, tree, node.inode, node.impl, Recorded(size, old(node.length), offset, n), offset, buf, n)
                  && Names(vol, tree, node.inode, node.impl, Recorded(size, old(node.length), offset, n))
      ensures old(NodeOk(node)) ==>
                NodeOk(node) && Stored(old(vol), old(tree), vol, tree, node.inode, node.impl, old(node.length), node.length, offset, buf, n)
      ensures old(Loose(node)) ==>
                && Loose(node)
                && (old(node.impl) != 0 ==>
                      Stored(old(vol), old(tree), vol, tree, node.inode, node.impl, old(node.length), node.length, offset, buf, n))
                && forall d :: d in tree.dirs ==> 2 <= d < |vol.data| && d < |old(vol).data| && Table(vol, d) == Table(old(vol), d)
    {
      hide Inv, StoredAs, Holds, Outside, Names, Unreferenced, Table, RawStored, Laid;
      ZeroHeadsNothing(vol, tree);
      if |buf| == 0 && node.impl == 0 {
        return 0;
      }
      if node.impl == 0 {
        n := WriteDetached(node, offset, buf);
      } else {
        n := Store(node, offset, buf);
      }
    }

    /** A write inside a file or at its end, then a read. The new content is the old content overlaid with
        the bytes written if and only if these end below 2^32, and the read returns a range of it
        unless its own sum wraps; the entry on disk has the new length. */
    method WriteThenRead(node: Node, offset: nat, buf: seq<byte>, at: nat, size: nat) returns (n: nat, out: seq<byte>)
      requires Valid() && NodeOk(node) && node.inode in tree.dirs && offset <= node.length
      requires offset < WORD && |buf| < WORD && at < WORD && size < WORD && IsChain(vol.fat, tree.chains[node.impl])
      modifies this`disk, this`vol, this`tree, node`length, node`impl
      ensures Valid() && NodeOk(node) && n <= |buf| && IsChain(vol.fat, tree.chains[node.impl]) && |vol.fat| == |vol.data|
      ensures var before, after := old(Content(vol, tree.chains[node.impl], node.length)), Content(vol, tree.chains[node.impl], node.length);
              && |after| == node.length
              && (after == Spliced(before, offset, buf[..n]) <==> offset + n < WORD)
              && (at + size < WORD ==> out == Range(after, at, size))
    {
      hide Inv, StoredAs, RawStored, Holds, Outside, Shaped, IsChain, Content, Written, ReadRange, Range, Spliced;
      ghost var v0, t0, s, len0 := vol, tree, node.impl, node.length;
      FileLength(node);
      n := Write(node, offset, buf);
      StoredContent(v0, t0, vol, tree, node.inode, s, len0, node.length, offset, buf, n);
      Sizes();
      out := Read(node, at, size);
    }

    /** The branch of write for a node without a first cluster. */
    method WriteDetached(node: Node, offset: nat, buf: seq<byte>) returns (n: nat)
      requires Valid() && offset < WORD && 0 < |buf| < WORD && node.inode in tree.dirs
      requires node.impl == 0 && node.length < WORD
      modifies this`disk, this`vol, this`tree, node`length, node`impl
      ensures Valid() && tree.dirs == old(tree).dirs && Loose(node) && n <= |buf| && (n < |buf| ==> Full(vol.fat))
      ensures Shaped(vol) && node.length == NewLength(old(node.length), offset, n)
      ensures forall d :: d in tree.dirs ==> 2 <= d < |vol.data| && d < |old(vol).data| && Table(vol, d) == Table(old(vol), d)
    {
      hide Inv, Stored, Holds, Outside, Names, Unreferenced, RawStored, StoredAs;
      ZeroHeadsNothing(vol, tree);
      var c := AllocateCluster();
      if c == END {
        return 0;
      }
      AddChain(old(vol), tree, c);
      tree := WithChain(tree, c);
      node.impl := c;
      ZeroHeadsNothing(vol, tree);
      n := Store(node, offset, buf);
    }

    /** fat32_vfs_finddir: the first slot before the first unused one that carries the name. For a name
        that does not begin with the deletion mark this is the name's entry in the directory's map, and
        the node returned agrees with it. */
    method FindDir(dir: nat, name: seq<byte>) returns (node: Node?)
      requires Valid() && dir in tree.dirs && IsCString(name)
      ensures 2 <= dir < |vol.data| && SlotsOk(Table(vol, dir), tree, vol.cs)
      ensures match Find(Table(vol, dir), Normal(name))
              case None => node == null
              case Some(e) => node != null && fresh(node) && node.impl == StartOf(e) && node.inode == dir
                              && node.length == SizeOf(e) < WORD && node.isDir == IsDirAttr(AttrOf(e))
      ensures Find(Table(vol, dir), Normal(name)) == Lookup(Table(vol, dir), Normal(name)) <==>
              Normal(name)[0] != DELETED || forall e :: e in Table(vol, dir) ==> NameOf(e) != Normal(name)
      ensures Normal(name)[0] != DELETED && node != null && node.impl != 0 ==> Entered(node) && node.isDir == (node.impl in tree.dirs)
      ensures Normal(name)[0] != DELETED && node != null && node.impl == 0 ==> !node.isDir
    {
      hide Normal, Inv, Holds, Outside, SlotAt, Find, Lookup;
      Sizes();
      DirInTable(vol, tree, dir);
      NormalShape(name);
      FindAgrees(Table(vol, dir), Normal(name));
      var buffer := ReadCluster(dir);
      var entries := Slots(buffer);
      var stored := Format(name);
      var i := 0;
      while i < |entries| && !IsUnused(entries[i])
        invariant 0 <= i <= |entries|
        invariant forall j :: 0 <= j < i ==> !IsUnused(entries[j]) && NameOf(entries[j]) != stored
      {
        if NameOf(entries[i]) == stored {
          var e := entries[i];
          assert e[0] == NameOf(e)[0];
          FindAt(entries, i);
          WithSameSize(e);
          node := new Node(StartOf(e), dir, SizeOf(e), IsDirAttr(AttrOf(e)));
          if e[0] != DELETED {
            FoundNode(vol, tree, dir, i);
          }
          return;
        }
        i := i + 1;
      }
      node := null;
      FindNone(entries, i, stored);
    }

    /** fat32_vfs_create. Fails exactly when the disk or the directory is full, and then changes
        nothing, the cluster taken having been given back. */
    method Create(parent: Node, name: seq<byte>) returns (node: Node?, ghost k: nat)
      requires Valid() && parent.impl in tree.dirs && IsCString(name)
      modifies this`disk, this`vol, this`tree
      ensures Valid() && 2 <= parent.impl < |old(vol).data| && |old(vol).data[parent.impl]| == old(vol).cs
      ensures node == null <==> old(Full(vol.fat)) || DirFull(Table(old(vol), parent.impl))
      ensures node == null ==> vol == old(vol) && tree == old(tree)
      ensures node != null ==>
                && fresh(node) && node.inode == parent.impl && node.length == 0 && !node.isDir
                && 2 <= node.impl < |old(vol).fat| && old(vol).fat[node.impl] == 0 && node.impl < WORD
                && (forall x :: 2 <= x < node.impl ==> old(vol).fat[x] != 0)
                && IsFirstFree(Table(old(vol), parent.impl), k) && old(vol).cs % 32 == 0
                && vol == WithEntry(old(vol), parent.impl, k, node.impl, MakeSlot(Normal(name), 0x20, node.impl, 0))
                && Table(vol, parent.impl) == Table(old(vol), parent.impl)[k := MakeSlot(Normal(name), 0x20, node.impl, 0)]
                && tree == WithChain(old(tree), node.impl)
      ensures node != null && Normal(name)[0] != DELETED ==> NodeOk(node)
      ensures node != null && Normal(name)[0] != DELETED && Normal(name) !in AsMap(Table(old(vol), parent.impl)) ==>
                AsMap(Table(vol, parent.impl)) == AsMap(Table(old(vol), parent.impl))[Normal(name) := MakeSlot(Normal(name), 0x20, node.impl, 0)]
    {
      hide Normal, MakeSlot, Overlay, Slots, Inv, Holds, Outside, WithChain, AsMap;
      DirInTable(vol, tree, parent.impl);
      NormalShape(name);
      Sizes();
      var cluster;
      cluster, k := NewEntry(parent.impl, name, 0x20);
      if cluster == END {
        return null, 0;
      }
      ghost var e := MakeSlot(Normal(name), 0x20, cluster, 0);
      AddFile(old(vol), tree, parent.impl, k, cluster, e);
      if Live(e) && NameOf(e) !in AsMap(Table(old(vol), parent.impl)) {
        CreateIsInsert(Table(old(vol), parent.impl), k, e);
      }
      tree := WithChain(tree, cluster);
      node := new Node(cluster, parent.impl, 0, false);
      WithChainDirs(old(tree), cluster);
    }

    /** What create and mkdir begin with: take a cluster and enter it in the directory; if the directory
        has no free slot, give the cluster back. */
    method NewEntry(dir: nat, name: seq<byte>, attr: byte) returns (cluster: nat, ghost k: nat)
      requires DiskOk() && Shaped(vol) && 2 <= dir < g.N() && IsCString(name)
      modifies this`disk, this`vol
      ensures DiskOk()
      ensures cluster == END <==> old(Full(vol.fat)) || DirFull(Table(old(vol), dir))
      ensures cluster == END ==> vol == old(vol)
      ensures cluster != END ==>
                && 2 <= cluster < |old(vol).fat| && old(vol).fat[cluster] == 0 && (forall x :: 2 <= x < cluster ==> old(vol).fat[x] != 0)
                && IsFirstFree(Table(old(vol), dir), k)
                && vol == WithEntry(old(vol), dir, k, cluster, MakeSlot(Normal(name), attr, cluster, 0))
    {
      cluster := AllocateCluster();
      if cluster == END {
        return END, 0;
      }
      var ok;
      ok, k := CreateEntry(dir, name, attr, cluster, 0);
      if !ok {
        SetFatEntry(cluster, 0);
        assert vol.fat == old(vol).fat;
        return END, 0;
      }
    }

    /** fat32_vfs_mkdir. */
    method Mkdir(parent: Node, name: seq<byte>) returns (node: Node?, ghost k: nat)
      requires Valid() && parent.impl in tree.dirs && IsCString(name)
      modifies this`disk, this`vol, this`tree
      ensures Valid() && 2 <= parent.impl < |old(vol).data| && |old(vol).data[parent.impl]| == old(vol).cs
      ensures node == null <==> old(Full(vol.fat)) || DirFull(Table(old(vol), parent.impl))
      ensures node == null ==> vol == old(vol) && tree == old(tree)
      ensures node != null ==>
                && fresh(node) && node.inode == parent.impl && node.length == 0 && node.isDir
                && 2 <= node.impl < |old(vol).fat| && old(vol).fat[node.impl] == 0 && node.impl < WORD
                && (forall x :: 2 <= x < node.impl ==> old(vol).fat[x] != 0)
                && IsFirstFree(Table(old(vol), parent.impl), k)
                && Table(vol, parent.impl) == Table(old(vol), parent.impl)[k := MakeSlot(Normal(name), 0x10, node.impl, 0)]
                && old(vol).cs % 32 == 0
                && (vol, tree) == WithSubdir(old(vol), old(tree), parent.impl, k, node.impl, MakeSlot(Normal(name), 0x10, node.impl, 0))
    {
      hide Normal, MakeSlot, FreshDir, Overlay, Slots, Inv, Holds, Outside;
      Sizes();
      DirInTable(vol, tree, parent.impl);
      NormalShape(name);
      var cluster;
      cluster, k := NewEntry(parent.impl, name, 0x10);
      if cluster == END {
        return null, 0;
      }
      AddSubdir(old(vol), tree, parent.impl, k, cluster, MakeSlot(Normal(name), 0x10, cluster, 0));
      WriteCluster(cluster, FreshDir(cluster, parent.impl, g.ClusterSize()));
      tree := WithChain(tree, cluster).(dirs := tree.dirs + {cluster});
      node := new Node(cluster, parent.impl, 0, true);
    }

    /** fat32_vfs_unlink of a file or a directory: succeeds exactly when the name is in the directory's map,
        deletes the slot found and frees its chain. What lay below a directory is lost (Unlinked). */
    method Unlink(parent: Node, name: seq<byte>) returns (ok: bool, ghost k: nat)
      requires Valid() && parent.impl in tree.dirs && IsCString(name)
      requires 2 <= parent.impl < |vol.data| && |vol.data[parent.impl]| == vol.cs
      modifies this`disk, this`vol, this`tree
      ensures Valid() && Shaped(vol) && old(vol).cs % 32 == 0
      ensures ok <==> Lookup(Table(old(vol), parent.impl), Normal(name)).Some?
      ensures !ok ==> vol == old(vol) && tree == old(tree)
      ensures ok ==> k < |Table(old(vol), parent.impl)| && Live(Table(old(vol), parent.impl)[k])
                     && Lookup(Table(old(vol), parent.impl), Normal(name)) == Some(Table(old(vol), parent.impl)[k])
                     && (vol, tree) == Unlinked(old(vol), old(tree), parent.impl, k) && |vol.data| == |old(vol).data|
                     && Table(vol, parent.impl) == Table(old(vol), parent.impl)[k := Mark(Table(old(vol), parent.impl)[k])]
      ensures ok ==> (Normal(name) !in AsMap(Table(vol, parent.impl)) <==> UniqueName(Table(old(vol), parent.impl), k))
      ensures ok && UniqueName(Table(old(vol), parent.impl), k) ==>
                AsMap(Table(vol, parent.impl)) == AsMap(Table(old(vol), parent.impl)) - {Normal(name)}
    {
      hide Normal, AsMap, UniqueName, Overlay, Slots, Inv, Holds, Outside, Lookup;
      DirInTable(vol, tree, parent.impl);
      NormalShape(name);
      Sizes();
      var found, i, e, buffer := FindLive(parent.impl, name);
      k := i;
      if !found {
        return false, k;
      }
      assert e[0] == NameOf(e)[0];
      UnlinkIsRemove(Table(vol, parent.impl), k);
      ghost var ch := UnlinkChain(vol, tree, parent.impl, k);
      InvShaped(Unlinked(vol, tree, parent.impl, k).0, Unlinked(vol, tree, parent.impl, k).1);
      DeleteSlot(parent.impl, i, e, buffer, ch);
      tree := Unlinked(old(vol), tree, parent.impl, k).1;
      ok := true;
    }

    /** The search loop of unlink, which skips deleted slots. */
    method FindLive(dir: nat, name: seq<byte>) returns (found: bool, i: nat, e: Slot, buffer: seq<byte>)
      requires DiskOk() && Shaped(vol) && 2 <= dir < g.N() && IsCString(name) && TailUnused(Table(vol, dir))
      ensures buffer == vol.data[dir] && (found <==> Lookup(Table(vol, dir), Normal(name)).Some?)
      ensures found ==> i < |Table(vol, dir)| && e == Table(vol, dir)[i] && Live(e) && NameOf(e) == Normal(name)
                        && Lookup(Table(vol, dir), Normal(name)) == Some(e)
    {
      hide Holds, Outside, Normal, Lookup, SlotAt, MakeSlot, Overlay;
      Sizes();
      buffer := ReadCluster(dir);
      var entries := Slots(buffer);
      var stored := Format(name);
      e := MakeSlot(stored, 0, 0, 0);
      i := 0;
      while i < |entries| && !IsUnused(entries[i]) && !(Live(entries[i]) && NameOf(entries[i]) == stored)
        invariant 0 <= i <= |entries|
        invariant forall j :: 0 <= j < i && Live(entries[j]) ==> NameOf(entries[j]) != stored
      {
        i := i + 1;
      }
      if i == |entries| || IsUnused(entries[i]) {
        assert forall j :: i <= j < |entries| ==> IsUnused(entries[j]);
        assert forall x :: x in entries && Live(x) ==> NameOf(x) != stored;
        LookupNone(entries, stored);
        return false, i, e, buffer;
      }
      e := entries[i];
      LookupAt(entries, i);
      found := true;
    }

    /** The rest of unlink: delete the slot, then free the chain it started. */
    method DeleteSlot(dir: nat, i: nat, e: Slot, buffer: seq<byte>, ghost ch: seq<nat>)
      requires DiskOk() && Shaped(vol) && 2 <= dir < g.N() && buffer == vol.data[dir] && 32 * i + 32 <= |buffer|
      requires StartOf(e) < 2 || (IsChain(vol.fat, ch) && ch[0] == StartOf(e))
      modifies this`disk, this`vol
      ensures DiskOk()
      ensures vol == old(vol).(fat := FreeFrom(old(vol).fat, StartOf(e)), data := old(vol).data[dir := Overlay(buffer, 32 * i, Mark(e))])
    {
      WriteCluster(dir, Overlay(buffer, 32 * i, Mark(e)));
      FreeChain(StartOf(e), ch);
    }

    // ---- runs ----

    /** Follow a path of directory names from the root. */
    method Resolve(path: seq<seq<byte>>) returns (dir: nat, ok: bool)
      requires Valid() && forall i :: 0 <= i < |path| ==> Proper(path[i])
      ensures Shaped(vol)
      ensures DirAt(vol, tree, Normals(path)) == if ok then Some(dir) else None
      ensures ok ==> dir in tree.dirs
    {
      hide Inv, Holds, Outside, Normal, DirAt, Find, Lookup;
      ZeroHeadsNothing(vol, tree);
      RootIsDir(vol, tree);
      dir := root;
      RootAt(vol, tree);
      var i := 0;
      assert path[..0] == [];
      while i < |path|
        invariant 0 <= i <= |path| && dir in tree.dirs && DirAt(vol, tree, Normals(path[..i])) == Some(dir)
      {
        var node := FindDir(dir, path[i]);
        NormalShape(path[i]);
        StepDown(vol, tree, path, i, dir);
        if node == null || !node.isDir {
          NoneBelow(vol, tree, path, i + 1);
          return dir, false;
        }
        dir := node.impl;
        i := i + 1;
      }
      assert path[..i] == path;
      ok := true;
    }

    /** One operation of a run, its directory and file found by name. Writes to directories are not among
        them. */
    method Apply(op: Op) returns (r: Outcome)
      requires Valid() && ProperOp(op) && Shaped(vol) && !WritesDir(View(vol, tree), op)
      modifies this`disk, this`vol, this`tree
      ensures Valid() && Effect(old(vol), old(tree), op, r, vol, tree)
    {
      hide Inv, Holds, Outside, Normal, DirAt, Effect, View, NoRoom, Proper;
      var dir, ok := Resolve(op.path);
      if !ok {
        if !(op.OpCreate? || op.OpMkdir?) {
          TargetAbsent(vol, tree, op);
        }
        NoDirNoRoom(vol, tree, Normals(op.path));
        FailedEffect(vol, tree, op);
        return Failed;
      }
      match op
      case OpCreate(_, _) => r := ApplyCreate(op, dir);
      case OpMkdir(_, _) => r := ApplyMkdir(op, dir);
      case OpWrite(_, _, _, _) => r := ApplyWrite(op, dir);
      case OpRead(_, _, _, _) => r := ApplyRead(op, dir);
      case OpUnlink(_, _) => r := ApplyUnlink(op, dir);
    }

    method ApplyCreate(op: Op, dir: nat) returns (r: Outcome)
      requires Valid() && ProperOp(op) && op.OpCreate? && Shaped(vol) && DirAt(vol, tree, Normals(op.path)) == Some(dir) && dir in tree.dirs
      modifies this`disk, this`vol, this`tree
      ensures Valid() && Effect(old(vol), old(tree), op, r, vol, tree)
    {
      hide Inv, Holds, Outside, Normal, DirAt, Effect, MakeSlot, AsMap, WithEntry, WithChain;
      DirInTable(vol, tree, dir);
      var parent := new Node(dir, 0, 0, true);
      var node;
      ghost var k;
      node, k := Create(parent, op.name);
      if node == null {
        FailedEffect(vol, tree, op);
        return Failed;
      }
      CreateEffect(old(vol), old(tree), op, dir, k, node.impl);
      r := Done;
    }

    method ApplyMkdir(op: Op, dir: nat) returns (r: Outcome)
      requires Valid() && ProperOp(op) && op.OpMkdir? && Shaped(vol) && DirAt(vol, tree, Normals(op.path)) == Some(dir) && dir in tree.dirs
      modifies this`disk, this`vol, this`tree
      ensures Valid() && Effect(old(vol), old(tree), op, r, vol, tree)
    {
      hide Inv, Holds, Outside, Normal, DirAt, Effect, MakeSlot, FreshDir, WithSubdir;
      DirInTable(vol, tree, dir);
      var parent := new Node(dir, 0, 0, true);
      var node;
      ghost var k;
      node, k := Mkdir(parent, op.name);
      if node == null {
        FailedEffect(vol, tree, op);
        return Failed;
      }
      MkdirEffect(old(vol), old(tree), op, dir, k, node.impl);
      r := Done;
    }

    method ApplyWrite(op: Op, dir: nat) returns (r: Outcome)
      requires Valid() && ProperOp(op) && op.OpWrite? && Shaped(vol) && !WritesDir(View(vol, tree), op) && DirAt(vol, tree, Normals(op.path)) == Some(dir) && dir in tree.dirs
      modifies this`disk, this`vol, this`tree
      ensures Valid() && Effect(old(vol), old(tree), op, r, vol, tree)
    {
      hide Inv, Holds, Outside, Normal, DirAt, Effect, View, Find, Lookup, StoredAs, Names, Unreferenced, Table, RawStored;
      NormalShape(op.name);
      TargetItem(vol, tree, op, dir);
      var node := FindDir(dir, op.name);
      if node == null {
        FailedEffect(vol, tree, op);
        return Failed;
      }
      var n := Write(node, op.offset, op.buf);
      if StartOf(Child(old(vol), dir, Normal(op.name)).value) == 0 {
        LooseEffect(old(vol), old(tree), op, dir, vol, tree, n);
      } else {
        WriteEffect(old(vol), old(tree), op, dir, vol, tree, node.length, n);
      }
      r := Wrote(n);
    }

    method ApplyRead(op: Op, dir: nat) returns (r: Outcome)
      requires Valid() && ProperOp(op) && op.OpRead? && Shaped(vol) && DirAt(vol, tree, Normals(op.path)) == Some(dir) && dir in tree.dirs
      ensures Effect(vol, tree, op, r, vol, tree)
    {
      hide Inv, Holds, Outside, Normal, DirAt, Effect, View, Find, Lookup, Names, Table, Raw, ReadRange, Range;
      NormalShape(op.name);
      TargetItem(vol, tree, op, dir);
      var node := FindDir(dir, op.name);
      if node == null {
        FailedEffect(vol, tree, op);
        return Failed;
      }
      var out := [];
      if node.impl != 0 {
        out := Read(node, op.offset, op.size);
      } else {
        ZeroIsEmpty(vol, tree, node.length);
        NothingToRead(op.offset, op.size);
      }
      ReadEffect(vol, tree, op, dir, out);
      r := Got(out);
    }

    method ApplyUnlink(op: Op, dir: nat) returns (r: Outcome)
      requires Valid() && ProperOp(op) && op.OpUnlink? && Shaped(vol) && DirAt(vol, tree, Normals(op.path)) == Some(dir) && dir in tree.dirs
      modifies this`disk, this`vol, this`tree
      ensures Valid() && Effect(old(vol), old(tree), op, r, vol, tree)
    {
      hide Inv, Holds, Outside, Normal, DirAt, Effect, View, Lookup, Slots, AsMap, UniqueName, Unlinked;
      NormalShape(op.name);
      DirInTable(vol, tree, dir);
      Sizes();
      TargetItem(vol, tree, op, dir);
      var parent := new Node(dir, 0, 0, true);
      var ok;
      ghost var k;
      ok, k := Unlink(parent, op.name);
      if !ok {
        FailedEffect(vol, tree, op);
        return Failed;
      }
      UnlinkEffect(old(vol), old(tree), op, dir, k);
      r := Done;
    }

    /** Whether an operation would write to a directory: what its caller can see from the node's flags. */
    method LooksLikeDir(op: Op) returns (yes: bool)
      requires Valid() && ProperOp(op) && Shaped(vol)
      ensures yes <==> WritesDir(View(vol, tree), op)
    {
      hide Inv, Holds, Outside, Normal, DirAt, View, Find, Lookup, Names, Table;
      if !op.OpWrite? {
        return false;
      }
      var dir, ok := Resolve(op.path);
      if !ok {
        TargetAbsent(vol, tree, op);
        return false;
      }
      NormalShape(op.name);
      TargetItem(vol, tree, op, dir);
      var node := FindDir(dir, op.name);
      yes := node != null && node.isDir;
    }

    /** Every run of file operations from a well-formed volume, including those that fail because the
        disk or a directory is full, up to the first that would write to a directory. `hist` holds the
        volume before and after each operation; all of them are well formed, and each operation has its
        effect. If the volume was plain and the operations tame, the volume ends as the map of paths and
        contents that the ideal file system ends in, and every answer was the ideal one. */
    method Run(ops: seq<Op>) returns (rs: seq<Outcome>, ghost hist: seq<(Vol, Tree)>)
      requires Valid() && forall i :: 0 <= i < |ops| ==> ProperOp(ops[i])
      modifies this`disk, this`vol, this`tree
      ensures Valid() && |rs| <= |ops| && |hist| == |rs| + 1 && hist[0] == (old(vol), old(tree)) && hist[|rs|] == (vol, tree)
      ensures forall i {:trigger ops[i]} :: 0 <= i < |rs| ==> Effect(hist[i].0, hist[i].1, ops[i], rs[i], hist[i + 1].0, hist[i + 1].1)
      ensures Shaped(vol) && Shaped(old(vol))
      ensures |rs| < |ops| ==> WritesDir(View(vol, tree), ops[|rs|])
      ensures Plain(old(vol), old(tree)) && TameAll(View(old(vol), old(tree)), ops[..|rs|], rs) ==>
                && View(vol, tree) == Replay(View(old(vol), old(tree)), ops[..|rs|], rs)
                && AnswersAll(View(old(vol), old(tree)), ops[..|rs|], rs)
    {
      hide Inv, Holds, Outside, Effect, View, Plain, Replay, Tame, Answers, Shaped, WritesDir;
      ZeroHeadsNothing(vol, tree);
      rs, hist := [], [(vol, tree)];
      var i := 0;
      while i < |ops|
        invariant 0 <= i <= |ops| && Valid() && |rs| == i && |hist| == i + 1 && hist[0] == (old(vol), old(tree)) && hist[i] == (vol, tree)
        invariant forall j {:trigger ops[j]} :: 0 <= j < i ==> Effect(hist[j].0, hist[j].1, ops[j], rs[j], hist[j + 1].0, hist[j + 1].1)
      {
        ZeroHeadsNothing(vol, tree);
        var stop := LooksLikeDir(ops[i]);
        if stop {
          break;
        }
        var r := Apply(ops[i]);
        rs, hist := rs + [r], hist + [(vol, tree)];
        i := i + 1;
      }
      ZeroHeadsNothing(vol, tree);
      if Plain(old(vol), old(tree)) && TameAll(View(old(vol), old(tree)), ops[..i], rs) {
        RunRefines(hist, ops[..i], rs, i);
        assert ops[..i][..i] == ops[..i] && rs[..i] == rs;
      }
    }

    /** An instance of a write to a directory: make one in the root, then write 32 bytes there that look like
        an entry for a free cluster. No reading of the chains and directories of the result is well
        formed. */
    method WriteIntoDir(name: seq<byte>, x: nat) returns (node: Node?)
      requires Valid() && Shaped(vol) && IsCString(name) && Normal(name)[0] != DELETED && x < WORD
      requires 2 <= x < |vol.fat| && vol.fat[x] == 0 && exists c :: 2 <= c < x && vol.fat[c] == 0
      modifies this`disk, this`vol, this`tree
      ensures node != null ==> Shaped(vol) && forall t: Tree :: t.root == root ==> !Inv(vol, t)
    {
      hide Inv, Holds, Outside, Normal, MakeSlot, WithSubdir, RawStored, Names, Unreferenced, StoredAs;
      RootIsDir(vol, tree);
      DirInTable(vol, tree, root);
      NormalShape(name);
      var parent := new Node(root, 0, 0, true);
      ghost var k;
      node, k := Mkdir(parent, name);
      if node == null {
        return;
      }
      InvShaped(vol, tree);
      ghost var v1, e1 := vol, MakeSlot(Normal(name), 0x10, node.impl, 0);
      MadeFacts(old(vol), old(tree), root, k, node.impl, e1);
      assert node.impl < x;
      var e := MakeSlot(Normal(name), 0x20, x, 0);
      var n := Write(node, 0, e);
      DirOverwritten(v1, vol, root, k, node.impl, e, n, node.length);
      forall t: Tree | t.root == root ensures !Inv(vol, t) {
        if root in t.dirs {
          StaleWriteBreaks(vol, t, root, k, node.impl);
        } else if Inv(vol, t) {
          RootIsDir(vol, t);
        }
      }
    }

    /** Creating a file under a new name, writing to it any number of times and unlinking it gives back
        exactly the free clusters and the directory map from before, if and only if the name does not
        begin with the deletion mark; otherwise unlink does not find it, and its clusters are lost. */
    method Lifecycle(parent: Node, name: seq<byte>, writes: seq<(nat, seq<byte>)>) returns (node: Node?)
      requires Valid() && parent.impl in tree.dirs && IsCString(name)
      requires 2 <= parent.impl < |vol.data| && Normal(name) !in AsMap(Table(vol, parent.impl))
      requires forall i :: 0 <= i < |writes| ==> writes[i].0 < WORD && |writes[i].1| < WORD
      modifies this`disk, this`vol, this`tree
      ensures Valid() && parent.impl < |vol.data| && AsMap(Table(vol, parent.impl)) == old(AsMap(Table(vol, parent.impl)))
      ensures FreeSet(vol.fat) == old(FreeSet(vol.fat)) <==> node == null || Normal(name)[0] != DELETED
      ensures node != null && Normal(name)[0] == DELETED ==>
                && node.impl in tree.chains && Unreferenced(vol, tree, node.impl)
                && old(FreeSet(vol.fat)) == FreeSet(vol.fat) + (set c | c in tree.chains[node.impl])
    {
      hide Normal, Inv, Alive, Lost, AsMap, FreeSet, Holds, Outside, Shaped, Slots, Names, Unreferenced;
      ghost var d, free := parent.impl, FreeSet(vol.fat);
      ghost var k, table;
      node, k, table := CreateHeld(parent, name);
      if node == null {
        return;
      }
      WriteAll(node, writes, d, k, Normal(name), table, free, Normal(name)[0] != DELETED);
      DirInTable(vol, tree, d);
      UnlinkHeld(parent, name, node, k, table, free);
    }

    /** The first of these operations: the new file is held by its slot, or lost. */
    method CreateHeld(parent: Node, name: seq<byte>) returns (node: Node?, ghost k: nat, ghost table: seq<Slot>)
      requires Valid() && parent.impl in tree.dirs && IsCString(name)
      requires 2 <= parent.impl < |vol.data| && Normal(name) !in AsMap(Table(vol, parent.impl))
      modifies this`disk, this`vol, this`tree
      ensures Valid() && Shaped(vol) && parent.impl in tree.dirs && 2 <= parent.impl < |vol.data|
      ensures node == null ==> vol == old(vol) && tree == old(tree)
      ensures node != null ==>
                && fresh(node) && node.inode == parent.impl && AsMap(table) == old(AsMap(Table(vol, parent.impl)))
                && if Normal(name)[0] != DELETED
                   then NodeOk(node) && Alive(vol, tree, parent.impl, k, node.impl, Normal(name), table, old(FreeSet(vol.fat)))
                   else Loose(node) && Lost(vol, tree, parent.impl, node.impl, table, old(FreeSet(vol.fat)))
    {
      hide Normal, MakeSlot, Inv, Alive, Lost, Slots, WithEntry, WithChain, AsMap, FreeSet, Holds, Outside, Shaped;
      ghost var n, d := Normal(name), parent.impl;
      DirInTable(vol, tree, d);
      NormalShape(name);
      table := Table(vol, d);
      node, k := Create(parent, name);
      if node == null {
        return;
      }
      WithChainDirs(old(tree), node.impl);
      DirInTable(vol, tree, d);
      ghost var e := MakeSlot(n, 0x20, node.impl, 0);
      if n[0] != DELETED {
        AliveBorn(old(vol), old(tree), d, k, node.impl, e);
      } else {
        LostBorn(old(vol), old(tree), d, k, node.impl, e);
        table := table[k := e];
        LostFacts(vol, tree, d, node.impl, table, FreeSet(old(vol).fat));
      }
    }

    /** The last of them: a file that its slot holds gives its clusters back, a lost one is not found. */
    method UnlinkHeld(parent: Node, name: seq<byte>, node: Node, ghost k: nat, ghost table: seq<Slot>, ghost free: set<nat>)
      requires Valid() && Shaped(vol) && parent.impl in tree.dirs && IsCString(name)
      requires 2 <= parent.impl < |vol.data| && |vol.data[parent.impl]| == vol.cs
      requires if Normal(name)[0] != DELETED then Alive(vol, tree, parent.impl, k, node.impl, Normal(name), table, free)
               else Lost(vol, tree, parent.impl, node.impl, table, free)
      modifies this`disk, this`vol, this`tree
      ensures Valid() && parent.impl < |vol.data| && AsMap(Table(vol, parent.impl)) == AsMap(table)
      ensures FreeSet(vol.fat) == free <==> Normal(name)[0] != DELETED
      ensures Normal(name)[0] == DELETED ==>
                && node.impl in tree.chains && Unreferenced(vol, tree, node.impl)
                && free == FreeSet(vol.fat) + (set c | c in tree.chains[node.impl])
    {
      hide Normal, Inv, Alive, Lost, Slots, Unlinked, AsMap, FreeSet, Holds, Outside, Shaped, Lookup, Unreferenced, UniqueName;
      ghost var n, d := Normal(name), parent.impl;
      if n[0] != DELETED {
        AliveEnds(vol, tree, d, k, node.impl, n, table, free);
        AliveSlot(vol, tree, d, k, node.impl, n, table, free);
      } else {
        LostFacts(vol, tree, d, node.impl, table, free);
        MarkedIsAbsent(table, n);
      }
      var ok;
      ghost var k';
      ok, k' := Unlink(parent, name);
    }

    method WriteAll(node: Node, writes: seq<(nat, seq<byte>)>, ghost d: nat, ghost k: nat, ghost n: Name,
                    ghost table: seq<Slot>, ghost free: set<nat>, ghost found: bool)
      requires Valid() && Shaped(vol) && node.inode == d && d in tree.dirs
      requires forall i :: 0 <= i < |writes| ==> writes[i].0 < WORD && |writes[i].1| < WORD
      requires if found then NodeOk(node) && Alive(vol, tree, d, k, node.impl, n, table, free)
               else Loose(node) && Lost(vol, tree, d, node.impl, table, free)
      modifies this`disk, this`vol, this`tree, node`length, node`impl
      ensures Valid() && Shaped(vol) && node.impl == old(node.impl) && tree.dirs == old(tree).dirs
      ensures if found then NodeOk(node) && Alive(vol, tree, d, k, node.impl, n, table, free)
              else Loose(node) && Lost(vol, tree, d, node.impl, table, free)
    {
      hide Inv, Alive, Lost, Holds, Outside, Shaped, Names, Unreferenced;
      var i := 0;
      while i < |writes|
        invariant 0 <= i <= |writes| && Valid() && Shaped(vol) && node.impl == old(node.impl) && tree.dirs == old(tree).dirs
        invariant if found then NodeOk(node) && Alive(vol, tree, d, k, node.impl, n, table, free)
                  else Loose(node) && Lost(vol, tree, d, node.impl, table, free)
      {
        WriteHeld(node, writes[i].0, writes[i].1, d, k, n, table, free, found);
        i := i + 1;
      }
    }

    /** One of these writes. */
    method WriteHeld(node: Node, offset: nat, buf: seq<byte>, ghost d: nat, ghost k: nat, ghost n: Name,
                     ghost table: seq<Slot>, ghost free: set<nat>, ghost found: bool)
      requires Valid() && Shaped(vol) && node.inode == d && d in tree.dirs && offset < WORD && |buf| < WORD
      requires if found then NodeOk(node) && Alive(vol, tree, d, k, node.impl, n, table, free)
               else Loose(node) && Lost(vol, tree, d, node.impl, table, free)
      modifies this`disk, this`vol, this`tree, node`length, node`impl
      ensures Valid() && Shaped(vol) && node.impl == old(node.impl) && tree.dirs == old(tree).dirs
      ensures if found then NodeOk(node) && Alive(vol, tree, d, k, node.impl, n, table, free)
              else Loose(node) && Lost(vol, tree, d, node.impl, table, free)
    {
      hide Inv, Alive, Lost, Stored, Holds, Outside, Table, Unreferenced, Names;
      ghost var v, t, len := vol, tree, node.length;
      ZeroHeadsNothing(vol, tree);
      if found {
        FileLength(node);
      } else {
        LostFacts(vol, tree, d, node.impl, table, free);
      }
      var m := Write(node, offset, buf);
      DirInTable(vol, tree, d);
      if found {
        AliveKept(v, t, vol, tree, d, k, node.impl, n, table, free, len, node.length, offset, buf, m);
      } else {
        LostKept(v, t, vol, tree, d, node.impl, table, free, len, node.length, offset, buf, m);
      }
    }
  }

  lemma LostFacts(v: Vol, t: Tree, d: nat, s: nat, table: seq<Slot>, free: set<nat>)
    requires Inv(v, t) && Lost(v, t, d, s, table, free)
    ensures s in t.chains && Shaped(v) && 2 <= d < |v.data| && Table(v, d) == table && Unreferenced(v, t, s)
    ensures free == FreeSet(v.fat) + (set c | c in t.chains[s]) && FreeSet(v.fat) != free
  {
    FileChain(v, t, s);
    var clusters := set c | c in t.chains[s];
    assert t.chains[s][0] in t.chains[s] && s in clusters;
    assert s !in FreeSet(v.fat) && s in free;
  }

  lemma RawDone(v0: Vol, ch0: seq<nat>, v1: Vol, ch: seq<nat>, k: nat, v: Vol, d: nat, s: nat, len0: nat, len: nat,
                off: nat, buf: seq<byte>, n: nat)
    requires RawSteps(v0, ch0, v1, ch, k, v, d, s, len0, len, off, buf, n) && len0 < WORD
    ensures RawStored(v0, ch0, v, d, s, len0, len, off, buf, n)
    ensures Shaped(v) && n <= |buf| && (n < |buf| ==> Full(v.fat)) && len < WORD
  {
  }

  lemma MadeFacts(v: Vol, t: Tree, d: nat, k: nat, c: nat, e: Slot)
    requires Inv(v, t) && 2 <= c < |v.fat| && v.fat[c] == 0 && d in t.dirs && 2 <= d < |v.data| && v.cs % 32 == 0 && k < v.cs / 32
    ensures var (v', t') := WithSubdir(v, t, d, k, c, e);
            && v'.fat == v.fat[c := END] && |v'.data| == |v.data| && c != d
            && c in t'.chains && t'.chains[c] == [c] && c in t'.dirs && d in t'.dirs
  {
    FreeIsNoDir(v, t, d, c);
  }

  /** What 32 bytes written at the start of a directory do: its first slot is these bytes, no other cluster
      changes hands, and the entry for the directory in its parent still says so. */
  lemma DirOverwritten(v: Vol, w: Vol, d: nat, k: nat, c: nat, e: Slot, n: nat, len: nat)
    requires Shaped(v) && 2 <= c < |v.data| && 2 <= d < |v.data| && c != d && k < |Table(v, d)|
    requires Refers(Table(v, d)[k]) && StartOf(Table(v, d)[k]) == c && IsDirAttr(AttrOf(Table(v, d)[k]))
    requires RawStored(v, [c], w, d, c, 0, len, 0, e, n)
    ensures Shaped(w) && |w.data| == |v.data| && forall y :: 0 <= y < |v.fat| && y != c ==> w.fat[y] == v.fat[y]
    ensures Table(w, c)[0] == e && k < |Table(w, d)|
    ensures Refers(Table(w, d)[k]) && StartOf(Table(w, d)[k]) == c && IsDirAttr(AttrOf(Table(w, d)[k]))
  {
    hide Laid, Slots, Overlay;
    var v1: Vol, ch: seq<nat>, j: nat :| RawSteps(v, [c], v1, ch, j, w, d, c, 0, len, 0, e, n);
    DirLaid(v, c, v1, ch, e, n);
    assert Table(v1, d) == Table(v, d);
    if j < |Table(v1, d)| {
      DirResized(v1, d, j, len, c);
    }
  }

  lemma DirLaid(v: Vol, c: nat, v1: Vol, ch: seq<nat>, e: Slot, n: nat)
    requires Shaped(v) && 2 <= c < |v.data| && Laid(v, [c], v1, ch, 0, e, n)
    ensures ch == [c] && n == 32 && Shaped(v1) && |v1.data| == |v.data| && Table(v1, c)[0] == e
    ensures forall y :: 0 <= y < |v.data| && y != c ==> v1.fat[y] == v.fat[y] && v1.data[y] == v.data[y]
  {
    assert Span(1, v1.cs) == v1.cs;
    if |ch| > 1 {
      SpanMonotone(1, |ch| - 1, v1.cs);
    }
    SpanMonotone(1, |ch|, v1.cs);
    assert ch == [c];
    assert ch[1..] == [] && Raw(v1.data, ch) == v1.data[c] + [];
    assert Slots(v1.data[c])[0] == SlotAt(v1.data[c], 0);
    forall i | 0 <= i < 32 ensures SlotAt(v1.data[c], 0)[i] == e[i] {
      assert SlotAt(v1.data[c], 0)[i] == v1.data[c][32 * 0 + i];
      assert Raw(v1.data, ch)[i] == e[i - 0];
    }
  }

  lemma DirResized(v: Vol, d: nat, j: nat, len: nat, c: nat)
    requires Shaped(v) && 2 <= d < |v.data| && 2 <= c < |v.data| && c != d && v.cs % 32 == 0 && j < |Table(v, d)| && len < WORD
    ensures var w := Resized(v, d, j, len);
            && Shaped(w) && w.fat == v.fat && |w.data| == |v.data| && Table(w, c) == Table(v, c)
            && Table(w, d) == Table(v, d)[j := WithSize(Table(v, d)[j], len)]
  {
    PutSlot(v.data[d], j, WithSize(Table(v, d)[j], len));
  }

  lemma NeededSeek(ch0: seq<nat>, ch: seq<nat>, cs: nat, off: nat, buf: seq<byte>, target: nat)
    requires |buf| > 0 && Span(target, cs) <= off && (|ch| > |ch0| ==> |ch| <= target + 1)
    ensures AsNeeded(ch0, ch, cs, off, buf)
  {
    if |ch| > |ch0| {
      SpanMonotone(|ch| - 1, target, cs);
    }
  }

  lemma NeededStep(ch0: seq<nat>, before: seq<nat>, ch: seq<nat>, cs: nat, off: nat, buf: seq<byte>, k: nat, n: nat)
    requires AsNeeded(ch0, before, cs, off, buf) && n < |buf| && off + n == Span(k + 1, cs)
    requires |ch| == |before| || |ch| == k + 2
    ensures AsNeeded(ch0, ch, cs, off, buf)
  {
  }

  /** A write into an unreferenced chain leaves it unreferenced, and every table as it was. */
  lemma StoredLoose(v0: Vol, t0: Tree, v: Vol, t: Tree, d: nat, s: nat, len0: nat, len: nat, off: nat, buf: seq<byte>, n: nat)
    requires Inv(v0, t0) && s !in t0.dirs && d in t0.dirs && Unreferenced(v0, t0, s)
    requires Stored(v0, t0, v, t, d, s, len0, len, off, buf, n)
    ensures Shaped(v) && Unreferenced(v, t, s)
    ensures forall x :: x in t0.dirs ==> 2 <= x < |v.data| && x < |v0.data| && Table(v, x) == Table(v0, x)
  {
    forall x | x in t0.dirs ensures 2 <= x < |v.data| && x < |v0.data| && Table(v, x) == Table(v0, x) {
      StoredUnlisted(v0, t0, v, t, d, s, len0, len, off, buf, n, x);
    }
    UnlistedStays(v0, t0, v, t, s);
  }

  /** The chain that the freeing loop of unlink clears. */
  lemma UnlinkChain(v: Vol, t: Tree, d: nat, k: nat) returns (ch: seq<nat>)
    requires Inv(v, t) && d in t.dirs && 2 <= d < |v.data| && v.cs % 32 == 0 && k < |Table(v, d)|
    requires Live(Table(v, d)[k]) && Table(v, d)[k][0] != DOT
    ensures var e := Table(v, d)[k];
            && (StartOf(e) < 2 || (IsChain(v.fat, ch) && ch[0] == StartOf(e)))
            && var (v', t') := Unlinked(v, t, d, k);
               && Inv(v', t') && Table(v', d) == Table(v, d)[k := Mark(e)] && t'.root == t.root
               && v' == v.(fat := FreeFrom(v.fat, StartOf(e)), data := v.data[d := Overlay(v.data[d], 32 * k, Mark(e))])
  {
    hide Subtree, Inv;
    InvShaped(v, t);
    var e := Table(v, d)[k];
    UnlinkAny(v, t, d, k);
    ch := [];
    if StartOf(e) == 0 {
      assert FreeFrom(v.fat, 0) == v.fat;
    } else {
      ch := t.chains[StartOf(e)];
      FileChain(v, t, StartOf(e));
      FreeFromChain(v.fat, ch);
    }
  }

  lemma WithChainDirs(t: Tree, c: nat)
    ensures WithChain(t, c).dirs == t.dirs && WithChain(t, c).root == t.root && c in WithChain(t, c).chains
  {
  }

  lemma AliveSlot(v: Vol, t: Tree, d: nat, k: nat, s: nat, n: Name, table: seq<Slot>, free: set<nat>)
    requires Alive(v, t, d, k, s, n, table, free)
    ensures Shaped(v) && 2 <= d < |v.data| && k < |Table(v, d)| && !IsDirAttr(AttrOf(Table(v, d)[k]))
    ensures table[k := Mark(Table(v, d)[k])] == Table(v, d)[k := Mark(Table(v, d)[k])]
  {
  }

  lemma RootAt(v: Vol, t: Tree)
    requires Shaped(v)
    ensures Normals([]) == [] && DirAt(v, t, []) == Some(t.root)
  {
  }

  /** One step along a path. */
  lemma StepDown(v: Vol, t: Tree, path: seq<seq<byte>>, i: nat, d: nat)
    requires Shaped(v) && i < |path| && DirAt(v, t, Normals(path[..i])) == Some(d)
    ensures DirAt(v, t, Normals(path[..i + 1])) == Subdir(Child(v, d, Normal(path[i])))
  {
    var p := Normals(path[..i + 1]);
    assert p[..|p| - 1] == Normals(path[..i]);
  }

  /** Where a path ends, every longer one does. */
  lemma {:induction false} NoneBelow(v: Vol, t: Tree, path: seq<seq<byte>>, i: nat)
    requires Shaped(v) && i <= |path| && DirAt(v, t, Normals(path[..i])) == None
    ensures DirAt(v, t, Normals(path)) == None
    decreases |path| - i
  {
    if i < |path| {
      var p := Normals(path[..i + 1]);
      assert p[..|p| - 1] == Normals(path[..i]);
      NoneBelow(v, t, path, i + 1);
    } else {
      assert path[..i] == path;
    }
  }

  lemma NoDirNoRoom(v: Vol, t: Tree, p: Path)
    requires Shaped(v) && DirAt(v, t, p) == None
    ensures NoRoom(v, t, p)
  {
  }

  lemma NothingToRead(offset: nat, size: nat)
    ensures Range([], offset, size) == []
  {
  }

}
