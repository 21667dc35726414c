/** The kernel heap of kernel/mm/allocator/kheap.c: a doubly linked list of blocks laid end to end, with
    first-fit search, splitting, and coalescing with both neighbours.

    Headers sit in memory at their block's address. HEADER_SIZE is a positive constant of the heap. */
module KHeap {
  import opened Common

  const MAGIC := 0x1234_ABCD

  // ---- the block list as a value ----

  datatype Block = Block(size: nat, free: bool)

  /** Bytes that the first `i` blocks occupy, headers included. */
  ghost function Off(bs: seq<Block>, h: nat, i: nat): nat
    requires i <= |bs|
  {
    if i == 0 then 0 else Off(bs, h, i - 1) + h + bs[i - 1].size
  }

  /** Blocks `k` and `k + 1` are both free. */
  ghost predicate FreePair(bs: seq<Block>, k: int) {
    0 <= k < |bs| - 1 && bs[k].free && bs[k + 1].free
  }

  ghost predicate NoFreeNeighbours(bs: seq<Block>) {
    forall k :: !FreePair(bs, k)
  }

  /** The list tiles a heap of `total` bytes, and no two neighbours are both free. */
  ghost predicate Tiles(bs: seq<Block>, h: nat, total: nat) {
    |bs| > 0 && Off(bs, h, |bs|) == total && NoFreeNeighbours(bs)
  }

  /** The request rounded up to a multiple of 8, in 32-bit arithmetic. */
  function Round(size: nat): (r: nat)
    requires size < WORD
    ensures r % 8 == 0
    ensures r >= size <==> size <= 0xFFFF_FFF8
    ensures size <= 0xFFFF_FFF8 ==> r < size + 8
    ensures size > 0xFFFF_FFF8 ==> r == 0
  {
    (size + 7) % WORD / 8 * 8
  }

  /** Block `i` becomes a used block of `r` bytes, what is left over a free block if it is large
      enough to be one. */
  ghost function Alloc(bs: seq<Block>, h: nat, i: nat, r: nat): seq<Block>
    requires i < |bs| && r <= bs[i].size
  {
    if bs[i].size >= r + h + 8 then bs[..i] + [Block(r, false), Block(bs[i].size - r - h, true)] + bs[i + 1..]
    else bs[i := Block(bs[i].size, false)]
  }

  /** Block `i` takes in the block after it. */
  ghost function Merge(bs: seq<Block>, h: nat, i: nat): seq<Block>
    requires i + 1 < |bs|
  {
    bs[..i] + [Block(bs[i].size + h + bs[i + 1].size, bs[i].free)] + bs[i + 2..]
  }

  ghost function MergeIfFree(bs: seq<Block>, h: nat, i: nat): seq<Block>
    requires i < |bs|
  {
    if i + 1 < |bs| && bs[i + 1].free then Merge(bs, h, i) else bs
  }

  /** Block `i` becomes free and is joined with a free successor and a free predecessor. */
  ghost function Release(bs: seq<Block>, h: nat, i: nat): seq<Block>
    requires i < |bs|
  {
    var b1 := MergeIfFree(bs[i := Block(bs[i].size, true)], h, i);
    if i > 0 && bs[i - 1].free then Merge(b1, h, i - 1) else b1
  }

  // ---- offsets ----

  lemma {:induction false} OffPrefix(bs: seq<Block>, cs: seq<Block>, h: nat, i: nat)
    requires i <= |bs| && i <= |cs| && forall k :: 0 <= k < i ==> bs[k].size == cs[k].size
    ensures Off(bs, h, i) == Off(cs, h, i)
  {
    if i > 0 { OffPrefix(bs, cs, h, i - 1); }
  }

  lemma {:induction false} OffLess(bs: seq<Block>, h: nat, i: nat, j: nat)
    requires i < j <= |bs|
    ensures Off(bs, h, i) + h + bs[i].size <= Off(bs, h, j)
  {
    if i + 1 < j { OffLess(bs, h, i, j - 1); }
  }

  /** Merging two blocks moves no other block. */
  lemma {:induction false} OffMerge(bs: seq<Block>, h: nat, i: nat, j: nat)
    requires i + 1 < |bs| && j <= |bs|
    ensures j <= i ==> Off(Merge(bs, h, i), h, j) == Off(bs, h, j)
    ensures i + 2 <= j ==> Off(Merge(bs, h, i), h, j - 1) == Off(bs, h, j)
  {
    var cs := Merge(bs, h, i);
    if j <= i {
      OffPrefix(bs, cs, h, j);
    } else if j == i + 2 {
      OffPrefix(bs, cs, h, i);
      assert Off(bs, h, i + 2) == Off(bs, h, i + 1) + h + bs[i + 1].size;
      assert Off(bs, h, i + 1) == Off(bs, h, i) + h + bs[i].size;
    } else if j > i + 2 {
      OffMerge(bs, h, i, j - 1);
      assert cs[j - 2] == bs[j - 1];
    }
  }

  /** Splitting is the inverse of merging. */
  lemma SplitMerges(bs: seq<Block>, h: nat, i: nat, r: nat)
    requires i < |bs| && bs[i].size >= r + h + 8
    ensures Merge(Alloc(bs, h, i, r), h, i) == bs[i := Block(bs[i].size, false)]
  {
  }

  // ---- what the operations keep ----

  lemma AllocTiles(bs: seq<Block>, h: nat, total: nat, i: nat, r: nat)
    requires Tiles(bs, h, total) && i < |bs| && bs[i].free && r <= bs[i].size
    ensures Tiles(Alloc(bs, h, i, r), h, total)
  {
    var cs, us := Alloc(bs, h, i, r), bs[i := Block(bs[i].size, false)];
    OffPrefix(us, bs, h, |bs|);
    if bs[i].size >= r + h + 8 {
      SplitMerges(bs, h, i, r);
      OffMerge(cs, h, i, |cs|);
      forall k ensures !FreePair(cs, k) {
        assert k < i ==> !FreePair(bs, k);
        assert k > i ==> !FreePair(bs, k - 1);
      }
    } else {
      forall k ensures !FreePair(cs, k) {
        assert !FreePair(bs, k);
      }
    }
  }

  /** A freed block joined with its successor leaves at most one free pair: itself and its
      predecessor. */
  lemma JoinNext(bs: seq<Block>, h: nat, i: nat)
    requires i < |bs| && forall k :: k != i - 1 && k != i ==> !FreePair(bs, k)
    ensures forall k :: k != i - 1 ==> !FreePair(MergeIfFree(bs, h, i), k)
  {
    var cs := MergeIfFree(bs, h, i);
    forall k | k != i - 1 ensures !FreePair(cs, k) {
      assert k < i - 1 ==> !FreePair(bs, k);
      assert k > i ==> !FreePair(bs, k) && !FreePair(bs, k + 1);
      assert !FreePair(bs, i + 1);
    }
  }

  /** Joining the only free pair leaves none. */
  lemma JoinPrev(bs: seq<Block>, h: nat, j: nat)
    requires FreePair(bs, j) && forall k :: k != j ==> !FreePair(bs, k)
    ensures NoFreeNeighbours(Merge(bs, h, j))
  {
    var cs := Merge(bs, h, j);
    forall k ensures !FreePair(cs, k) {
      assert k < j ==> !FreePair(bs, k);
      assert k >= j ==> !FreePair(bs, k + 1);
    }
  }

  lemma MergeShape(bs: seq<Block>, h: nat, i: nat)
    requires i < |bs|
    ensures i + 1 < |bs| ==> var cs := Merge(bs, h, i);
              |cs| == |bs| - 1 && cs[..i] == bs[..i] && cs[i].free == bs[i].free
    ensures forall k :: 0 <= k < i ==> MergeIfFree(bs, h, i)[k] == bs[k]
    ensures |MergeIfFree(bs, h, i)| > i && MergeIfFree(bs, h, i)[i].free == bs[i].free
  {
  }

  lemma ReleaseTiles(bs: seq<Block>, h: nat, total: nat, i: nat)
    requires Tiles(bs, h, total) && i < |bs| && !bs[i].free
    ensures Tiles(Release(bs, h, i), h, total)
  {
    hide Off, Merge;
    var us := bs[i := Block(bs[i].size, true)];
    var b1 := MergeIfFree(us, h, i);
    OffPrefix(us, bs, h, |bs|);
    MergeShape(us, h, i);
    forall k | k != i - 1 && k != i ensures !FreePair(us, k) {
      assert !FreePair(bs, k);
    }
    JoinNext(us, h, i);
    if i + 1 < |bs| && bs[i + 1].free {
      OffMerge(us, h, i, |us|);
    }
    if i > 0 && bs[i - 1].free {
      assert b1[i - 1] == bs[i - 1] && b1[i].free;
      JoinPrev(b1, h, i - 1);
      MergeShape(b1, h, i - 1);
      OffMerge(b1, h, i - 1, |b1|);
    } else {
      assert i > 0 ==> b1[i - 1] == bs[i - 1];
    }
  }

  /** Freeing the block just allocated restores the list. */
  lemma AllocReleaseIsIdentity(bs: seq<Block>, h: nat, total: nat, i: nat, r: nat)
    requires Tiles(bs, h, total) && i < |bs| && bs[i].free && r <= bs[i].size
    ensures !Alloc(bs, h, i, r)[i].free
    ensures Release(Alloc(bs, h, i, r), h, i) == bs
  {
    var cs, us := Alloc(bs, h, i, r), bs[i := Block(bs[i].size, false)];
    assert !FreePair(bs, i - 1) && !FreePair(bs, i);
    assert i > 0 ==> cs[i - 1] == bs[i - 1];
    var freed := cs[i := Block(cs[i].size, true)];
    if bs[i].size >= r + h + 8 {
      assert freed[i + 1].free && |freed| == |bs| + 1;
      assert Merge(freed, h, i) == bs;
    } else {
      assert freed == bs;
    }
    assert MergeIfFree(freed, h, i) == bs;
  }

  /** When nothing is in use, the heap is its single initial block. */
  lemma AllFree(bs: seq<Block>, h: nat, total: nat)
    requires Tiles(bs, h, total) && forall i :: 0 <= i < |bs| ==> bs[i].free
    ensures bs == [Block(total - h, true)]
  {
    assert !FreePair(bs, 0);
    assert Off(bs, h, 1) == h + bs[0].size;
  }

  // ---- the heap as a map from live pointers to sizes ----

  ghost function Payload(bs: seq<Block>, h: nat, base: nat, i: nat): nat
    requires i <= |bs|
  {
    base + Off(bs, h, i) + h
  }

  /** `m` maps the payload address of every used block, and nothing else, to its size. */
  ghost predicate Describes(bs: seq<Block>, h: nat, base: nat, m: map<nat, nat>) {
    && (forall k {:trigger Payload(bs, h, base, k)} :: 0 <= k < |bs| && !bs[k].free ==>
          Payload(bs, h, base, k) in m && m[Payload(bs, h, base, k)] == bs[k].size)
    && forall p :: p in m ==> UsedAt(bs, h, base, p)
  }

  ghost predicate UsedAt(bs: seq<Block>, h: nat, base: nat, p: nat) {
    exists k {:trigger Payload(bs, h, base, k)} :: 0 <= k < |bs| && !bs[k].free && p == Payload(bs, h, base, k)
  }

  lemma PayloadsDiffer(bs: seq<Block>, h: nat, base: nat, i: nat, j: nat)
    requires h > 0 && i < |bs| && j < |bs| && i != j
    ensures Payload(bs, h, base, i) != Payload(bs, h, base, j)
  {
    if i < j { OffLess(bs, h, i, j); } else { OffLess(bs, h, j, i); }
  }

  /** The payload of a free block is not live. */
  lemma FreeNotLive(bs: seq<Block>, h: nat, base: nat, m: map<nat, nat>, i: nat)
    requires h > 0 && Describes(bs, h, base, m) && i < |bs| && bs[i].free
    ensures Payload(bs, h, base, i) !in m
  {
    var p := Payload(bs, h, base, i);
    if p in m {
      assert UsedAt(bs, h, base, p);
      var k :| 0 <= k < |bs| && !bs[k].free && p == Payload(bs, h, base, k);
      PayloadsDiffer(bs, h, base, i, k);
    }
  }

  /** Live payloads lie inside the heap and do not overlap. */
  lemma LivePayloadsApart(bs: seq<Block>, h: nat, base: nat, total: nat, m: map<nat, nat>, p: nat, q: nat)
    requires h > 0 && Tiles(bs, h, total) && Describes(bs, h, base, m) && p in m && q in m
    ensures base + h <= p && p + m[p] <= base + total
    ensures p < q ==> p + m[p] + h <= q
  {
    assert UsedAt(bs, h, base, p) && UsedAt(bs, h, base, q);
    var i :| 0 <= i < |bs| && !bs[i].free && p == Payload(bs, h, base, i);
    var j :| 0 <= j < |bs| && !bs[j].free && q == Payload(bs, h, base, j);
    OffLess(bs, h, i, |bs|);
    if i < j {
      OffLess(bs, h, i, j);
    } else if j < i {
      OffLess(bs, h, j, i);
    }
  }

  /** Allocation adds one binding, under a pointer that was not live. */
  lemma AllocDescribes(bs: seq<Block>, h: nat, base: nat, m: map<nat, nat>, i: nat, r: nat)
    requires h > 0 && Describes(bs, h, base, m) && i < |bs| && bs[i].free && r <= bs[i].size
    ensures Payload(bs, h, base, i) !in m
    ensures Describes(Alloc(bs, h, i, r), h, base, m[Payload(bs, h, base, i) := Alloc(bs, h, i, r)[i].size])
  {
    hide Off;
    var cs, p := Alloc(bs, h, i, r), Payload(bs, h, base, i);
    var m' := m[p := cs[i].size];
    FreeNotLive(bs, h, base, m, i);
    AllocOffs(bs, h, i, r);
    var d := |cs| - |bs|;
    forall k | 0 <= k < |cs| && !cs[k].free
      ensures Payload(cs, h, base, k) in m' && m'[Payload(cs, h, base, k)] == cs[k].size
    {
      if k < i {
        assert cs[k] == bs[k] && Payload(cs, h, base, k) == Payload(bs, h, base, k);
        PayloadsDiffer(bs, h, base, i, k);
      } else if k > i {
        assert cs[k] == bs[k - d] && Payload(cs, h, base, k) == Payload(bs, h, base, k - d);
        PayloadsDiffer(bs, h, base, i, k - d);
      }
    }
    forall q | q in m' ensures UsedAt(cs, h, base, q) {
      if q == p {
        assert Payload(cs, h, base, i) == p;
      } else {
        assert UsedAt(bs, h, base, q);
        var k :| 0 <= k < |bs| && !bs[k].free && q == Payload(bs, h, base, k);
        assert k < i ==> cs[k] == bs[k] && q == Payload(cs, h, base, k);
        assert k > i ==> cs[k + d] == bs[k] && q == Payload(cs, h, base, k + d);
      }
    }
  }

  /** Allocation moves no block. */
  lemma AllocOffs(bs: seq<Block>, h: nat, i: nat, r: nat)
    requires i < |bs| && r <= bs[i].size
    ensures var cs := Alloc(bs, h, i, r);
            && (forall k {:trigger Off(cs, h, k)} :: 0 <= k <= i ==> Off(cs, h, k) == Off(bs, h, k))
            && (forall k {:trigger Off(cs, h, k)} :: i + |cs| - |bs| < k <= |cs| ==> Off(cs, h, k) == Off(bs, h, k - (|cs| - |bs|)))
  {
    var cs, us := Alloc(bs, h, i, r), bs[i := Block(bs[i].size, false)];
    forall k | 0 <= k <= i ensures Off(cs, h, k) == Off(bs, h, k) {
      OffPrefix(cs, bs, h, k);
    }
    if |cs| > |bs| {
      SplitMerges(bs, h, i, r);
      forall k | i + 1 < k <= |cs| ensures Off(cs, h, k) == Off(bs, h, k - 1) {
        OffMerge(cs, h, i, k);
        OffPrefix(us, bs, h, k - 1);
      }
    } else {
      forall k | i < k <= |cs| ensures Off(cs, h, k) == Off(bs, h, k) {
        OffPrefix(us, bs, h, k);
      }
    }
  }

  /** Merging a free block into its predecessor keeps the map when that one is free too. */
  lemma MergeDescribes(bs: seq<Block>, h: nat, base: nat, m: map<nat, nat>, i: nat)
    requires Describes(bs, h, base, m) && FreePair(bs, i)
    ensures Describes(Merge(bs, h, i), h, base, m)
  {
    var cs := Merge(bs, h, i);
    forall k | 0 <= k < |cs| && !cs[k].free
      ensures Payload(cs, h, base, k) in m && m[Payload(cs, h, base, k)] == cs[k].size
    {
      var j := if k < i then k else k + 1;
      assert cs[k] == bs[j];
      OffMerge(bs, h, i, j);
      assert Payload(cs, h, base, k) == Payload(bs, h, base, j);
    }
    forall q | q in m ensures UsedAt(cs, h, base, q) {
      assert UsedAt(bs, h, base, q);
      var j :| 0 <= j < |bs| && !bs[j].free && q == Payload(bs, h, base, j);
      var k := if j < i then j else j - 1;
      OffMerge(bs, h, i, j);
      assert cs[k] == bs[j] && q == Payload(cs, h, base, k);
    }
  }

  lemma FreedDescribes(bs: seq<Block>, h: nat, base: nat, m: map<nat, nat>, i: nat)
    requires h > 0 && Describes(bs, h, base, m) && i < |bs| && !bs[i].free
    ensures Describes(bs[i := Block(bs[i].size, true)], h, base, m - {Payload(bs, h, base, i)})
  {
    var us, p := bs[i := Block(bs[i].size, true)], Payload(bs, h, base, i);
    var m' := m - {p};
    forall k | 0 <= k < |us| ensures Payload(us, h, base, k) == Payload(bs, h, base, k) {
      OffPrefix(us, bs, h, k);
    }
    forall k | 0 <= k < |us| && !us[k].free
      ensures Payload(us, h, base, k) in m' && m'[Payload(us, h, base, k)] == us[k].size
    {
      PayloadsDiffer(bs, h, base, i, k);
    }
    forall q | q in m' ensures UsedAt(us, h, base, q) {
      assert UsedAt(bs, h, base, q);
      var k :| 0 <= k < |bs| && !bs[k].free && q == Payload(bs, h, base, k);
      assert q == Payload(us, h, base, k);
    }
  }

  /** Releasing a block removes exactly its binding. */
  lemma ReleaseDescribes(bs: seq<Block>, h: nat, base: nat, m: map<nat, nat>, i: nat)
    requires h > 0 && Describes(bs, h, base, m) && i < |bs| && !bs[i].free
    ensures Describes(Release(bs, h, i), h, base, m - {Payload(bs, h, base, i)})
  {
    hide Describes;
    var us, m' := bs[i := Block(bs[i].size, true)], m - {Payload(bs, h, base, i)};
    FreedDescribes(bs, h, base, m, i);
    if i + 1 < |us| && us[i + 1].free {
      MergeDescribes(us, h, base, m', i);
    }
    var b1 := MergeIfFree(us, h, i);
    if i > 0 && bs[i - 1].free {
      assert b1[i - 1] == bs[i - 1] && b1[i].free;
      MergeDescribes(b1, h, base, m', i - 1);
    }
  }

  // ---- the linked list in memory ----

  datatype Header = Header(magic: nat, size: nat, isFree: bool, next: nat, prev: nat)

  /** The `i`-th address, or NULL before the first and after the last. */
  function Nth(at: seq<nat>, i: int): nat {
    if 0 <= i < |at| then at[i] else NULL
  }

  ghost predicate Distinct(at: seq<nat>) {
    && (forall i, j :: 0 <= i < j < |at| ==> at[i] != at[j])
    && forall i :: 0 <= i < |at| ==> at[i] != NULL
  }

  function HeaderOf(at: seq<nat>, bs: seq<Block>, i: nat): Header
    requires i < |bs|
  {
    Header(MAGIC, bs[i].size, bs[i].free, Nth(at, i + 1), Nth(at, i - 1))
  }

  /** Memory holds the list: the header of block `i` is at address `at[i]`, its next and prev fields
      leading to its neighbours. */
  ghost predicate Holds(mem: map<nat, Header>, at: seq<nat>, bs: seq<Block>) {
    && |at| == |bs| && Distinct(at)
    && forall i {:trigger HeaderAt(mem, at, bs, i)} :: 0 <= i < |at| ==> HeaderAt(mem, at, bs, i)
  }

  ghost predicate HeaderAt(mem: map<nat, Header>, at: seq<nat>, bs: seq<Block>, i: nat) {
    i < |at| == |bs| && at[i] in mem && mem[at[i]] == HeaderOf(at, bs, i)
  }

  /** Every header ever written, also one that coalescing has since taken out of the list, is marked
      used exactly while its block's pointer is live. */
  ghost predicate Flagged(mem: map<nat, Header>, h: nat, live: map<nat, nat>) {
    forall a {:trigger mem[a]} :: a in mem ==> mem[a].magic == MAGIC && (mem[a].isFree <==> a + h !in live)
  }

  /** `mem` has the headers of `mem0`, marked as they were there. */
  ghost predicate MarksKept(mem0: map<nat, Header>, mem: map<nat, Header>) {
    && mem.Keys == mem0.Keys
    && forall a {:trigger mem[a]} {:trigger mem0[a]} :: a in mem ==> mem[a].magic == mem0[a].magic && mem[a].isFree == mem0[a].isFree
  }

  lemma SameMarks(mem0: map<nat, Header>, mem: map<nat, Header>)
    requires mem == mem0
    ensures MarksKept(mem0, mem)
  {
  }

  lemma MarksJoin(mem0: map<nat, Header>, mem1: map<nat, Header>, mem: map<nat, Header>)
    requires MarksKept(mem0, mem1) && MarksKept(mem1, mem)
    ensures MarksKept(mem0, mem)
  {
  }

  lemma SetBlock(mem: map<nat, Header>, at: seq<nat>, bs: seq<Block>, i: nat, b: Block)
    requires Holds(mem, at, bs) && i < |bs|
    ensures at[i] in mem && Holds(mem[at[i] := mem[at[i]].(size := b.size, isFree := b.free)], at, bs[i := b])
  {
    assert HeaderAt(mem, at, bs, i);
    var mem', bs' := mem[at[i] := mem[at[i]].(size := b.size, isFree := b.free)], bs[i := b];
    forall k | 0 <= k < |at| ensures HeaderAt(mem', at, bs', k) {
      assert HeaderAt(mem, at, bs, k);
    }
  }

  /** The links of block `i` lead to the headers of its neighbours. */
  lemma Neighbours(mem: map<nat, Header>, at: seq<nat>, bs: seq<Block>, i: nat)
    requires Holds(mem, at, bs) && i < |bs|
    ensures HeaderAt(mem, at, bs, i)
    ensures mem[at[i]].next == Nth(at, i + 1) && mem[at[i]].prev == Nth(at, i - 1)
    ensures i + 1 < |at| ==> HeaderAt(mem, at, bs, i + 1) && mem[at[i]].next != NULL && at[i + 1] != at[i]
    ensures i > 0 ==> HeaderAt(mem, at, bs, i - 1) && mem[at[i]].prev != NULL
  {
    assert HeaderAt(mem, at, bs, i);
    assert i + 1 < |at| ==> HeaderAt(mem, at, bs, i + 1);
    assert i > 0 ==> HeaderAt(mem, at, bs, i - 1);
  }

  /** `t'` is `t` with `x` put in at index `i`. */
  ghost predicate Inserted<T>(t: seq<T>, i: nat, x: T, t': seq<T>) {
    && i <= |t| && |t'| == |t| + 1 && t'[i] == x
    && (forall k {:trigger t'[k]} :: 0 <= k < i ==> t'[k] == t[k])
    && forall k {:trigger t'[k]} :: i < k < |t'| ==> t'[k] == t[k - 1]
  }

  /** The header writes of a split: a new block `y` at address `b` behind the block at `a`. */
  function InsertMem(mem: map<nat, Header>, a: nat, b: nat, y: Block): map<nat, Header>
    requires a in mem && a != b && (mem[a].next != NULL ==> mem[a].next in mem)
  {
    var next := mem[a].next;
    var m1 := mem[b := Header(MAGIC, y.size, y.free, next, a)];
    var m2 := if next != NULL then m1[next := m1[next].(prev := b)] else m1;
    m2[a := m2[a].(next := b)]
  }

  lemma InsertHolds(mem: map<nat, Header>, at: seq<nat>, bs: seq<Block>, i: nat, b: nat, y: Block,
                    at': seq<nat>, bs': seq<Block>)
    requires Holds(mem, at, bs) && i < |bs| && b !in at && b != NULL
    requires Inserted(at, i + 1, b, at') && Inserted(bs, i + 1, y, bs')
    ensures at[i] in mem && at[i] != b && (mem[at[i]].next != NULL ==> mem[at[i]].next in mem)
    ensures Holds(InsertMem(mem, at[i], b, y), at', bs')
  {
    Neighbours(mem, at, bs, i);
    var mem' := InsertMem(mem, at[i], b, y);
    forall k | 0 <= k < |at'| ensures HeaderAt(mem', at', bs', k) {
      assert k <= i ==> HeaderAt(mem, at, bs, k);
      assert k > i + 1 ==> HeaderAt(mem, at, bs, k - 1);
      assert at'[i] == at[i] && (i + 1 < |at| ==> at'[i + 2] == at[i + 1]);
    }
  }

  /** The header writes that take the successor of the block at `a` out of the list. */
  function RemoveMem(mem: map<nat, Header>, a: nat): map<nat, Header>
    requires a in mem && mem[a].next in mem && (mem[mem[a].next].next != NULL ==> mem[mem[a].next].next in mem)
  {
    var after := mem[mem[a].next].next;
    var m1 := mem[a := mem[a].(next := after)];
    if after != NULL then m1[after := m1[after].(prev := a)] else m1
  }

  lemma RemoveHolds(mem: map<nat, Header>, at: seq<nat>, bs: seq<Block>, i: nat, at': seq<nat>, bs': seq<Block>)
    requires Holds(mem, at, bs) && i + 1 < |bs|
    requires Inserted(at', i + 1, at[i + 1], at) && Inserted(bs', i + 1, bs[i + 1], bs)
    ensures at[i] in mem && mem[at[i]].next == at[i + 1] && at[i + 1] in mem
    ensures mem[at[i + 1]].next != NULL ==> mem[at[i + 1]].next in mem
    ensures Holds(RemoveMem(mem, at[i]), at', bs')
  {
    Neighbours(mem, at, bs, i);
    Neighbours(mem, at, bs, i + 1);
    forall k | 0 <= k < |at'| ensures at'[k] == at[if k <= i then k else k + 1] && bs'[k] == bs[if k <= i then k else k + 1] {
      assert k > i ==> at[k + 1] == at'[k] && bs[k + 1] == bs'[k];
      assert k <= i ==> at[k] == at'[k] && bs[k] == bs'[k];
    }
    forall k | 0 <= k < |at'| ensures HeaderAt(RemoveMem(mem, at[i]), at', bs', k) {
      RemovedHeader(mem, at, bs, i, at', bs', k);
    }
  }

  lemma RemovedHeader(mem: map<nat, Header>, at: seq<nat>, bs: seq<Block>, i: nat, at': seq<nat>, bs': seq<Block>, k: nat)
    requires Holds(mem, at, bs) && i + 1 < |bs| && |at'| == |bs'| == |bs| - 1 && k < |at'|
    requires forall j :: 0 <= j < |at'| ==> at'[j] == at[if j <= i then j else j + 1] && bs'[j] == bs[if j <= i then j else j + 1]
    requires at[i] in mem && mem[at[i]].next == at[i + 1] && at[i + 1] in mem
    requires mem[at[i + 1]].next == Nth(at, i + 2) && (mem[at[i + 1]].next != NULL ==> mem[at[i + 1]].next in mem)
    ensures HeaderAt(RemoveMem(mem, at[i]), at', bs', k)
  {
    assert HeaderAt(mem, at, bs, if k <= i then k else k + 1);
  }

  // ---- where the headers are ----

  ghost function Addrs(bs: seq<Block>, h: nat, base: nat): (at: seq<nat>)
    ensures |at| == |bs| && forall i :: 0 <= i < |at| ==> at[i] == base + Off(bs, h, i)
  {
    seq(|bs|, i requires 0 <= i < |bs| => base + Off(bs, h, i))
  }

  lemma AddrsSame(bs: seq<Block>, h: nat, base: nat, i: nat, b: Block)
    requires i < |bs| && b.size == bs[i].size
    ensures Addrs(bs[i := b], h, base) == Addrs(bs, h, base)
  {
    forall k | 0 <= k < |bs| ensures Off(bs[i := b], h, k) == Off(bs, h, k) {
      OffPrefix(bs[i := b], bs, h, k);
    }
  }

  lemma AddrsMerge(bs: seq<Block>, h: nat, base: nat, i: nat)
    requires i + 1 < |bs|
    ensures var at := Addrs(bs, h, base);
            Inserted(Addrs(Merge(bs, h, i), h, base), i + 1, at[i + 1], at)
  {
    forall k | 0 <= k < |bs| && k != i + 1 ensures Off(bs, h, k) == Off(Merge(bs, h, i), h, if k <= i then k else k - 1) {
      OffMerge(bs, h, i, k);
    }
  }

  lemma AddrsSplit(bs: seq<Block>, h: nat, base: nat, i: nat, r: nat)
    requires h > 0 && base > 0 && i < |bs| && bs[i].size >= r + h + 8
    ensures var at := Addrs(bs, h, base);
            at[i] + h + r !in at && Inserted(at, i + 1, at[i] + h + r, Addrs(Alloc(bs, h, i, r), h, base))
  {
    var at, cs := Addrs(bs, h, base), Alloc(bs, h, i, r);
    AllocOffs(bs, h, i, r);
    assert Off(cs, h, i + 1) == Off(cs, h, i) + h + r;
    forall k | 0 <= k < |bs| ensures at[k] != at[i] + h + r {
      if k < i { OffLess(bs, h, k, i); } else if k > i { OffLess(bs, h, i, k); }
    }
  }

  lemma AddrsDistinct(bs: seq<Block>, h: nat, base: nat)
    requires h > 0 && base > 0
    ensures Distinct(Addrs(bs, h, base))
  {
    forall i, j | 0 <= i < j < |bs| ensures Addrs(bs, h, base)[i] != Addrs(bs, h, base)[j] {
      OffLess(bs, h, i, j);
    }
  }

  /** First fit: block `i` is the first free one of at least `r` bytes. */
  ghost predicate FirstFit(bs: seq<Block>, i: nat, r: nat) {
    && i < |bs| && bs[i].free && bs[i].size >= r
    && forall j :: 0 <= j < i ==> !(bs[j].free && bs[j].size >= r)
  }

  ghost predicate NoFit(bs: seq<Block>, r: nat) {
    forall j :: 0 <= j < |bs| ==> !(bs[j].free && bs[j].size >= r)
  }

  lemma Undo(bs: seq<Block>, h: nat, base: nat, total: nat, i: nat, r: nat)
    requires Tiles(bs, h, total) && FirstFit(bs, i, r)
    ensures i < |bs| && r <= bs[i].size && i < |Alloc(bs, h, i, r)| && !Alloc(bs, h, i, r)[i].free
    ensures Payload(Alloc(bs, h, i, r), h, base, i) == Payload(bs, h, base, i)
    ensures Release(Alloc(bs, h, i, r), h, i) == bs
  {
    AllocReleaseIsIdentity(bs, h, total, i, r);
    AllocOffs(bs, h, i, r);
  }

  lemma AllocSize(bs: seq<Block>, h: nat, i: nat, r: nat)
    requires i < |bs| && r <= bs[i].size
    ensures i < |Alloc(bs, h, i, r)| && Alloc(bs, h, i, r)[i].size >= r
  {
  }

  /** How much of a block is taken: the size asked for, if what is left can hold a header and 8 bytes more,
      which then are a free block of their own; otherwise all of it. */
  lemma AllocExact(bs: seq<Block>, h: nat, i: nat, r: nat)
    requires i < |bs| && r <= bs[i].size
    ensures var cs := Alloc(bs, h, i, r);
            && cs[..i] == bs[..i] && i < |cs|
            && if bs[i].size >= r + h + 8
               then |cs| == |bs| + 1 && cs[i] == Block(r, false) && cs[i + 1] == Block(bs[i].size - r - h, true) && cs[i + 2..] == bs[i + 1..]
               else |cs| == |bs| && cs[i] == Block(bs[i].size, false) && cs[i + 1..] == bs[i + 1..]
  {
  }

  // ---- the allocator ----

  class Heap {
    const start: nat
    const total: nat
    const h: nat                     // HEADER_SIZE
    var mem: map<nat, Header>
    ghost var list: seq<Block>
    ghost var live: map<nat, nat>    // live pointers and the sizes of their blocks

    ghost predicate Valid()
      reads this
    {
      && 0 < h <= total && 0 < start && start + total <= WORD && total + 8 < WORD
      && Tiles(list, h, total)
      && Describes(list, h, start, live)
      && Holds(mem, Addrs(list, h, start), list)
      && Flagged(mem, h, live)
    }

    /** The list part of kheap_init. */
    constructor (start: nat, total: nat, h: nat)
      requires 0 < h <= total && 0 < start && start + total <= WORD && total + 8 < WORD
      ensures Valid() && list == [Block(total - h, true)] && live == map[]
      ensures this.start == start && this.total == total && this.h == h
      ensures mem == map[start := Header(0x1234_ABCD, total - h, true, NULL, NULL)]
    {
      this.start, this.total, this.h := start, total, h;
      mem := map[start := Header(MAGIC, total - h, true, NULL, NULL)];
      list := [Block(total - h, true)];
      live := map[];
      new;
      assert Off(list, h, 1) == h + list[0].size;
      assert HeaderAt(mem, Addrs(list, h, start), list, 0);
    }

    /** kmalloc: first fit. Fails exactly when the request is empty or no free block holds the rounded
        size; otherwise one live pointer is added. */
    method Malloc(size: nat) returns (p: nat)
      requires Valid() && size < WORD
      modifies this
      ensures Valid() && old(mem).Keys <= mem.Keys
      ensures p == NULL <==> size == 0 || NoFit(old(list), Round(size))
      ensures p == NULL ==> list == old(list) && live == old(live) && mem == old(mem)
      ensures p != NULL ==> p !in old(live) && p in live && live == old(live)[p := live[p]] && live[p] >= Round(size)
      ensures p != NULL ==> (live[p] >= size <==> size <= 0xFFFF_FFF8)
      ensures p != NULL ==> exists i: nat :: FirstFit(old(list), i, Round(size)) && p == Payload(old(list), h, start, i)
                              && live[p] == if old(list)[i].size >= Round(size) + h + 8 then Round(size) else old(list)[i].size
      ensures p != NULL ==> exists i: nat :: FirstFit(old(list), i, Round(size))
                                             && View(list, live, [p]) == Allocated(h, start, View(old(list), old(live), []), i, Round(size))
    {
      hide Holds, Tiles, Describes, Alloc, Flagged;
      if size == 0 {
        return NULL;
      }
      var r := Round(size);
      FirstHeader();
      var curr := start;
      ghost var i := 0;
      ghost var at := Addrs(list, h, start);
      while curr != NULL
        invariant mem == old(mem) && list == old(list) && live == old(live)
        invariant 0 <= i <= |list| && curr == Nth(at, i)
        invariant forall j :: 0 <= j < i ==> !(list[j].free && list[j].size >= r)
        decreases |list| - i
      {
        Neighbours(mem, at, list, i);
        if mem[curr].isFree && mem[curr].size >= r {
          AllocSize(list, h, i, r);
          Take(curr, r, i);
          p := curr + h;
          LivePayloadsApart(list, h, start, total, live, p, p);
          AllocExact(old(list), h, i, r);
          assert FirstFit(old(list), i, r) && View(list, live, [p]) == Allocated(h, start, View(old(list), old(live), []), i, r);
          return;
        }
        curr := mem[curr].next;
        i := i + 1;
      }
      p := NULL;
    }

    /** Freeing the pointer that kmalloc has just returned restores the block list. */
    method MallocFree(size: nat) returns (p: nat)
      requires Valid() && size < WORD
      modifies this
      ensures Valid() && list == old(list) && live == old(live)
    {
      hide Holds, Tiles, Describes, Alloc, Release, Flagged;
      p := Malloc(size);
      if p != NULL {
        ghost var i: nat :| FirstFit(old(list), i, Round(size))
                            && View(list, live, [p]) == Allocated(h, start, View(old(list), old(live), []), i, Round(size));
        Undo(old(list), h, start, total, i, Round(size));
        LiveHasHeader(p);
        ghost var j := Free(p);
        SamePayload(Alloc(old(list), h, i, Round(size)), h, start, i, j);
        assert live == old(live);
      }
    }

    lemma FirstHeader()
      requires Valid()
      ensures |list| > 0 && Addrs(list, h, start)[0] == start
    {
    }

    /** The header of a live pointer lies in front of it. */
    lemma LiveHasHeader(p: nat)
      requires Valid() && p in live
      ensures p >= h && p - h in mem && p != NULL
    {
      hide Holds, Tiles, Describes, Off, Flagged;
      var i := BlockOf(list, h, start, live, p);
      HeaderBefore(list, h, start, i);
      Neighbours(mem, Addrs(list, h, start), list, i);
    }

    /** The body of kmalloc's search loop once a block has been found. */
    method Take(curr: nat, r: nat, ghost i: nat)
      requires Valid() && i < |list| && list[i].free && r <= list[i].size && curr == Addrs(list, h, start)[i]
      modifies this
      ensures Valid() && list == Alloc(old(list), h, i, r) && old(mem).Keys <= mem.Keys
      ensures var p := Payload(old(list), h, start, i);
              p !in old(live) && live == old(live)[p := list[i].size]
    {
      hide Holds, Tiles, Describes, Off, Alloc, Inserted, Flagged;
      ghost var at, bs := Addrs(list, h, start), list;
      AllocTiles(bs, h, total, i, r);
      AllocDescribes(bs, h, start, live, i, r);
      Neighbours(mem, at, bs, i);
      AllocSize(bs, h, i, r);
      ghost var live' := live[Payload(bs, h, start, i) := Alloc(bs, h, i, r)[i].size];
      if mem[curr].size >= r + h + 8 {
        SplitHolds(mem, bs, h, start, i, r);
        SplitFlagged(mem, bs, h, start, live, i, r);
        Split(curr, r);
      } else {
        KeptHolds(mem, bs, h, start, i, r);
        TakenFlagged(mem, h, live, curr, Alloc(bs, h, i, r)[i].size);
      }
      mem := mem[curr := mem[curr].(isFree := false)];
      live := live';
      list := Alloc(bs, h, i, r);
    }

    /** The split: a new free block behind the one that keeps `r` bytes. */
    method Split(curr: nat, r: nat)
      requires curr in mem && mem[curr].size >= r + h && h > 0
      requires mem[curr].next != NULL ==> mem[curr].next in mem && mem[curr].next != curr && mem[curr].next != curr + h + r
      modifies this`mem
      ensures mem == SplitMem(old(mem), h, curr, r)
    {
      var new_block := curr + h + r;
      mem := mem[new_block := Header(MAGIC, mem[curr].size - r - h, true, mem[curr].next, curr)];
      if mem[curr].next != NULL {
        mem := mem[mem[curr].next := mem[mem[curr].next].(prev := new_block)];
      }
      mem := mem[curr := mem[curr].(next := new_block)];
      mem := mem[curr := mem[curr].(size := r)];
    }

    /** kfree of NULL or of any pointer whose header has been written, so of every pointer that kmalloc
        has ever returned. A live pointer is removed and its block, block `i` of the list, joined with
        its free neighbours. For any other pointer nothing changes: the header is still marked free,
        even when coalescing has taken it out of the list. */
    method Free(p: nat) returns (ghost i: nat)
      requires Valid() && (p == NULL || (p >= h && p - h in mem))
      modifies this
      ensures Valid() && mem.Keys == old(mem).Keys
      ensures p in old(live) ==>
                && i < |old(list)| && !old(list)[i].free && p == Payload(old(list), h, start, i)
                && list == Release(old(list), h, i) && live == old(live) - {p}
      ensures p !in old(live) ==> list == old(list) && live == old(live) && mem == old(mem)
    {
      hide Holds, Tiles, Off, Merge, Inserted, Payload, Describes, Release, MarksKept;
      i := 0;
      if p == NULL {
        NullNotLive(list, h, start, live);
        return;
      }
      ghost var bs := list;
      var header: nat := p - h;
      if mem[header].magic != MAGIC {
        return;
      }
      if mem[header].isFree {
        return;
      }
      i := BlockOf(bs, h, start, live, p);
      HeaderBefore(bs, h, start, i);
      ReleaseTiles(bs, h, total, i);
      ReleaseDescribes(bs, h, start, live, i);
      Coalesce(header, bs, i);
      FreedFlagged(old(mem), mem, h, live, header);
      list := Release(bs, h, i);
      live := live - {p};
    }

    /** The writing part of kfree: mark the block free, then coalesce with both neighbours. */
    method Coalesce(header: nat, ghost bs: seq<Block>, ghost i: nat)
      requires h > 0 && start > 0 && i < |bs| && Holds(mem, Addrs(bs, h, start), bs) && header == Addrs(bs, h, start)[i]
      modifies this`mem
      ensures Holds(mem, Addrs(Release(bs, h, i), h, start), Release(bs, h, i))
      ensures header in old(mem) && MarksKept(old(mem)[header := old(mem)[header].(isFree := true)], mem)
    {
      hide Holds, Off, Inserted, Merge, MarksKept;
      ghost var us := bs[i := Block(bs[i].size, true)];
      SetBlock(mem, Addrs(bs, h, start), bs, i, us[i]);
      AddrsSame(bs, h, start, i, us[i]);
      Neighbours(mem, Addrs(bs, h, start), bs, i);
      mem := mem[header := mem[header].(isFree := true)];
      ghost var mem1 := mem;
      SameMarks(mem1, mem);
      Neighbours(mem, Addrs(us, h, start), us, i);
      if mem[header].next != NULL && mem[mem[header].next].isFree {
        Join(header, us, i);
      }
      ghost var b1, mem2 := MergeIfFree(us, h, i), mem;
      MergeIfFreeAt(us, h, start, i);
      Neighbours(mem, Addrs(b1, h, start), b1, i);
      if mem[header].prev != NULL && mem[mem[header].prev].isFree {
        Join(mem[header].prev, b1, i - 1);
        MarksJoin(mem1, mem2, mem);
      }
    }

    /** Any sequence of requests: allocations, and frees of pointers that were returned earlier, live or
        not. `history` holds the block list, the live pointers and the pointers returned so far, after
        each request; every entry follows from the one before. */
    method Run(requests: seq<Request>) returns (given: seq<nat>, ghost history: seq<View>)
      requires Valid() && forall i :: 0 <= i < |requests| && requests[i].Get? ==> requests[i].size < WORD
      modifies this
      ensures Valid() && |history| == |requests| + 1
      ensures history[0] == View(old(list), old(live), []) && history[|requests|] == View(list, live, given)
      ensures forall n :: 0 <= n < |requests| ==> Follows(h, start, history[n], requests[n], history[n + 1])
    {
      hide Holds, Tiles, Describes, Follows, Flagged;
      given := [];
      history := [View(list, live, given)];
      var n := 0;
      while n < |requests|
        invariant 0 <= n <= |requests| && Valid() && |history| == n + 1
        invariant forall i :: 0 <= i < |given| ==> given[i] >= h && given[i] - h in mem
        invariant history[0] == View(old(list), old(live), []) && history[n] == View(list, live, given)
        invariant forall i :: 0 <= i < n ==> Follows(h, start, history[i], requests[i], history[i + 1])
      {
        given := Serve(requests[n], given);
        history := history + [View(list, live, given)];
        n := n + 1;
      }
    }

    method Serve(request: Request, given: seq<nat>) returns (given': seq<nat>)
      requires Valid() && (request.Get? ==> request.size < WORD)
      requires forall i :: 0 <= i < |given| ==> given[i] >= h && given[i] - h in mem
      modifies this
      ensures Valid() && forall i :: 0 <= i < |given'| ==> given'[i] >= h && given'[i] - h in mem
      ensures Follows(h, start, View(old(list), old(live), given), request, View(list, live, given'))
    {
      hide Holds, Tiles, Describes, Flagged, Alloc, Release, NoFit, FirstFit, Payload;
      given' := given;
      match request
      case Get(size) =>
        var p := Malloc(size);
        if p != NULL {
          LiveHasHeader(p);
          given' := given + [p];
          ghost var i: nat :| FirstFit(old(list), i, Round(size))
                              && View(list, live, [p]) == Allocated(h, start, View(old(list), old(live), []), i, Round(size));
          assert View(list, live, given') == Allocated(h, start, View(old(list), old(live), given), i, Round(size));
        }
      case Put(k) =>
        if k < |given| {
          ghost var i := Free(given[k]);
          assert given[k] in old(live) ==> IsUsed(h, start, old(list), i, given[k]);
        }
    }

    /** Freeing every live pointer, in any order, returns the heap to its single initial block. */
    method FreeAll(ptrs: seq<nat>)
      requires Valid() && Lists(ptrs, live)
      modifies this
      ensures Valid() && live == map[] && list == [Block(total - h, true)]
    {
      hide Holds, Tiles, Describes, Payload, Release, Flagged, Lists;
      var k := 0;
      assert ptrs[0..] == ptrs;
      while k < |ptrs|
        invariant 0 <= k <= |ptrs| && Valid() && Lists(ptrs[k..], live)
      {
        ListsNext(ptrs, k, live);
        LiveHasHeader(ptrs[k]);
        ghost var _ := Free(ptrs[k]);
        k := k + 1;
      }
      ListsNone(ptrs[k..], live);
      NothingLive(list, h, start, total);
    }

    /** One half of coalescing: the block at `a` takes in its successor. */
    method Join(a: nat, ghost bs: seq<Block>, ghost i: nat)
      requires h > 0 && start > 0 && i + 1 < |bs| && Holds(mem, Addrs(bs, h, start), bs) && a == Addrs(bs, h, start)[i]
      modifies this`mem
      ensures Holds(mem, Addrs(Merge(bs, h, i), h, start), Merge(bs, h, i)) && MarksKept(old(mem), mem)
    {
      hide Holds, Off, Merge, Inserted;
      JoinHolds(mem, bs, h, start, i);
      var next := mem[a].next;
      mem := mem[a := mem[a].(size := mem[a].size + h + mem[next].size)];
      mem := mem[a := mem[a].(next := mem[next].next)];
      if mem[a].next != NULL {
        mem := mem[mem[a].next := mem[mem[a].next].(prev := a)];
      }
    }
  }

  /** A client request: allocate, or free the `k`-th pointer ever returned. */
  datatype Request = Get(size: nat) | Put(k: nat)

  /** What a client can know: the block list, the live pointers, and all pointers returned so far. */
  datatype View = View(list: seq<Block>, live: map<nat, nat>, given: seq<nat>)

  /** `w` is what request `r` makes of `v`: first fit, or the release of a live pointer. */
  ghost predicate Follows(h: nat, base: nat, v: View, r: Request, w: View) {
    match r
    case Get(size) =>
      && size < WORD
      && if size == 0 || NoFit(v.list, Round(size)) then w == v
         else exists i: nat :: FirstFit(v.list, i, Round(size)) && w == Allocated(h, base, v, i, Round(size))
    case Put(k) =>
      if k >= |v.given| || v.given[k] !in v.live then w == v
      else exists i: nat :: IsUsed(h, base, v.list, i, v.given[k]) && w == Released(h, v, i, v.given[k])
  }

  ghost function Allocated(h: nat, base: nat, v: View, i: nat, r: nat): View
    requires FirstFit(v.list, i, r)
  {
    var p, list := Payload(v.list, h, base, i), Alloc(v.list, h, i, r);
    AllocSize(v.list, h, i, r);
    View(list, v.live[p := list[i].size], v.given + [p])
  }

  /** Block `i` is in use, and `p` points to it. */
  ghost predicate IsUsed(h: nat, base: nat, bs: seq<Block>, i: nat, p: nat) {
    i < |bs| && !bs[i].free && p == Payload(bs, h, base, i)
  }

  ghost function Released(h: nat, v: View, i: nat, p: nat): View
    requires i < |v.list|
  {
    View(Release(v.list, h, i), v.live - {p}, v.given)
  }

  lemma NullNotLive(bs: seq<Block>, h: nat, base: nat, m: map<nat, nat>)
    requires base > 0 && Describes(bs, h, base, m)
    ensures NULL !in m
  {
    if NULL in m {
      var i := BlockOf(bs, h, base, m, NULL);
    }
  }

  lemma HeaderBefore(bs: seq<Block>, h: nat, base: nat, i: nat)
    requires i < |bs|
    ensures Payload(bs, h, base, i) - h == Addrs(bs, h, base)[i]
  {
  }

  lemma SamePayload(bs: seq<Block>, h: nat, base: nat, i: nat, j: nat)
    requires h > 0 && i < |bs| && j < |bs| && Payload(bs, h, base, i) == Payload(bs, h, base, j)
    ensures i == j
  {
    if i != j { PayloadsDiffer(bs, h, base, i, j); }
  }

  lemma TakenFlagged(mem: map<nat, Header>, h: nat, live: map<nat, nat>, a: nat, n: nat)
    requires Flagged(mem, h, live) && a in mem
    ensures Flagged(mem[a := mem[a].(isFree := false)], h, live[a + h := n])
  {
  }

  lemma FreedFlagged(mem: map<nat, Header>, mem': map<nat, Header>, h: nat, live: map<nat, nat>, a: nat)
    requires Flagged(mem, h, live) && a in mem && MarksKept(mem[a := mem[a].(isFree := true)], mem')
    ensures Flagged(mem', h, live - {a + h}) && mem'.Keys == mem.Keys
  {
  }

  lemma SplitFlagged(mem: map<nat, Header>, bs: seq<Block>, h: nat, base: nat, live: map<nat, nat>, i: nat, r: nat)
    requires h > 0 && base > 0 && i < |bs| && bs[i].free && bs[i].size >= r + h + 8
    requires Holds(mem, Addrs(bs, h, base), bs) && Describes(bs, h, base, live) && Flagged(mem, h, live)
    ensures var a := Addrs(bs, h, base)[i];
            && a in mem && mem[a].size == bs[i].size && (mem[a].next != NULL ==> mem[a].next in mem)
            && var m := SplitMem(mem, h, a, r);
               a in m && mem.Keys <= m.Keys && Flagged(m[a := m[a].(isFree := false)], h, live[a + h := Alloc(bs, h, i, r)[i].size])
  {
    hide Holds, Describes, Off;
    var cs := Alloc(bs, h, i, r);
    var a := Addrs(bs, h, base)[i];
    Neighbours(mem, Addrs(bs, h, base), bs, i);
    HeaderBefore(bs, h, base, i);
    AllocDescribes(bs, h, base, live, i, r);
    FreeNotLive(cs, h, base, live[a + h := cs[i].size], i + 1);
    SplitPayload(bs, h, base, i, r);
  }

  lemma SplitPayload(bs: seq<Block>, h: nat, base: nat, i: nat, r: nat)
    requires i < |bs| && bs[i].size >= r + h + 8
    ensures var cs := Alloc(bs, h, i, r);
            i + 1 < |cs| && cs[i + 1].free && Payload(cs, h, base, i + 1) == Payload(bs, h, base, i) + r + h
  {
    AllocOffs(bs, h, i, r);
    assert Off(Alloc(bs, h, i, r), h, i + 1) == Off(Alloc(bs, h, i, r), h, i) + h + r;
  }

  /** `held` lists the live pointers, each once. */
  ghost predicate Lists(held: seq<nat>, live: map<nat, nat>) {
    && (forall i, j :: 0 <= i < j < |held| ==> held[i] != held[j])
    && (forall i :: 0 <= i < |held| ==> held[i] in live)
    && forall p :: p in live ==> p in held
  }

  lemma ListsShrink(held: seq<nat>, live: map<nat, nat>, k: nat)
    requires Lists(held, live) && k < |held|
    ensures Lists(held[..k] + held[k + 1..], live - {held[k]})
  {
    var rest := held[..k] + held[k + 1..];
    assert forall i :: 0 <= i < |rest| ==> rest[i] == held[if i < k then i else i + 1];
    forall p | p in live - {held[k]} ensures p in rest {
      var i :| 0 <= i < |held| && held[i] == p;
      assert rest[if i < k then i else i - 1] == p;
    }
  }

  lemma ListsNext(ptrs: seq<nat>, k: nat, live: map<nat, nat>)
    requires k < |ptrs| && Lists(ptrs[k..], live)
    ensures ptrs[k] in live && Lists(ptrs[k + 1..], live - {ptrs[k]})
  {
    ListsShrink(ptrs[k..], live, 0);
    assert ptrs[k..][0] == ptrs[k];
    assert ptrs[k..][..0] + ptrs[k..][0 + 1..] == ptrs[k + 1..];
  }

  lemma ListsNone(held: seq<nat>, live: map<nat, nat>)
    requires Lists(held, live) && held == []
    ensures live == map[]
  {
  }

  lemma BlockOf(bs: seq<Block>, h: nat, base: nat, m: map<nat, nat>, p: nat) returns (i: nat)
    requires Describes(bs, h, base, m) && p in m
    ensures i < |bs| && !bs[i].free && p == Payload(bs, h, base, i)
  {
    assert UsedAt(bs, h, base, p);
    i :| 0 <= i < |bs| && !bs[i].free && p == Payload(bs, h, base, i);
  }

  lemma NothingLive(bs: seq<Block>, h: nat, base: nat, total: nat)
    requires Tiles(bs, h, total) && Describes(bs, h, base, map[])
    ensures bs == [Block(total - h, true)]
  {
    var none: map<nat, nat> := map[];
    forall i | 0 <= i < |bs| ensures bs[i].free {
      assert Payload(bs, h, base, i) !in none;
    }
    AllFree(bs, h, total);
  }

  function SplitMem(mem: map<nat, Header>, h: nat, a: nat, r: nat): map<nat, Header>
    requires a in mem && mem[a].size >= r + h && h > 0 && (mem[a].next != NULL ==> mem[a].next in mem)
  {
    var m := InsertMem(mem, a, a + h + r, Block(mem[a].size - r - h, true));
    m[a := m[a].(size := r)]
  }

  lemma SplitHolds(mem: map<nat, Header>, bs: seq<Block>, h: nat, base: nat, i: nat, r: nat)
    requires h > 0 && base > 0 && i < |bs| && bs[i].size >= r + h + 8 && Holds(mem, Addrs(bs, h, base), bs)
    ensures var a := Addrs(bs, h, base)[i];
            && a in mem && mem[a].size == bs[i].size
            && (mem[a].next != NULL ==> mem[a].next in mem && mem[a].next != a && mem[a].next != a + h + r)
            && var m := SplitMem(mem, h, a, r);
               a in m && Holds(m[a := m[a].(isFree := false)], Addrs(Alloc(bs, h, i, r), h, base), Alloc(bs, h, i, r))
  {
    hide Holds, Off, Inserted;
    var at, y := Addrs(bs, h, base), Block(bs[i].size - r - h, true);
    SplitShape(bs, h, i, r);
    var bs1 := bs[..i + 1] + [y] + bs[i + 1..];
    Neighbours(mem, at, bs, i);
    AddrsSplit(bs, h, base, i, r);
    var at', b := Addrs(Alloc(bs, h, i, r), h, base), at[i] + h + r;
    InsertHolds(mem, at, bs, i, b, y, at', bs1);
    var m := InsertMem(mem, at[i], b, y);
    SetBlock(m, at', bs1, i, Block(r, false));
    assert m[at[i] := m[at[i]].(size := r, isFree := false)] == m[at[i] := m[at[i]].(size := r)][at[i] := m[at[i]].(size := r, isFree := false)];
  }

  lemma SplitShape(bs: seq<Block>, h: nat, i: nat, r: nat)
    requires i < |bs| && bs[i].size >= r + h + 8
    ensures var y := Block(bs[i].size - r - h, true);
            var bs1 := bs[..i + 1] + [y] + bs[i + 1..];
            Inserted(bs, i + 1, y, bs1) && bs1[i := Block(r, false)] == Alloc(bs, h, i, r)
  {
  }

  lemma JoinShape(bs: seq<Block>, h: nat, i: nat)
    requires i + 1 < |bs|
    ensures var bs' := bs[..i + 1] + bs[i + 2..];
            Inserted(bs', i + 1, bs[i + 1], bs) && i < |Merge(bs, h, i)| && bs'[i := Merge(bs, h, i)[i]] == Merge(bs, h, i)
    ensures Merge(bs, h, i)[i] == Block(bs[i].size + h + bs[i + 1].size, bs[i].free)
  {
  }

  lemma KeptHolds(mem: map<nat, Header>, bs: seq<Block>, h: nat, base: nat, i: nat, r: nat)
    requires i < |bs| && r <= bs[i].size < r + h + 8 && Holds(mem, Addrs(bs, h, base), bs)
    ensures var a := Addrs(bs, h, base)[i];
            a in mem && Holds(mem[a := mem[a].(isFree := false)], Addrs(Alloc(bs, h, i, r), h, base), Alloc(bs, h, i, r))
  {
    AddrsSame(bs, h, base, i, Block(bs[i].size, false));
    SetBlock(mem, Addrs(bs, h, base), bs, i, Block(bs[i].size, false));
    Neighbours(mem, Addrs(bs, h, base), bs, i);
  }

  function JoinMem(mem: map<nat, Header>, h: nat, a: nat): map<nat, Header>
    requires a in mem && mem[a].next in mem && (mem[mem[a].next].next != NULL ==> mem[mem[a].next].next in mem)
  {
    var n := mem[mem[a].next];
    var m1 := mem[a := mem[a].(size := mem[a].size + h + n.size)];
    var m2 := m1[a := m1[a].(next := n.next)];
    if n.next != NULL then m2[n.next := m2[n.next].(prev := a)] else m2
  }

  lemma JoinHolds(mem: map<nat, Header>, bs: seq<Block>, h: nat, base: nat, i: nat)
    requires h > 0 && base > 0 && i + 1 < |bs| && Holds(mem, Addrs(bs, h, base), bs)
    ensures var a := Addrs(bs, h, base)[i];
            && a in mem && mem[a].next in mem && mem[a].next != a
            && (mem[mem[a].next].next != NULL ==> mem[mem[a].next].next in mem && mem[mem[a].next].next != a)
            && Holds(JoinMem(mem, h, a), Addrs(Merge(bs, h, i), h, base), Merge(bs, h, i))
  {
    hide Holds, Off, Merge, Inserted;
    var at, cs := Addrs(bs, h, base), Merge(bs, h, i);
    var at', bs' := Addrs(cs, h, base), bs[..i + 1] + bs[i + 2..];
    JoinShape(bs, h, i);
    AddrsDistinct(bs, h, base);
    MergeAt(bs, h, base, i);
    AddrsMerge(bs, h, base, i);
    Neighbours(mem, at, bs, i);
    Neighbours(mem, at, bs, i + 1);
    RemoveHolds(mem, at, bs, i, at', bs');
    var m := RemoveMem(mem, at[i]);
    SetBlock(m, at', bs', i, cs[i]);
    assert at'[i] == at[i];
    assert JoinMem(mem, h, at[i]) == m[at[i] := m[at[i]].(size := cs[i].size, isFree := cs[i].free)];
  }

  lemma MergeAt(bs: seq<Block>, h: nat, base: nat, i: nat)
    requires i + 1 < |bs|
    ensures i < |Merge(bs, h, i)| && Addrs(Merge(bs, h, i), h, base)[i] == Addrs(bs, h, base)[i]
  {
    OffMerge(bs, h, i, i);
  }

  lemma MergeIfFreeAt(bs: seq<Block>, h: nat, base: nat, i: nat)
    requires i < |bs|
    ensures var b1 := MergeIfFree(bs, h, i);
            i < |b1| && Addrs(b1, h, base)[i] == Addrs(bs, h, base)[i] && b1[..i] == bs[..i]
  {
    if i + 1 < |bs| { OffMerge(bs, h, i, i); }
  }
}
