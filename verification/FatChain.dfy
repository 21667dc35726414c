/** Cluster chains over a FAT seen as an array of entries, and the bytes a chain holds. */
module FatChain {
  import opened Bytes
  import opened FatDisk

  /** The FAT links the `i`-th cluster of `ch` to the next. */
  ghost predicate Linked(fat: seq<nat>, ch: seq<nat>, i: nat) {
    i + 1 < |ch| && ch[i] < |fat| && fat[ch[i]] == ch[i + 1]
  }

  /** `ch` is the complete chain from its first cluster: linked through the FAT, ended by an
      end-of-chain mark, without repeats. */
  ghost predicate IsChain(fat: seq<nat>, ch: seq<nat>) {
    && |ch| > 0
    && (forall i :: 0 <= i < |ch| ==> 2 <= ch[i] < |fat|)
    && (forall i {:trigger Linked(fat, ch, i)} :: 0 <= i < |ch| - 1 ==> Linked(fat, ch, i))
    && fat[ch[|ch| - 1]] >= EOC
    && forall i, j :: 0 <= i < j < |ch| ==> ch[i] != ch[j]
  }

  /** No chain holds a free cluster. */
  lemma ChainInUse(fat: seq<nat>, ch: seq<nat>, c: nat)
    requires IsChain(fat, ch) && c in ch
    ensures 2 <= c < |fat| && fat[c] != 0
  {
    var i :| 0 <= i < |ch| && ch[i] == c;
    if i < |ch| - 1 {
      assert Linked(fat, ch, i);
    }
  }

  lemma ChainInTable(fat: seq<nat>, ch: seq<nat>)
    requires IsChain(fat, ch)
    ensures |ch| > 0 && InTable(ch, |fat|)
  {
  }

  /** The `k`-th cluster of a chain is one, and no end mark. */
  lemma ChainInside(fat: seq<nat>, ch: seq<nat>, k: nat)
    requires IsChain(fat, ch) && k < |ch|
    ensures 2 <= ch[k] < |fat|
  {
  }

  lemma ChainFrame(fat: seq<nat>, fat': seq<nat>, ch: seq<nat>)
    requires IsChain(fat, ch) && |fat'| == |fat|
    requires forall c :: c in ch && 0 <= c < |fat| ==> fat'[c] == fat[c]
    ensures IsChain(fat', ch)
  {
    forall i | 0 <= i < |ch| - 1 ensures Linked(fat', ch, i) {
      assert Linked(fat, ch, i) && ch[i] in ch;
    }
    assert ch[|ch| - 1] in ch;
  }

  /** Linking a free cluster behind the last one extends the chain by it. */
  lemma ExtendChain(fat: seq<nat>, ch: seq<nat>, c: nat)
    requires IsChain(fat, ch) && 2 <= c < |fat| && fat[c] == 0
    ensures c !in ch
    ensures IsChain(fat[c := END][ch[|ch| - 1] := c], ch + [c])
  {
    if c in ch {
      ChainInUse(fat, ch, c);
    }
    var fat', ch' := fat[c := END][ch[|ch| - 1] := c], ch + [c];
    forall i | 0 <= i < |ch'| - 1 ensures Linked(fat', ch', i) {
      assert i < |ch| - 1 ==> Linked(fat, ch, i);
    }
  }

  // ---- the bytes of a chain ----

  /** The size of `n` clusters: `n * cs`, unfolded one cluster at a time. */
  function Span(n: nat, cs: nat): nat {
    if n == 0 then 0 else Span(n - 1, cs) + cs
  }

  lemma {:induction false} SpanIsProduct(n: nat, cs: nat)
    ensures Span(n, cs) == n * cs
  {
    if n > 0 {
      SpanIsProduct(n - 1, cs);
      assert n * cs == (n - 1) * cs + cs;
    }
  }

  lemma {:induction false} SpanMonotone(m: nat, n: nat, cs: nat)
    requires m <= n
    ensures Span(m, cs) <= Span(n, cs)
  {
    if m < n { SpanMonotone(m, n - 1, cs); }
  }

  lemma SpanStep(n: nat, cs: nat)
    ensures Span(n + 1, cs) == Span(n, cs) + cs
  {
  }

  /** The cluster of a chain that an offset falls into, and the offset inside it. */
  function ClusterIndex(x: nat, cs: nat): nat
    requires cs > 0
  {
    x / cs
  }

  function ClusterOffset(x: nat, cs: nat): nat
    requires cs > 0
  {
    x % cs
  }

  lemma SpanDivMod(x: nat, cs: nat)
    requires cs > 0
    ensures ClusterOffset(x, cs) < cs && x == Span(ClusterIndex(x, cs), cs) + ClusterOffset(x, cs)
  {
    SpanIsProduct(x / cs, cs);
  }

  /** The cluster index of an offset inside the first `m` clusters. */
  lemma IndexBelow(x: nat, m: nat, cs: nat)
    requires cs > 0 && x < Span(m, cs)
    ensures ClusterIndex(x, cs) < m
  {
    SpanDivMod(x, cs);
    if m <= ClusterIndex(x, cs) {
      SpanMonotone(m, ClusterIndex(x, cs), cs);
    }
  }

  ghost predicate Sized(data: seq<seq<byte>>, cs: nat) {
    forall c :: 2 <= c < |data| ==> |data[c]| == cs
  }

  ghost predicate InTable(ch: seq<nat>, n: nat) {
    forall i :: 0 <= i < |ch| ==> 2 <= ch[i] < n
  }

  /** The clusters of a chain, one after the other. */
  ghost function Raw(data: seq<seq<byte>>, ch: seq<nat>): (r: seq<byte>)
    requires InTable(ch, |data|)
  {
    if ch == [] then [] else data[ch[0]] + Raw(data, ch[1..])
  }

  lemma {:induction false} RawLength(data: seq<seq<byte>>, ch: seq<nat>, cs: nat)
    requires InTable(ch, |data|) && Sized(data, cs)
    ensures |Raw(data, ch)| == Span(|ch|, cs)
  {
    if ch != [] {
      RawLength(data, ch[1..], cs);
    }
  }

  lemma {:induction false} RawAppend(data: seq<seq<byte>>, ch: seq<nat>, c: nat)
    requires InTable(ch, |data|) && 2 <= c < |data|
    ensures Raw(data, ch + [c]) == Raw(data, ch) + data[c]
  {
    if ch == [] {
      assert (ch + [c])[1..] == [];
    } else {
      assert (ch + [c])[1..] == ch[1..] + [c];
      RawAppend(data, ch[1..], c);
    }
  }

  lemma {:induction false} RawFrame(data: seq<seq<byte>>, data': seq<seq<byte>>, ch: seq<nat>)
    requires InTable(ch, |data|) && |data'| == |data|
    requires forall c :: c in ch && 2 <= c < |data| ==> data'[c] == data[c]
    ensures Raw(data', ch) == Raw(data, ch)
  {
    if ch != [] {
      assert ch[0] in ch;
      RawFrame(data, data', ch[1..]);
    }
  }

  /** The bytes of cluster `ch[k]` sit at offset `Span(k, cs)` of the chain's bytes. */
  lemma {:induction false} RawAt(data: seq<seq<byte>>, ch: seq<nat>, cs: nat, k: nat)
    requires InTable(ch, |data|) && Sized(data, cs) && k < |ch|
    ensures |Raw(data, ch)| == Span(|ch|, cs) && Span(k, cs) + cs <= Span(|ch|, cs)
    ensures Raw(data, ch)[Span(k, cs)..Span(k, cs) + cs] == data[ch[k]]
  {
    RawLength(data, ch, cs);
    SpanMonotone(k + 1, |ch|, cs);
    if k > 0 {
      RawAt(data, ch[1..], cs, k - 1);
      var tail := Raw(data, ch[1..]);
      assert Raw(data, ch)[Span(k, cs)..Span(k, cs) + cs] == tail[Span(k - 1, cs)..Span(k - 1, cs) + cs];
    }
  }

  /** Patching one cluster of a chain patches the chain's bytes at the matching offset. */
  lemma {:induction false} RawPut(data: seq<seq<byte>>, ch: seq<nat>, cs: nat, k: nat, at: nat, patch: seq<byte>)
    requires InTable(ch, |data|) && Sized(data, cs) && k < |ch| && at + |patch| <= cs
    requires forall i, j :: 0 <= i < j < |ch| ==> ch[i] != ch[j]
    ensures |Raw(data, ch)| == Span(|ch|, cs) && Span(k, cs) + cs <= Span(|ch|, cs)
    ensures Raw(data[ch[k] := Overlay(data[ch[k]], at, patch)], ch) == Overlay(Raw(data, ch), Span(k, cs) + at, patch)
  {
    RawLength(data, ch, cs);
    SpanMonotone(k + 1, |ch|, cs);
    var b := Overlay(data[ch[k]], at, patch);
    var data', tl := data[ch[k] := b], ch[1..];
    assert Raw(data', ch) == data'[ch[0]] + Raw(data', tl);
    if k == 0 {
      assert forall c :: c in tl ==> c != ch[0];
      RawFrame(data, data', tl);
      OverlayLeft(data[ch[0]], Raw(data, tl), at, patch);
    } else {
      assert tl[k - 1] == ch[k];
      RawPut(data, tl, cs, k - 1, at, patch);
      OverlayRight(data[ch[0]], Raw(data, tl), Span(k - 1, cs) + at, patch);
    }
  }

  // ---- freeing ----

  function NonZero(fat: seq<nat>): nat {
    if fat == [] then 0 else (if fat[0] != 0 then 1 else 0) + NonZero(fat[1..])
  }

  lemma {:induction false} NonZeroDrops(fat: seq<nat>, c: nat)
    requires c < |fat| && fat[c] != 0
    ensures NonZero(fat[c := 0]) == NonZero(fat) - 1
  {
    if c == 0 {
      assert fat[c := 0][1..] == fat[1..];
    } else {
      assert fat[c := 0][1..] == fat[1..][c - 1 := 0];
      NonZeroDrops(fat[1..], c - 1);
    }
  }

  /** Every entry links inside the table or ends a chain. */
  ghost predicate LinksInside(fat: seq<nat>) {
    forall c :: 0 <= c < |fat| ==> fat[c] < |fat| || fat[c] >= EOC
  }

  /** The FAT after the freeing loop of unlink has run from `c`. The loop ends on every FAT, also on
      a cyclic one: each round clears an entry, or meets one already clear and stops. */
  ghost function FreeFrom(fat: seq<nat>, c: nat): (r: seq<nat>)
    ensures |r| == |fat|
    decreases NonZero(fat), if 2 <= c < |fat| then 1 else 0
  {
    if !(2 <= c < |fat|) then fat
    else
      assert fat[c] != 0 ==> NonZero(fat[c := 0]) < NonZero(fat) by {
        if fat[c] != 0 { NonZeroDrops(fat, c); }
      }
      assert fat[c] == 0 ==> fat[c := 0] == fat;
      FreeFrom(fat[c := 0], fat[c])
  }

  /** Where the freeing loop may stand: at a link inside the table of a table whose links stay inside
      it, past the end of a chain, or at the head of a chain. */
  ghost predicate CanFree(fat: seq<nat>, c: nat, ch: seq<nat>) {
    || (LinksInside(fat) && (c < |fat| || c >= EOC))
    || c >= EOC || c < 2
    || (IsChain(fat, ch) && ch[0] == c)
  }

  /** One round of the freeing loop. */
  lemma FreeStep(fat: seq<nat>, c: nat, ch: seq<nat>) returns (rest: seq<nat>)
    requires CanFree(fat, c, ch) && 2 <= c < EOC && |fat| <= EOC
    ensures c < |fat| && CanFree(fat[c := 0], fat[c], rest)
    ensures FreeFrom(fat, c) == FreeFrom(fat[c := 0], fat[c])
    ensures NonZero(fat[c := 0]) < NonZero(fat) || (fat[c] == 0 && fat[c := 0] == fat)
  {
    rest := ch;
    if !LinksInside(fat) {
      ChainNext(fat, ch, 0);
      rest := ch[1..];
      if |ch| > 1 {
        ChainTail(fat, ch);
      }
    }
    if fat[c] != 0 {
      NonZeroDrops(fat, c);
    } else {
      assert fat[c := 0] == fat;
    }
  }

  /** The entry of the `i`-th cluster of a chain. */
  lemma ChainNext(fat: seq<nat>, ch: seq<nat>, i: nat)
    requires IsChain(fat, ch) && i < |ch|
    ensures ch[i] < |fat|
    ensures if i + 1 < |ch| then fat[ch[i]] == ch[i + 1] < |fat| else fat[ch[i]] >= EOC
  {
    assert i < |ch| - 1 ==> Linked(fat, ch, i);
  }

  /** With its head cleared, the rest of a chain is a chain. */
  lemma ChainTail(fat: seq<nat>, ch: seq<nat>)
    requires IsChain(fat, ch) && |ch| > 1
    ensures IsChain(fat[ch[0] := 0], ch[1..]) && fat[ch[0]] == ch[1]
  {
    assert Linked(fat, ch, 0);
    var fat', tl := fat[ch[0] := 0], ch[1..];
    forall i | 0 <= i < |tl| - 1 ensures Linked(fat', tl, i) {
      assert Linked(fat, ch, i + 1);
    }
  }

  function Zeroed(fat: seq<nat>, ch: seq<nat>): (r: seq<nat>)
    ensures |r| == |fat|
    ensures forall c :: 0 <= c < |fat| ==> r[c] == if c in ch then 0 else fat[c]
  {
    seq(|fat|, c requires 0 <= c < |fat| => if c in ch then 0 else fat[c])
  }

  /** From the head of a chain, the loop frees exactly that chain. */
  lemma {:induction false} FreeFromChain(fat: seq<nat>, ch: seq<nat>)
    requires IsChain(fat, ch) && |fat| <= EOC
    ensures FreeFrom(fat, ch[0]) == Zeroed(fat, ch)
    decreases |ch|
  {
    var fat' := fat[ch[0] := 0];
    if |ch| == 1 {
      assert FreeFrom(fat', fat[ch[0]]) == fat';
      assert Zeroed(fat, ch) == fat';
    } else {
      var tl := ch[1..];
      ChainTail(fat, ch);
      FreeFromChain(fat', tl);
      assert ch == [ch[0]] + tl;
      assert Zeroed(fat', tl) == Zeroed(fat, ch);
    }
  }

  /** `p` is a walk along FAT links inside the range that the loop follows. */
  ghost predicate IsWalk(fat: seq<nat>, p: seq<nat>) {
    && |p| > 0
    && (forall i :: 0 <= i < |p| ==> 2 <= p[i] < |fat|)
    && forall i {:trigger Linked(fat, p, i)} :: 0 <= i < |p| - 1 ==> Linked(fat, p, i)
  }

  ghost predicate Reaches(fat: seq<nat>, c: nat, x: nat) {
    exists p :: IsWalk(fat, p) && p[0] == c && p[|p| - 1] == x
  }

  /** For every FAT, cyclic or not: the loop clears exactly the entries reachable from its start. */
  lemma {:induction false} FreesReachable(fat: seq<nat>, c: nat, x: nat)
    requires x < |fat|
    ensures FreeFrom(fat, c)[x] == if Reaches(fat, c, x) then 0 else fat[x]
    decreases NonZero(fat), if 2 <= c < |fat| then 1 else 0
  {
    if 2 <= c < |fat| {
      var fat' := fat[c := 0];
      if fat[c] != 0 {
        NonZeroDrops(fat, c);
      } else {
        assert fat' == fat;
      }
      FreesReachable(fat', fat[c], x);
      if x == c {
        assert IsWalk(fat, [c]) && [c][0] == c;
        FreedStays(fat', fat[c], c);
      } else {
        ReachStep(fat, c, x);
      }
    }
  }

  lemma {:induction false} FreedStays(fat: seq<nat>, c: nat, x: nat)
    requires x < |fat| && fat[x] == 0
    ensures FreeFrom(fat, c)[x] == 0
    decreases NonZero(fat), if 2 <= c < |fat| then 1 else 0
  {
    if 2 <= c < |fat| {
      if fat[c] != 0 {
        NonZeroDrops(fat, c);
      } else {
        assert fat[c := 0] == fat;
      }
      FreedStays(fat[c := 0], fat[c], x);
    }
  }

  /** Reachability of another cluster may start one link later, with the first entry cleared. */
  lemma ReachStep(fat: seq<nat>, c: nat, x: nat)
    requires 2 <= c < |fat| && x != c
    ensures Reaches(fat, c, x) <==> Reaches(fat[c := 0], fat[c], x)
  {
    var fat' := fat[c := 0];
    if Reaches(fat, c, x) {
      var p :| IsWalk(fat, p) && p[0] == c && p[|p| - 1] == x;
      var k := LastIndex(p, c);
      var q := p[k + 1..];
      forall i | 0 <= i < |q| - 1 ensures Linked(fat', q, i) {
        assert Linked(fat, p, k + 1 + i) && q[i] in q;
      }
      assert Linked(fat, p, k);
      assert q[0] == fat[c] && q[|q| - 1] == x;
    }
    if Reaches(fat', fat[c], x) {
      var q :| IsWalk(fat', q) && q[0] == fat[c] && q[|q| - 1] == x;
      ClearedEndsWalk(fat, c, q);
      var p := [c] + q;
      forall i | 0 <= i < |p| - 1 ensures Linked(fat, p, i) {
        assert i > 0 ==> Linked(fat', q, i - 1);
      }
      assert IsWalk(fat, p) && p[0] == c && p[|p| - 1] == x;
    }
  }

  /** A walk over the cleared FAT passes the cleared cluster only at its end. */
  lemma ClearedEndsWalk(fat: seq<nat>, c: nat, q: seq<nat>)
    requires 2 <= c < |fat| && IsWalk(fat[c := 0], q)
    ensures forall i :: 0 <= i < |q| - 1 ==> q[i] != c
  {
    forall i | 0 <= i < |q| - 1 ensures q[i] != c {
      assert Linked(fat[c := 0], q, i);
    }
  }

  lemma LastIndex(p: seq<nat>, c: nat) returns (k: nat)
    requires c in p
    ensures k < |p| && p[k] == c && c !in p[k + 1..]
  {
    k := |p| - 1;
    while p[k] != c
      invariant k < |p| && c !in p[k + 1..]
      invariant c in p[..k + 1]
      decreases k
    {
      assert p[..k + 1] == p[..k] + [p[k]];
      assert p[k..] == [p[k]] + p[k + 1..];
      k := k - 1;
    }
  }
}
