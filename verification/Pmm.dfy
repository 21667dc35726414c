/** The physical frame allocator of kernel/mm/allocator/pmm.c: a bitmap of 4 KB blocks in 32-bit words,
    a set bit meaning the block is taken. */
module Pmm {
  import opened Common

  const BLOCK := 4096

  // ---- one bitmap word ----

  /** `w & (1 << j)` */
  function Bit(w: nat, j: nat): bool {
    if j == 0 then w % 2 == 1 else Bit(w / 2, j - 1)
  }

  /** `w | (1 << j)` */
  function SetBit(w: nat, j: nat): nat {
    if j == 0 then w / 2 * 2 + 1 else 2 * SetBit(w / 2, j - 1) + w % 2
  }

  /** `w & ~(1 << j)` */
  function ClearBit(w: nat, j: nat): nat {
    if j == 0 then w / 2 * 2 else 2 * ClearBit(w / 2, j - 1) + w % 2
  }

  function Pow2(n: nat): nat {
    if n == 0 then 1 else 2 * Pow2(n - 1)
  }

  lemma {:induction false} SetBitReads(w: nat, j: nat, k: nat)
    ensures Bit(SetBit(w, j), k) == (j == k || Bit(w, k))
  {
    if j > 0 && k > 0 { SetBitReads(w / 2, j - 1, k - 1); }
  }

  lemma {:induction false} ClearBitReads(w: nat, j: nat, k: nat)
    ensures Bit(ClearBit(w, j), k) == (j != k && Bit(w, k))
  {
    if j > 0 && k > 0 { ClearBitReads(w / 2, j - 1, k - 1); }
  }

  /** Bits are binary digits: those below digit `n` are those of the remainder by 2^n, the others those of the
      quotient, and bit 0 is set in odd numbers. */
  lemma {:induction false} BitSplit(q: nat, low: nat, n: nat, k: nat)
    requires low < Pow2(n)
    ensures Bit(q * Pow2(n) + low, k) == if k < n then Bit(low, k) else Bit(q, k - n)
    ensures Bit(q, 0) <==> q % 2 == 1
  {
    if n > 0 {
      var half := q * Pow2(n - 1);
      assert q * Pow2(n) == 2 * half;
      assert (2 * half + low) / 2 == half + low / 2 && (2 * half + low) % 2 == low % 2;
      if k > 0 {
        BitSplit(q, low / 2, n - 1, k - 1);
      }
    }
  }

  /** Setting or clearing one of its bits keeps a word in range. */
  lemma {:induction false} BitBounds(w: nat, j: nat, n: nat)
    requires j < n && w < Pow2(n)
    ensures SetBit(w, j) < Pow2(n) && ClearBit(w, j) < Pow2(n)
  {
    if j > 0 { BitBounds(w / 2, j - 1, n - 1); }
  }

  /** A word is all ones exactly when each of its bits is set. */
  lemma {:induction false} OnesAreSet(w: nat, n: nat, k: nat)
    requires w == Pow2(n) - 1 && k < n
    ensures Bit(w, k)
  {
    assert Pow2(n) == 2 * Pow2(n - 1);
    assert w / 2 == Pow2(n - 1) - 1 && w % 2 == 1;
    if k > 0 { OnesAreSet(w / 2, n - 1, k - 1); }
  }

  lemma {:induction false} ClearBitExists(w: nat, n: nat) returns (k: nat)
    requires w < Pow2(n) - 1
    ensures k < n && !Bit(w, k)
  {
    if w % 2 == 0 {
      k := 0;
    } else {
      k := ClearBitExists(w / 2, n - 1);
      k := k + 1;
    }
  }

  lemma Pow2Of32()
    ensures Pow2(32) == WORD
  {
    assert Pow2(8) == 256;
    assert Pow2(16) == 0x1_0000 by { assert Pow2(12) == 4096; }
    assert Pow2(24) == 0x100_0000 by { assert Pow2(20) == 0x10_0000; }
    assert Pow2(28) == 0x1000_0000;
  }

  // ---- the whole bitmap ----

  function Taken(words: seq<nat>, b: nat): bool
    requires b / 32 < |words|
  {
    Bit(words[b / 32], b % 32)
  }

  /** The bitmap as one flag per block. */
  ghost function Flags(words: seq<nat>): (f: seq<bool>)
    ensures |f| == 32 * |words| && forall b {:trigger f[b]} :: 0 <= b < |f| ==> f[b] == Taken(words, b)
  {
    seq(32 * |words|, b requires 0 <= b < 32 * |words| => Taken(words, b))
  }

  lemma FlagsSet(words: seq<nat>, b: nat)
    requires b / 32 < |words|
    ensures Flags(words[b / 32 := SetBit(words[b / 32], b % 32)]) == Flags(words)[b := true]
  {
    var words' := words[b / 32 := SetBit(words[b / 32], b % 32)];
    forall c | 0 <= c < 32 * |words| ensures Flags(words')[c] == Flags(words)[b := true][c] {
      SetBitReads(words[b / 32], b % 32, c % 32);
      SameBlock(b, c);
    }
  }

  lemma FlagsClear(words: seq<nat>, b: nat)
    requires b / 32 < |words|
    ensures Flags(words[b / 32 := ClearBit(words[b / 32], b % 32)]) == Flags(words)[b := false]
  {
    var words' := words[b / 32 := ClearBit(words[b / 32], b % 32)];
    forall c | 0 <= c < 32 * |words| ensures Flags(words')[c] == Flags(words)[b := false][c] {
      ClearBitReads(words[b / 32], b % 32, c % 32);
      SameBlock(b, c);
    }
  }

  lemma SameBlock(b: nat, c: nat)
    ensures b == c <==> b / 32 == c / 32 && b % 32 == c % 32
  {
  }

  /** The flags of one word. */
  lemma WordFlags(words: seq<nat>, i: nat)
    requires i < |words|
    ensures forall c {:trigger Flags(words)[c]} :: 32 * i <= c < 32 * i + 32 ==> Flags(words)[c] == Bit(words[i], c - 32 * i)
  {
  }

  /** Number of taken blocks. */
  ghost function Count(f: seq<bool>): nat {
    if f == [] then 0 else (if f[0] then 1 else 0) + Count(f[1..])
  }

  lemma {:induction false} CountUpdate(f: seq<bool>, b: nat, v: bool)
    requires b < |f|
    ensures Count(f[b := v]) == Count(f) + (if v then 1 else 0) - (if f[b] then 1 else 0)
  {
    if b == 0 {
      assert f[b := v][1..] == f[1..];
    } else {
      assert f[b := v][1..] == f[1..][b - 1 := v];
      CountUpdate(f[1..], b - 1, v);
    }
  }

  ghost predicate AllTaken(f: seq<bool>, n: nat) {
    forall c :: 0 <= c < n && c < |f| ==> f[c]
  }

  lemma WrapStep(u: int, d: int)
    ensures (u % WORD + d) % WORD == (u + d) % WORD
  {
  }

  // ---- the allocator ----

  /** The counter and the count moving together keep their difference. */
  lemma DriftKept(used: int, count: int, d: int)
    requires -1 <= d <= 1
    ensures ((used + d) % WORD - (count + d)) % WORD == (used - count) % WORD
  {
    var q := (used + d) / WORD;
    assert (used + d) % WORD == used + d - q * WORD;
    ModShift(used - count, -q);
  }

  lemma ModShift(a: int, q: int)
    ensures (a + q * WORD) % WORD == a % WORD
  {
  }

  class FrameAllocator {
    const bitmap: array<nat>
    const maxBlocks: nat
    var used: nat       // pmm_used_blocks, a 32-bit counter

    ghost predicate Valid()
      reads this, bitmap
    {
      && maxBlocks <= 32 * bitmap.Length && maxBlocks <= 0x10_0000 && used < WORD
      && forall i :: 0 <= i < bitmap.Length ==> bitmap[i] < WORD
    }

    /** One flag per block: true when the block is taken. */
    ghost function Blocks(): (f: seq<bool>)
      reads this, bitmap
      ensures |f| == 32 * bitmap.Length
    {
      Flags(bitmap[..])
    }

    /** The blocks that the search looks at: those in full words. */
    function Scanned(): nat {
      maxBlocks / 32 * 32
    }

    /** The counter less the number of taken blocks, in 32-bit arithmetic. */
    ghost function Drift(): int
      reads this, bitmap
    {
      (used - Count(Blocks())) % WORD
    }

    /** pmm_init over a bitmap with arbitrary contents: every whole byte of the map is set. */
    constructor (memSize: nat, map0: array<nat>)
      requires memSize < WORD && memSize / BLOCK <= 32 * map0.Length
      requires forall i :: 0 <= i < map0.Length ==> map0[i] < WORD
      modifies map0
      ensures Valid() && bitmap == map0 && maxBlocks == memSize / BLOCK && used == memSize / BLOCK
      ensures forall b :: 0 <= b < |Blocks()| ==> Blocks()[b] == (b < maxBlocks / 8 * 8 || old(Flags(map0[..]))[b])
    {
      bitmap := map0;
      maxBlocks := memSize / BLOCK;
      used := memSize / BLOCK;
      new;
      var n := maxBlocks / 8 * 8;
      var b := 0;
      while b < n
        invariant 0 <= b <= n && Valid() && used == memSize / BLOCK
        invariant forall c :: 0 <= c < |Blocks()| ==> Blocks()[c] == (c < b || old(Flags(map0[..]))[c])
      {
        BitmapSet(b);
        b := b + 1;
      }
    }

    method BitmapSet(b: nat)
      requires Valid() && b < 32 * bitmap.Length
      modifies bitmap
      ensures Valid() && Blocks() == old(Blocks())[b := true]
    {
      FlagsSet(bitmap[..], b);
      Pow2Of32();
      BitBounds(bitmap[b / 32], b % 32, 32);
      bitmap[b / 32] := SetBit(bitmap[b / 32], b % 32);
      assert bitmap[..] == old(bitmap[..])[b / 32 := bitmap[b / 32]];
    }

    method BitmapUnset(b: nat)
      requires Valid() && b < 32 * bitmap.Length
      modifies bitmap
      ensures Valid() && Blocks() == old(Blocks())[b := false]
    {
      FlagsClear(bitmap[..], b);
      Pow2Of32();
      BitBounds(bitmap[b / 32], b % 32, 32);
      bitmap[b / 32] := ClearBit(bitmap[b / 32], b % 32);
      assert bitmap[..] == old(bitmap[..])[b / 32 := bitmap[b / 32]];
    }

    /** The least free block among the full words, or -1 when there is none. */
    method FindFirstFree() returns (r: int)
      requires Valid()
      ensures r == -1 <==> AllTaken(Blocks(), Scanned())
      ensures r != -1 ==> 0 <= r < Scanned() && !Blocks()[r] && forall c :: 0 <= c < r ==> Blocks()[c]
    {
      hide Bit, Pow2, Flags;
      Pow2Of32();
      var i := 0;
      while i < maxBlocks / 32
        invariant 0 <= i <= maxBlocks / 32
        invariant forall c :: 0 <= c < 32 * i ==> Blocks()[c]
      {
        WordFlags(bitmap[..], i);
        if bitmap[i] != 0xFFFF_FFFF {
          ghost var k := ClearBitExists(bitmap[i], 32);
          var j := 0;
          while j < 32
            invariant 0 <= j <= k
            invariant forall c :: 0 <= c < 32 * i + j ==> Blocks()[c]
          {
            assert Blocks()[32 * i + j] == Bit(bitmap[i], j);
            if !Bit(bitmap[i], j) {
              return 32 * i + j;
            }
            j := j + 1;
          }
        } else {
          forall j | 0 <= j < 32 ensures Bit(bitmap[i], j) {
            OnesAreSet(bitmap[i], 32, j);
          }
          assert forall c :: 32 * i <= c < 32 * i + 32 ==> Blocks()[c] == Bit(bitmap[i], c - 32 * i);
        }
        i := i + 1;
      }
      return -1;
    }

    /** pmm_alloc_block: hands out the least free block, or NULL when there is none. */
    method AllocBlock() returns (addr: nat)
      requires Valid()
      modifies this`used, bitmap
      ensures Valid()
      ensures AllTaken(old(Blocks()), Scanned()) ==>
                addr == NULL && Blocks() == old(Blocks()) && used == old(used)
      ensures !AllTaken(old(Blocks()), Scanned()) ==>
                && addr % BLOCK == 0 && addr / BLOCK < Scanned() && !old(Blocks())[addr / BLOCK]
                && (forall c :: 0 <= c < addr / BLOCK ==> old(Blocks())[c])
                && Blocks() == old(Blocks())[addr / BLOCK := true] && used == (old(used) + 1) % WORD
      ensures Drift() == old(Drift())
    {
      var free_block := FindFirstFree();
      if free_block == -1 {
        return NULL;
      }
      hide Count;
      CountUpdate(Blocks(), free_block, true);
      BitmapSet(free_block);
      DriftKept(used, Count(old(Blocks())), 1);
      used := (used + 1) % WORD;
      addr := free_block * BLOCK;
      assert addr / BLOCK == free_block;
    }

    /** pmm_free_block */
    method FreeBlock(addr: nat)
      requires Valid() && addr / BLOCK < 32 * bitmap.Length
      modifies this`used, bitmap
      ensures Valid() && Blocks() == old(Blocks())[addr / BLOCK := false] && used == (old(used) - 1) % WORD
      ensures old(Blocks())[addr / BLOCK] ==> Drift() == old(Drift())
    {
      var block := addr / BLOCK;
      hide Count;
      CountUpdate(Blocks(), block, false);
      BitmapUnset(block);
      DriftKept(used, Count(old(Blocks())), -1);
      used := (used - 1) % WORD;
    }

    /** pmm_init_region: a range of whole blocks becomes free, block 0 taken. */
    method InitRegion(base: nat, size: nat)
      requires Valid() && base / BLOCK + size / BLOCK <= 32 * bitmap.Length && bitmap.Length > 0
      modifies this`used, bitmap
      ensures Valid()
      ensures forall c :: 0 <= c < |Blocks()| ==>
                Blocks()[c] == (c == 0 || (!(base / BLOCK <= c < base / BLOCK + size / BLOCK) && old(Blocks())[c]))
      ensures used == (old(used) - size / BLOCK) % WORD
    {
      var align, blocks := base / BLOCK, size / BLOCK;
      while blocks > 0
        invariant 0 <= blocks && align + blocks == base / BLOCK + size / BLOCK && base / BLOCK <= align && Valid()
        invariant forall c :: 0 <= c < |Blocks()| ==> Blocks()[c] == (!(base / BLOCK <= c < align) && old(Blocks())[c])
        invariant used == (old(used) - (align - base / BLOCK)) % WORD
      {
        BitmapUnset(align);
        WrapStep(old(used) - (align - base / BLOCK), -1);
        align := align + 1;
        used := (used - 1) % WORD;
        blocks := blocks - 1;
      }
      BitmapSet(0);
    }

    /** pmm_deinit_region: a range of whole blocks becomes taken. */
    method DeinitRegion(base: nat, size: nat)
      requires Valid() && base / BLOCK + size / BLOCK <= 32 * bitmap.Length
      modifies this`used, bitmap
      ensures Valid()
      ensures forall c :: 0 <= c < |Blocks()| ==>
                Blocks()[c] == ((base / BLOCK <= c < base / BLOCK + size / BLOCK) || old(Blocks())[c])
      ensures used == (old(used) + size / BLOCK) % WORD
    {
      var align, blocks := base / BLOCK, size / BLOCK;
      while blocks > 0
        invariant 0 <= blocks && align + blocks == base / BLOCK + size / BLOCK && base / BLOCK <= align && Valid()
        invariant forall c :: 0 <= c < |Blocks()| ==> Blocks()[c] == ((base / BLOCK <= c < align) || old(Blocks())[c])
        invariant used == (old(used) + (align - base / BLOCK)) % WORD
      {
        BitmapSet(align);
        WrapStep(old(used) + (align - base / BLOCK), 1);
        align := align + 1;
        used := (used + 1) % WORD;
        blocks := blocks - 1;
      }
    }

    /** Any run of allocations and frees of outstanding blocks. `history` holds the taken blocks and the
        addresses outstanding, after each request; every entry follows from the one before. At the
        end the addresses outstanding are distinct, were free at the start and lie outside everything
        taken then, block 0 included; all other blocks keep their state, and the counter drifts from
        the number of taken blocks by a constant. */
    method Run(requests: seq<Request>) returns (held: seq<nat>, ghost history: seq<View>)
      requires Valid() && bitmap.Length > 0 && Blocks()[0]
      modifies this`used, bitmap
      ensures Valid() && Drift() == old(Drift())
      ensures Outstanding(held, old(Blocks()), Blocks())
      ensures |history| == |requests| + 1 && history[0] == View(old(Blocks()), []) && history[|requests|] == View(Blocks(), held)
      ensures forall n :: 0 <= n < |requests| ==> Follows(Scanned(), history[n], requests[n], history[n + 1])
    {
      hide Follows;
      held := [];
      history := [View(Blocks(), held)];
      var n := 0;
      while n < |requests|
        invariant 0 <= n <= |requests| && Valid() && Drift() == old(Drift())
        invariant Outstanding(held, old(Blocks()), Blocks())
        invariant |history| == n + 1 && history[0] == View(old(Blocks()), []) && history[n] == View(Blocks(), held)
        invariant forall i :: 0 <= i < n ==> Follows(Scanned(), history[i], requests[i], history[i + 1])
      {
        held := Serve(requests[n], held, old(Blocks()));
        history := history + [View(Blocks(), held)];
        n := n + 1;
      }
    }

    method Serve(request: Request, held: seq<nat>, ghost f0: seq<bool>) returns (held': seq<nat>)
      requires Valid() && Outstanding(held, f0, Blocks()) && |f0| > 0 && f0[0]
      modifies this`used, bitmap
      ensures Valid() && Drift() == old(Drift()) && Outstanding(held', f0, Blocks())
      ensures Follows(Scanned(), View(old(Blocks()), held), request, View(Blocks(), held'))
    {
      held' := held;
      match request
      case Get =>
        var p := AllocBlock();
        if p != NULL {
          TakeOne(held, f0, old(Blocks()), p);
          held' := held + [p];
          assert p / BLOCK * BLOCK == p;
          assert LeastFree(old(Blocks()), Scanned(), p / BLOCK);
        }
      case Put(k) =>
        if k < |held| {
          GiveBack(held, f0, old(Blocks()), k);
          FreeBlock(held[k]);
          held' := held[..k] + held[k + 1..];
        }
    }
  }

  datatype Request = Get | Put(k: nat)

  datatype View = View(taken: seq<bool>, held: seq<nat>)

  /** Block `b` is the least free one, among the first `n`. */
  ghost predicate LeastFree(taken: seq<bool>, n: nat, b: nat) {
    b < n && b < |taken| && !taken[b] && forall c :: 0 <= c < b ==> taken[c]
  }

  /** `w` is what request `r` makes of `v`. */
  ghost predicate Follows(scanned: nat, v: View, r: Request, w: View) {
    match r
    case Get =>
      if AllTaken(v.taken, scanned) then w == v
      else exists b: nat :: LeastFree(v.taken, scanned, b) && w == View(v.taken[b := true], v.held + [b * BLOCK])
    case Put(k) =>
      if k >= |v.held| then w == v
      else v.held[k] / BLOCK < |v.taken| && w == View(v.taken[v.held[k] / BLOCK := false], v.held[..k] + v.held[k + 1..])
  }

  /** `held` are distinct block addresses; the bitmap is `f0` with exactly these blocks, free in `f0`,
      taken. */
  ghost predicate Outstanding(held: seq<nat>, f0: seq<bool>, f: seq<bool>) {
    && |f| == |f0|
    && (forall i, j :: 0 <= i < j < |held| ==> held[i] != held[j])
    && (forall i :: 0 <= i < |held| ==> held[i] % BLOCK == 0 && held[i] / BLOCK < |f0| && !f0[held[i] / BLOCK] && held[i] != NULL)
    && forall c :: 0 <= c < |f| ==> f[c] == (f0[c] || c * BLOCK in held)
  }

  lemma TakeOne(held: seq<nat>, f0: seq<bool>, f: seq<bool>, p: nat)
    requires Outstanding(held, f0, f) && p % BLOCK == 0 && p / BLOCK < |f| && !f[p / BLOCK] && p != NULL
    ensures Outstanding(held + [p], f0, f[p / BLOCK := true])
  {
    assert p / BLOCK * BLOCK == p;
  }

  lemma GiveBack(held: seq<nat>, f0: seq<bool>, f: seq<bool>, k: nat)
    requires Outstanding(held, f0, f) && k < |held|
    ensures held[k] / BLOCK < |f| && f[held[k] / BLOCK]
    ensures Outstanding(held[..k] + held[k + 1..], f0, f[held[k] / BLOCK := false])
  {
    var rest, p := held[..k] + held[k + 1..], held[k];
    assert p / BLOCK * BLOCK == p && p in held;
    assert forall i :: 0 <= i < |rest| ==> rest[i] == held[if i < k then i else i + 1];
    forall q ensures q in rest <==> q in held && q != p {
      if q in held && q != p {
        var i :| 0 <= i < |held| && held[i] == q;
        assert rest[if i < k then i else i - 1] == q;
      }
    }
  }
}
