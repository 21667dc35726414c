/** Two-level page tables over the frame allocator: kernel/mm/paging/vmm.c with its frames from
    kernel/mm/allocator/pmm.c. The table format is that of 32-bit paging, section 4.3 of the Intel SDM,
    volume 3A. TLB and CR3 effects are not modelled. */
module Vmm {
  import opened Common
  import opened Pmm

  const ENTRIES := 1024
  const KERNEL_SLOT := 768          // first directory entry at or above 0xC0000000
  const KERNEL_BASE := 0xC000_0000
  const PAGES := 0x10_0000          // pages in the 32-bit address space

  /** The frames that hold directories and tables, by physical address. */
  type Frames = map<nat, seq<nat>>

  // ---- entries ----

  predicate Present(e: nat) { e % 2 == 1 }

  /** `e & ~0xFFF` */
  function Frame(e: nat): nat { e / BLOCK * BLOCK }

  /** `phys | flags | VMM_PRESENT` for flags below the page offset: present, and in the frame of
      `phys`, whose own offset is lost among the flags. */
  function MakeEntry(phys: nat, flags: nat): (e: nat)
    requires flags < BLOCK
    ensures Present(e) && Frame(e) == Frame(phys)
  {
    var low := Or(Or(phys % BLOCK, flags, 12), 1, 12);
    OrBelow(Or(phys % BLOCK, flags, 12), 1, 12);
    Pow2Of12();
    LowBits(phys / BLOCK, low);
    Frame(phys) + low
  }

  /** The low `n` bits of `x | y`. */
  function Or(x: nat, y: nat, n: nat): nat {
    if n == 0 then 0 else (if x % 2 == 1 || y % 2 == 1 then 1 else 0) + 2 * Or(x / 2, y / 2, n - 1)
  }

  lemma {:induction false} OrBelow(x: nat, y: nat, n: nat)
    ensures Or(x, y, n) < Pow2(n)
    ensures n > 0 ==> (Or(x, y, n) % 2 == 1 <==> x % 2 == 1 || y % 2 == 1)
  {
    if n > 0 {
      OrBelow(x / 2, y / 2, n - 1);
      OddOrEven(if x % 2 == 1 || y % 2 == 1 then 1 else 0, Or(x / 2, y / 2, n - 1));
    }
  }

  /** Or, bit by bit. */
  lemma {:induction false} OrBits(x: nat, y: nat, n: nat, k: nat)
    requires k < n
    ensures Bit(Or(x, y, n), k) == (Bit(x, k) || Bit(y, k))
  {
    var b, r := if x % 2 == 1 || y % 2 == 1 then 1 else 0, Or(x / 2, y / 2, n - 1);
    OddOrEven(b, r);
    assert (b + 2 * r) / 2 == r;
    if k > 0 {
      OrBits(x / 2, y / 2, n - 1, k - 1);
    }
  }

  lemma {:induction false} BitOfOne(k: nat)
    ensures Bit(1, k) == (k == 0) && !Bit(0, k)
  {
    if k > 0 { BitOfOne(k - 1); }
  }

  /** An entry, bit by bit: the flags and the offset of the address below bit 12, with the present bit set;
      the address from there on. */
  lemma EntryBits(phys: nat, flags: nat, k: nat)
    requires flags < BLOCK
    ensures Bit(MakeEntry(phys, flags), k) == if k < 12 then Bit(phys, k) || Bit(flags, k) || k == 0 else Bit(phys, k)
  {
    hide Bit, Pow2;
    var x := Or(phys % BLOCK, flags, 12);
    Pow2Of12();
    OrBelow(x, 1, 12);
    BitSplit(phys / BLOCK, Or(x, 1, 12), 12, k);
    BitSplit(phys / BLOCK, phys % BLOCK, 12, k);
    if k < 12 {
      OrBits(phys % BLOCK, flags, 12, k);
      OrBits(x, 1, 12, k);
      BitOfOne(k);
    }
  }

  lemma {:induction false} OrZero(y: nat, n: nat)
    requires y < Pow2(n)
    ensures Or(0, y, n) == y && Or(y, 0, n) == y
  {
    if n > 0 {
      OrZero(y / 2, n - 1);
    }
  }

  /** The entries of the kernel's own mappings: the frame, present and writable. */
  lemma KernelEntry(phys: nat)
    requires phys % BLOCK == 0
    ensures MakeEntry(phys, 3) == phys + 3
  {
    hide Pow2;
    Pow2Of12();
    OrZero(3, 12);
    Pow2Of10();
    OrZero(0, 10);
    assert Or(3, 1, 12) == 1 + 2 * Or(1, 0, 11);
    assert Or(1, 0, 11) == 1 + 2 * Or(0, 0, 10);
  }

  lemma Pow2Of10()
    ensures Pow2(10) > 0
  {
  }

  lemma OddOrEven(b: nat, r: nat)
    requires b <= 1
    ensures (b + 2 * r) % 2 == b
  {
  }

  lemma Pow2Of12()
    ensures Pow2(12) == BLOCK
  {
    assert Pow2(6) == 64;
    assert Pow2(12) == 64 * Pow2(6);
  }

  lemma LowBits(k: nat, low: nat)
    requires low < BLOCK && low % 2 == 1
    ensures Frame(k * BLOCK + low) == k * BLOCK && Present(k * BLOCK + low)
  {
    assert (k * BLOCK + low) / BLOCK == k;
    assert k * BLOCK + low == 2 * (k * 2048) + low;
  }

  // ---- translation ----

  ghost predicate HasFrame(m: Frames, f: nat) { f in m && |m[f]| == ENTRIES }

  /** Every directory in `dirs` is a frame of 1024 entries, and so is every table it names. */
  ghost predicate Formed(m: Frames, dirs: set<nat>) {
    && (forall d {:trigger HasFrame(m, d)} :: d in dirs ==> HasFrame(m, d))
    && forall d: nat, i: nat {:trigger TableAt(m, d, i)} :: d in dirs && TableAt(m, d, i).Some? ==> HasFrame(m, TableAt(m, d, i).value)
  }

  /** The table that entry `i` of directory `d` names. */
  ghost function TableAt(m: Frames, d: nat, i: nat): Option<nat> {
    if HasFrame(m, d) && i < ENTRIES && Present(m[d][i]) then Some(Frame(m[d][i])) else None
  }

  /** Word `i` of directory `d`. */
  ghost function DirWord(m: Frames, d: nat, i: nat): nat {
    if HasFrame(m, d) && i < ENTRIES then m[d][i] else 0
  }

  /** The table word for page `q` in directory `d`, if there is a table. */
  ghost function PageWord(m: Frames, d: nat, q: nat): Option<nat> {
    var t := TableAt(m, d, q / ENTRIES);
    if t.Some? && HasFrame(m, t.value) then Some(m[t.value][q % ENTRIES]) else None
  }

  /** The frame that page `q` is mapped to in directory `d`. */
  ghost function Translate(m: Frames, d: nat, q: nat): Option<nat> {
    var w := PageWord(m, d, q);
    if w.Some? && Present(w.value) then Some(Frame(w.value)) else None
  }

  /** A directory as a flat partial map from page numbers to frames. */
  ghost function Flat(m: Frames, d: nat): map<nat, nat> {
    map q | 0 <= q < PAGES && Translate(m, d, q).Some? :: Translate(m, d, q).value
  }

  /** Tables are not directories, and one table serves one directory entry only; above the kernel base
      several directories may share it, all at the same entry. */
  ghost predicate Separate(m: Frames, dirs: set<nat>) {
    && (forall d: nat, i: nat {:trigger TableAt(m, d, i)} :: d in dirs && TableAt(m, d, i).Some? ==> TableAt(m, d, i).value !in dirs)
    && forall d: nat, i: nat, e: nat, j: nat {:trigger TableAt(m, d, i), TableAt(m, e, j)} ::
         d in dirs && e in dirs && TableAt(m, d, i).Some? && TableAt(m, d, i) == TableAt(m, e, j) ==>
         i == j && (i >= KERNEL_SLOT || d == e)
  }

  /** Every directory and table is a taken block of the frame allocator. */
  ghost predicate Owned(m: Frames, dirs: set<nat>, taken: seq<bool>) {
    && (forall d :: d in dirs ==> TakenAt(taken, d))
    && forall d: nat, i: nat {:trigger TableAt(m, d, i)} :: d in dirs && TableAt(m, d, i).Some? ==> TakenAt(taken, TableAt(m, d, i).value)
  }

  ghost predicate TakenAt(taken: seq<bool>, f: nat) {
    f != NULL && f % BLOCK == 0 && f / BLOCK < |taken| && taken[f / BLOCK]
  }

  ghost predicate Inv(m: Frames, dirs: set<nat>, taken: seq<bool>) {
    Formed(m, dirs) && Separate(m, dirs) && Owned(m, dirs, taken)
  }

  /** Directories `d` and `e` use the same table for entry `i`. */
  ghost predicate Shares(m: Frames, d: nat, e: nat, i: nat) {
    TableAt(m, d, i).Some? && TableAt(m, d, i) == TableAt(m, e, i)
  }

  // ---- writing one table entry ----

  /** Memory with word `i` of frame `f` replaced. */
  function PutWord(m: Frames, f: nat, i: nat, v: nat): Frames
    requires f in m && i < |m[f]|
  {
    var row: seq<nat> := m[f][i := v];
    m[f := row]
  }

  /** The words after entry `j` of the table for entry `i` of directory `c` has been replaced: one page of
      `c` changes, and the same page of the directories that share the table. */
  lemma PutTableEntry(m: Frames, dirs: set<nat>, taken: seq<bool>, c: nat, i: nat, j: nat, v: nat)
    requires Inv(m, dirs, taken) && c in dirs && i < ENTRIES && j < ENTRIES && TableAt(m, c, i).Some?
    ensures var t := TableAt(m, c, i).value;
            && HasFrame(m, t)
            && var m' := PutWord(m, t, j, v);
               && Inv(m', dirs, taken)
               && (forall d: nat, k: nat {:trigger TableAt(m', d, k)} :: d in dirs ==> TableAt(m', d, k) == TableAt(m, d, k))
               && (forall d: nat, k: nat {:trigger DirWord(m', d, k)} :: d in dirs ==> DirWord(m', d, k) == DirWord(m, d, k))
               && forall d: nat, q: nat {:trigger PageWord(m', d, q)} :: d in dirs && q < PAGES ==>
                    PageWord(m', d, q) == if q == i * ENTRIES + j && (d == c || Shares(m, d, c, i)) then Some(v) else PageWord(m, d, q)
  {
    var t := TableAt(m, c, i).value;
    var m' := PutWord(m, t, j, v);
    forall d: nat, k: nat | d in dirs ensures TableAt(m', d, k) == TableAt(m, d, k) && DirWord(m', d, k) == DirWord(m, d, k) {
      assert HasFrame(m, d);
      assert d != t;
    }
    forall d | d in dirs ensures HasFrame(m', d) {
      assert HasFrame(m, d);
    }
    assert Separate(m', dirs) by {
      forall d: nat, i: nat, e: nat, j: nat | d in dirs && e in dirs && TableAt(m', d, i).Some? && TableAt(m', d, i) == TableAt(m', e, j)
        ensures i == j && (i >= KERNEL_SLOT || d == e)
      {
        assert TableAt(m, d, i) == TableAt(m, e, j);
      }
    }
    forall d: nat, q: nat | d in dirs && q < PAGES
      ensures PageWord(m', d, q) == if q == i * ENTRIES + j && (d == c || Shares(m, d, c, i)) then Some(v) else PageWord(m, d, q)
    {
      var u := TableAt(m, d, q / ENTRIES);
      assert TableAt(m', d, q / ENTRIES) == u;
      if u == Some(t) {
        assert q / ENTRIES == i;
        assert q == i * ENTRIES + q % ENTRIES;
      }
    }
  }

  // ---- a frame newly taken from the allocator ----

  function ZeroFrame(): (z: seq<nat>)
    ensures |z| == ENTRIES && forall i :: 0 <= i < ENTRIES ==> z[i] == 0
  {
    seq(ENTRIES, _ => 0)
  }

  /** A free block is neither a directory nor a table. */
  lemma FreeIsUnused(m: Frames, dirs: set<nat>, taken: seq<bool>, f: nat, d: nat, i: nat)
    requires Inv(m, dirs, taken) && d in dirs && f % BLOCK == 0 && f / BLOCK < |taken| && !taken[f / BLOCK]
    ensures f != d && TableAt(m, d, i) != Some(f)
  {
    assert TakenAt(taken, d);
  }

  /** Linking an empty table into an absent directory entry changes no translation. */
  lemma AddTable(m: Frames, dirs: set<nat>, taken: seq<bool>, c: nat, i: nat, f: nat, flags: nat)
    requires Inv(m, dirs, taken) && c in dirs && i < ENTRIES && TableAt(m, c, i) == None && flags < BLOCK
    requires f != NULL && f % BLOCK == 0 && f / BLOCK < |taken| && !taken[f / BLOCK]
    ensures c in m && i < |m[c]| && f != c
    ensures var m' := PutWord(m[f := ZeroFrame()], c, i, MakeEntry(f, flags));
            && Inv(m', dirs, taken[f / BLOCK := true])
            && (forall d: nat, k: nat {:trigger TableAt(m', d, k)} :: d in dirs ==>
                  TableAt(m', d, k) == if d == c && k == i then Some(f) else TableAt(m, d, k))
            && (forall d: nat, k: nat {:trigger DirWord(m', d, k)} :: d in dirs ==>
                  DirWord(m', d, k) == if d == c && k == i then MakeEntry(f, flags) else DirWord(m, d, k))
            && (forall d: nat, q: nat {:trigger PageWord(m', d, q)} :: d in dirs ==>
                  PageWord(m', d, q) == if d == c && q / ENTRIES == i then Some(0) else PageWord(m, d, q))
            && forall d: nat, q: nat {:trigger Translate(m', d, q)} :: d in dirs ==> Translate(m', d, q) == Translate(m, d, q)
  {
    assert HasFrame(m, c);
    FreeIsUnused(m, dirs, taken, f, c, i);
    var m' := PutWord(m[f := ZeroFrame()], c, i, MakeEntry(f, flags));
    forall d | d in dirs ensures HasFrame(m', d) && d != f {
      assert HasFrame(m, d);
      FreeIsUnused(m, dirs, taken, f, d, i);
    }
    forall d: nat, k: nat | d in dirs
      ensures TableAt(m', d, k) == if d == c && k == i then Some(f) else TableAt(m, d, k)
      ensures DirWord(m', d, k) == if d == c && k == i then MakeEntry(f, flags) else DirWord(m, d, k)
      ensures TableAt(m, d, k) != Some(f) && (TableAt(m, d, k).Some? ==> TableAt(m, d, k).value != c)
    {
      assert HasFrame(m, d);
      FreeIsUnused(m, dirs, taken, f, d, k);
    }
    forall d: nat, k: nat | d in dirs && TableAt(m', d, k).Some?
      ensures HasFrame(m', TableAt(m', d, k).value) && TableAt(m', d, k).value !in dirs
      ensures TakenAt(taken[f / BLOCK := true], TableAt(m', d, k).value)
    {
      assert TableAt(m, d, k).Some? ==> HasFrame(m, TableAt(m, d, k).value);
    }
    forall d: nat, k: nat, e: nat, j: nat | d in dirs && e in dirs && TableAt(m', d, k).Some? && TableAt(m', d, k) == TableAt(m', e, j)
      ensures k == j && (k >= KERNEL_SLOT || d == e)
    {
      assert TableAt(m, d, k) != Some(f) && TableAt(m, e, j) != Some(f);
    }
    forall d: nat, q: nat | d in dirs
      ensures PageWord(m', d, q) == if d == c && q / ENTRIES == i then Some(0) else PageWord(m, d, q)
      ensures Translate(m', d, q) == Translate(m, d, q)
    {
      var t := TableAt(m, d, q / ENTRIES);
      assert t != Some(f) && (t.Some? ==> t.value != c);
    }
  }

  /** The frame of a new directory: the kernel's entries at and above the kernel base, none below. */
  function CloneFrame(k: seq<nat>): (r: seq<nat>)
    requires |k| == ENTRIES
    ensures |r| == ENTRIES && forall i :: 0 <= i < ENTRIES ==> r[i] == if i >= KERNEL_SLOT then k[i] else 0
  {
    seq(ENTRIES, i requires 0 <= i < ENTRIES => if i >= KERNEL_SLOT then k[i] else 0)
  }

  /** A clone agrees with the kernel directory above the kernel base, maps nothing below, and leaves
      the other directories alone. */
  lemma AddClone(m: Frames, dirs: set<nat>, taken: seq<bool>, k: nat, f: nat)
    requires Inv(m, dirs, taken) && k in dirs && f != NULL && f % BLOCK == 0 && f / BLOCK < |taken| && !taken[f / BLOCK]
    ensures HasFrame(m, k) && f !in dirs
    ensures var m' := m[f := CloneFrame(m[k])];
            && Inv(m', dirs + {f}, taken[f / BLOCK := true])
            && (forall d: nat, i: nat {:trigger TableAt(m', d, i)} :: d in dirs ==> TableAt(m', d, i) == TableAt(m, d, i))
            && (forall d: nat, i: nat {:trigger DirWord(m', d, i)} :: d in dirs ==> DirWord(m', d, i) == DirWord(m, d, i))
            && (forall d: nat, q: nat {:trigger PageWord(m', d, q)} :: d in dirs ==> PageWord(m', d, q) == PageWord(m, d, q))
            && (forall i: nat {:trigger DirWord(m', f, i)} :: DirWord(m', f, i) == if i >= KERNEL_SLOT then DirWord(m, k, i) else 0)
            && (forall q: nat {:trigger PageWord(m', f, q)} :: q < PAGES ==>
                  PageWord(m', f, q) == if q / ENTRIES >= KERNEL_SLOT then PageWord(m, k, q) else None)
            && forall i: nat {:trigger Shares(m', f, k, i)} :: KERNEL_SLOT <= i < ENTRIES && TableAt(m', k, i).Some? ==> Shares(m', f, k, i)
  {
    assert HasFrame(m, k);
    var m' := m[f := CloneFrame(m[k])];
    var dirs' := dirs + {f};
    forall d | d in dirs ensures HasFrame(m', d) && d != f {
      assert HasFrame(m, d);
      FreeIsUnused(m, dirs, taken, f, d, 0);
    }
    forall d: nat, i: nat | d in dirs
      ensures TableAt(m', d, i) == TableAt(m, d, i) && TableAt(m, d, i) != Some(f) && DirWord(m', d, i) == DirWord(m, d, i)
    {
      assert HasFrame(m, d);
      FreeIsUnused(m, dirs, taken, f, d, i);
    }
    forall i: nat ensures TableAt(m', f, i) == if KERNEL_SLOT <= i then TableAt(m, k, i) else None {
    }
    forall d: nat, i: nat | d in dirs' && TableAt(m', d, i).Some?
      ensures HasFrame(m', TableAt(m', d, i).value) && TableAt(m', d, i).value !in dirs'
      ensures TakenAt(taken[f / BLOCK := true], TableAt(m', d, i).value)
    {
      var e := if d == f then k else d;
      assert TableAt(m, e, i) == TableAt(m', d, i) && HasFrame(m, TableAt(m, e, i).value);
    }
    forall d: nat, i: nat, e: nat, j: nat | d in dirs' && e in dirs' && TableAt(m', d, i).Some? && TableAt(m', d, i) == TableAt(m', e, j)
      ensures i == j && (i >= KERNEL_SLOT || d == e)
    {
      var d', e' := if d == f then k else d, if e == f then k else e;
      assert TableAt(m, d', i) == TableAt(m', d, i) && TableAt(m, e', j) == TableAt(m', e, j);
    }
    forall d: nat, q: nat | d in dirs ensures PageWord(m', d, q) == PageWord(m, d, q) {
      assert TableAt(m', d, q / ENTRIES) == TableAt(m, d, q / ENTRIES) != Some(f);
    }
    forall q: nat | q < PAGES
      ensures PageWord(m', f, q) == if q / ENTRIES >= KERNEL_SLOT then PageWord(m, k, q) else None
    {
      assert TableAt(m', f, q / ENTRIES) == if KERNEL_SLOT <= q / ENTRIES then TableAt(m, k, q / ENTRIES) else None;
      assert TableAt(m, k, q / ENTRIES) != Some(f);
    }
  }

  /** A block that directory `d` alone uses: itself, or one of its tables below the kernel base. */
  ghost predicate OwnBlock(m: Frames, d: nat, b: nat) {
    b * BLOCK == d || exists i: nat {:trigger TableAt(m, d, i)} :: i < KERNEL_SLOT && TableAt(m, d, i) == Some(b * BLOCK)
  }

  /** Once a directory is gone, its own blocks may be free. */
  lemma DropDir(m: Frames, dirs: set<nat>, taken: seq<bool>, d: nat, taken': seq<bool>)
    requires Inv(m, dirs, taken) && d in dirs && |taken'| == |taken|
    requires forall b :: 0 <= b < |taken| ==> taken'[b] == (taken[b] && !OwnBlock(m, d, b))
    ensures Inv(m, dirs - {d}, taken')
  {
    forall e | e in dirs && e != d ensures TakenAt(taken', e) {
      assert TakenAt(taken, e);
      assert !OwnBlock(m, d, e / BLOCK) by {
        assert e / BLOCK * BLOCK == e;
        forall i: nat | i < KERNEL_SLOT ensures TableAt(m, d, i) != Some(e) {
          assert TableAt(m, d, i).Some? ==> TableAt(m, d, i).value !in dirs;
        }
      }
    }
    forall e: nat, j: nat | e in dirs && e != d && TableAt(m, e, j).Some?
      ensures TakenAt(taken', TableAt(m, e, j).value)
    {
      var t := TableAt(m, e, j).value;
      assert TakenAt(taken, t) && t !in dirs;
      assert !OwnBlock(m, d, t / BLOCK) by {
        assert t / BLOCK * BLOCK == t;
        forall i: nat | i < KERNEL_SLOT ensures TableAt(m, d, i) != Some(t) {
          assert TableAt(m, d, i) == TableAt(m, e, j) ==> d == e;
        }
      }
    }
  }

  /** A block that holds one of the first `n` tables of directory `d`. */
  ghost predicate TableBlock(m: Frames, d: nat, n: nat, b: nat) {
    exists i: nat {:trigger TableAt(m, d, i)} :: i < n && TableAt(m, d, i) == Some(b * BLOCK)
  }

  lemma FlatUpdate(m: Frames, m': Frames, d: nat, page: nat, v: Option<nat>)
    requires page < PAGES
    requires forall q: nat :: q < PAGES ==> Translate(m', d, q) == if q == page then v else Translate(m, d, q)
    ensures v.Some? ==> Flat(m', d) == Flat(m, d)[page := v.value]
    ensures v.None? ==> Flat(m', d) == Flat(m, d) - {page}
  {
  }

  // ---- runs ----

  /** A request of the rest of the kernel; directories are named by their place in the list of those it
      holds. */
  datatype Op =
    | OpMap(phys: nat, virt: nat, flags: nat)
    | OpUnmap(virt: nat)
    | OpSwitch(k: nat)
    | OpClone
    | OpFree(k: nat)

  predicate ProperOp(op: Op) {
    match op
    case OpMap(phys, virt, flags) => phys < WORD && virt < WORD && flags < BLOCK
    case OpUnmap(virt) => virt < WORD
    case _ => true
  }

  /** The operation maps or unmaps nothing at or above the kernel base. */
  predicate UserOp(op: Op) {
    (op.OpMap? || op.OpUnmap?) ==> op.virt < KERNEL_BASE
  }

  datatype State = State(mem: Frames, dirs: set<nat>, current: nat, spaces: seq<nat>, taken: seq<bool>)

  /** From `m` to `m'`, the word for page `page` of directory `c`, and of those that share its table, has become
      `v`. A table linked for it holds zeros otherwise; all other table words are the same. */
  ghost predicate PageSet(m: Frames, m': Frames, dirs: set<nat>, c: nat, page: nat, v: nat) {
    forall d: nat, q: nat {:trigger PageWord(m', d, q)} :: d in dirs && q < PAGES ==>
      PageWord(m', d, q) ==
      if q == page && (d == c || Shares(m, d, c, page / ENTRIES)) then Some(v)
      else if d == c && q / ENTRIES == page / ENTRIES && TableAt(m, d, page / ENTRIES) == None then Some(0)
      else PageWord(m, d, q)
  }

  /** Directory words are the same, except that entry `i` of directory `c`, if it was absent, has been linked to
      a table with these flags. */
  ghost predicate Linked(m: Frames, m': Frames, dirs: set<nat>, c: nat, i: nat, flags: nat)
    requires flags < BLOCK
  {
    forall d: nat, k: nat {:trigger DirWord(m', d, k)} :: d in dirs ==>
      if d == c && k == i && TableAt(m, d, i) == None
      then TableAt(m', d, i).Some? && DirWord(m', d, k) == MakeEntry(TableAt(m', d, i).value, flags)
      else DirWord(m', d, k) == DirWord(m, d, k)
  }

  /** All words of directory `d` and of its tables are as before. */
  ghost predicate SameSpace(s: State, w: State, d: nat) {
    && (forall q: nat {:trigger PageWord(w.mem, d, q)} :: q < PAGES ==> PageWord(w.mem, d, q) == PageWord(s.mem, d, q))
    && (forall k: nat {:trigger DirWord(w.mem, d, k)} :: DirWord(w.mem, d, k) == DirWord(s.mem, d, k))
    && TablesKept(s, w, d)
  }

  ghost predicate TablesKept(s: State, w: State, d: nat) {
    forall i: nat {:trigger TableAt(w.mem, d, i)} {:trigger TableAt(s.mem, d, i)} ::
      TableAt(s.mem, d, i).Some? ==> TableAt(w.mem, d, i) == TableAt(s.mem, d, i)
  }

  /** `w` is what `op` makes of `s`; the frame allocator scans the first `scanned` blocks. */
  ghost predicate StepTo(kernel: nat, scanned: nat, s: State, op: Op, w: State) {
    match op
    case OpMap(phys, virt, flags) =>
      && w.dirs == s.dirs && w.current == s.current && w.spaces == s.spaces && flags < BLOCK
      && (forall d :: d in s.dirs ==> TablesKept(s, w, d))
      && if TableAt(s.mem, s.current, virt / 0x40_0000) == None && AllTaken(s.taken, scanned) then w == s
         else PageSet(s.mem, w.mem, s.dirs, s.current, virt / BLOCK, MakeEntry(phys, flags)) && Linked(s.mem, w.mem, s.dirs, s.current, virt / 0x40_0000, flags)
    case OpUnmap(virt) =>
      && w.dirs == s.dirs && w.current == s.current && w.spaces == s.spaces && w.taken == s.taken
      && (forall d :: d in s.dirs ==> TablesKept(s, w, d))
      && if TableAt(s.mem, s.current, virt / 0x40_0000) == None then w == s
         else PageSet(s.mem, w.mem, s.dirs, s.current, virt / BLOCK, 0) && Linked(s.mem, w.mem, s.dirs, s.current, virt / 0x40_0000, 0)
    case OpSwitch(k) => w == if k < |s.spaces| then s.(current := s.spaces[k]) else s
    case OpClone =>
      if AllTaken(s.taken, scanned) then w == s
      else exists f: nat :: Cloned(kernel, s, w, f)
    case OpFree(k) =>
      if k < |s.spaces| && s.spaces[k] != kernel && s.spaces[k] != s.current then Freed(s, w, k) else w == s
  }

  /** Directory `f` is new: it agrees with the kernel directory above the base, sharing its tables, and
      is empty below. The caller gets no hold of it when its address in the kernel's window is 0. */
  ghost predicate Cloned(kernel: nat, s: State, w: State, f: nat) {
    && f !in s.dirs && w.dirs == s.dirs + {f} && w.current == s.current && w.spaces == (if P2V(f) == NULL then s.spaces else s.spaces + [f])
    && (forall d :: d in s.dirs ==> SameSpace(s, w, d))
    && (forall i: nat {:trigger DirWord(w.mem, f, i)} :: DirWord(w.mem, f, i) == if i >= 768 then DirWord(s.mem, kernel, i) else 0)
    && (forall q: nat {:trigger PageWord(w.mem, f, q)} :: q < PAGES ==>
          PageWord(w.mem, f, q) == if q * BLOCK >= 0xC000_0000 then PageWord(s.mem, kernel, q) else None)
    && forall i: nat {:trigger Shares(w.mem, f, kernel, i)} :: KERNEL_SLOT <= i < ENTRIES && TableAt(s.mem, kernel, i).Some? ==>
         Shares(w.mem, f, kernel, i)
  }

  /** Directory `s.spaces[k]` is gone, its own blocks are free, and nothing else has changed. */
  ghost predicate Freed(s: State, w: State, k: nat)
    requires k < |s.spaces|
  {
    && w.mem == s.mem && w.dirs == s.dirs - {s.spaces[k]} && w.current == s.current && w.spaces == s.spaces[..k] + s.spaces[k + 1..]
    && |w.taken| == |s.taken|
    && forall b :: 0 <= b < |s.taken| ==> w.taken[b] == (s.taken[b] && !OwnBlock(s.mem, s.spaces[k], b))
  }

  /** A sequence of states, each following from the one before. */
  ghost predicate History(kernel: nat, scanned: nat, ops: seq<Op>, hist: seq<State>) {
    && |hist| == |ops| + 1
    && forall n {:trigger ops[n]} :: 0 <= n < |ops| ==> StepTo(kernel, scanned, hist[n], ops[n], hist[n + 1])
  }

  /** Directory `d` exists all along. */
  ghost predicate Lasts(hist: seq<State>, d: nat) {
    forall n :: 0 <= n < |hist| ==> d in hist[n].dirs
  }

  /** Below the base no table is shared. */
  ghost predicate UserApart(s: State) {
    forall d: nat, e: nat, i: nat {:trigger Shares(s.mem, d, e, i)} ::
      d in s.dirs && e in s.dirs && i < KERNEL_SLOT && Shares(s.mem, d, e, i) ==> d == e
  }

  lemma StepKeepsTables(kernel: nat, scanned: nat, s: State, op: Op, w: State, d: nat)
    requires StepTo(kernel, scanned, s, op, w) && d in s.dirs
    ensures TablesKept(s, w, d)
  {
    if op.OpClone? && !AllTaken(s.taken, scanned) {
      var f: nat :| Cloned(kernel, s, w, f);
      assert SameSpace(s, w, d);
    }
  }

  lemma StepIsolates(kernel: nat, scanned: nat, s: State, op: Op, w: State, d: nat)
    requires StepTo(kernel, scanned, s, op, w) && UserApart(s) && UserOp(op) && ProperOp(op)
    requires d in s.dirs && d != s.current && s.current in s.dirs
    ensures SameSpace(s, w, d)
  {
    StepKeepsTables(kernel, scanned, s, op, w, d);
    if op.OpClone? && !AllTaken(s.taken, scanned) {
      var f: nat :| Cloned(kernel, s, w, f);
      assert SameSpace(s, w, d);
    }
    if op.OpMap? || op.OpUnmap? {
      PageParts(op.virt);
      assert !Shares(s.mem, d, s.current, op.virt / 0x40_0000);
    }
  }

  /** Over every run, a table that two lasting directories share stays shared. */
  lemma {:induction false} SharingLasts(kernel: nat, scanned: nat, ops: seq<Op>, hist: seq<State>, n: nat, d: nat, e: nat, i: nat)
    requires History(kernel, scanned, ops, hist) && Lasts(hist, d) && Lasts(hist, e) && n < |hist|
    requires Shares(hist[0].mem, d, e, i)
    ensures Shares(hist[n].mem, d, e, i)
  {
    if n > 0 {
      SharingLasts(kernel, scanned, ops, hist, n - 1, d, e, i);
      assert StepTo(kernel, scanned, hist[n - 1], ops[n - 1], hist[n]);
      StepKeepsTables(kernel, scanned, hist[n - 1], ops[n - 1], hist[n], d);
      StepKeepsTables(kernel, scanned, hist[n - 1], ops[n - 1], hist[n], e);
    }
  }

  /** Over every run that maps and unmaps below the kernel base only, a lasting directory that is never
      current keeps all its words, and so its translations, whatever is mapped, cloned or freed beside it. */
  lemma {:induction false} SpacesIsolated(kernel: nat, scanned: nat, ops: seq<Op>, hist: seq<State>, n: nat, d: nat, q: nat)
    requires History(kernel, scanned, ops, hist) && Lasts(hist, d) && n < |hist| && q < PAGES
    requires forall m :: 0 <= m < |hist| ==> UserApart(hist[m]) && hist[m].current in hist[m].dirs && hist[m].current != d
    requires forall m :: 0 <= m < |ops| ==> UserOp(ops[m]) && ProperOp(ops[m])
    ensures PageWord(hist[n].mem, d, q) == PageWord(hist[0].mem, d, q) && Translate(hist[n].mem, d, q) == Translate(hist[0].mem, d, q)
    ensures forall k: nat :: DirWord(hist[n].mem, d, k) == DirWord(hist[0].mem, d, k)
  {
    if n > 0 {
      SpacesIsolated(kernel, scanned, ops, hist, n - 1, d, q);
      assert StepTo(kernel, scanned, hist[n - 1], ops[n - 1], hist[n]);
      StepIsolates(kernel, scanned, hist[n - 1], ops[n - 1], hist[n], d);
    }
  }

  /** Directories that share a table agree on all its pages. */
  lemma SharedTablesAgree(m: Frames, d: nat, e: nat, q: nat)
    requires Shares(m, d, e, q / ENTRIES)
    ensures PageWord(m, d, q) == PageWord(m, e, q) && Translate(m, d, q) == Translate(m, e, q)
  {
  }

  function P2V(phys: nat): nat { (phys + KERNEL_BASE) % WORD }
  function V2P(virt: nat): nat { (virt - KERNEL_BASE) % WORD }

  lemma WindowInverse(phys: nat)
    requires phys < WORD
    ensures V2P(P2V(phys)) == phys
  {
  }

  /** `spaces` names directories, each at most once. */
  ghost predicate Listed(spaces: seq<nat>, dirs: set<nat>) {
    && (forall i :: 0 <= i < |spaces| ==> spaces[i] in dirs)
    && forall i, j :: 0 <= i < j < |spaces| ==> spaces[i] != spaces[j]
  }

  class AddressSpaces {
    const pmm: FrameAllocator
    const kernel: nat          // the directories, by physical address
    var current: nat
    var mem: Frames
    ghost var dirs: set<nat>

    ghost predicate Valid()
      reads this, pmm, pmm.bitmap
    {
      && pmm.Valid() && pmm.bitmap.Length > 0 && pmm.Blocks()[0]
      && kernel in dirs && current in dirs
      && Inv(mem, dirs, pmm.Blocks())
    }

    ghost function Now(spaces: seq<nat>): State
      reads this, pmm, pmm.bitmap
    {
      State(mem, dirs, current, spaces, pmm.Blocks())
    }

    /** The directory that vmm_init starts from, before its mapping loops. */
    constructor (pmm: FrameAllocator)
      requires pmm.Valid() && pmm.bitmap.Length > 0 && pmm.Blocks()[0] && !AllTaken(pmm.Blocks(), pmm.Scanned())
      modifies pmm`used, pmm.bitmap
      ensures Valid() && this.pmm == pmm && current == kernel && dirs == {kernel}
      ensures forall q: nat :: Translate(mem, kernel, q) == None
    {
      var dir := pmm.AllocBlock();
      this.pmm, kernel, current := pmm, dir, dir;
      mem := map[dir := ZeroFrame()];
      dirs := {dir};
    }

    /** The mapping loops of vmm_init, run on the empty directory. The source ignores the results of its
        calls; one of them fails only when no frame is left. When none has failed, the kernel's map is the identity on the first megabyte and
        the window on the first 128 megabytes from the kernel base on, and nothing else; every page of it is
        present and writable. */
    method MapKernel() returns (ok: bool)
      requires Valid() && current == kernel && forall q: nat :: Translate(mem, kernel, q) == None
      modifies this`mem, pmm`used, pmm.bitmap
      ensures Valid() && (!ok ==> AllTaken(pmm.Blocks(), pmm.Scanned()))
      ensures ok ==> forall q: nat {:trigger Translate(mem, kernel, q)} :: q < PAGES ==>
                Translate(mem, kernel, q) ==
                if q < 0x100 then Some(q * BLOCK) else if 0xC_0000 <= q < 0xC_8000 then Some((q - 0xC_0000) * BLOCK) else None
      ensures ok ==> forall q: nat {:trigger PageWord(mem, kernel, q)} ::
                && (q < 0x100 ==> PageWord(mem, kernel, q) == Some(q * 4096 + 3))
                && (0xC_0000 <= q < 0xC_8000 ==> PageWord(mem, kernel, q) == Some((q - 0xC_0000) * 4096 + 3))
    {
      hide Inv, Translate, AllTaken;
      var low := MapRange(0, 0x100);
      var high := MapRange(0xC_0000, 0x8000);
      ok := low && high;
    }

    /** One such loop: `n` pages from page `first` on are mapped to the first `n` frames. */
    method MapRange(first: nat, n: nat) returns (ok: bool)
      requires Valid() && first + n <= PAGES
      modifies this`mem, pmm`used, pmm.bitmap
      ensures Valid() && (!ok ==> AllTaken(pmm.Blocks(), pmm.Scanned()))
      ensures old(AllTaken(pmm.Blocks(), pmm.Scanned())) ==> pmm.Blocks() == old(pmm.Blocks())
      ensures ok ==> forall q: nat {:trigger Translate(mem, current, q)} :: q < PAGES ==>
                Translate(mem, current, q) == if first <= q < first + n then Some((q - first) * BLOCK) else Translate(old(mem), current, q)
      ensures ok ==> forall q: nat {:trigger PageWord(mem, current, q)} :: first <= q < first + n ==>
                PageWord(mem, current, q) == Some((q - first) * BLOCK + 3)
      ensures ok ==> forall q: nat {:trigger PageWord(mem, current, q)} :: q < PAGES && !(first <= q < first + n) && PageWord(old(mem), current, q).Some? ==>
                PageWord(mem, current, q) == PageWord(old(mem), current, q)
    {
      hide Inv, Translate, TableAt, Bit, Shares, MakeEntry, AllTaken;
      ok := true;
      var i := 0;
      while i < n
        invariant 0 <= i <= n && Valid() && (!ok ==> AllTaken(pmm.Blocks(), pmm.Scanned()))
        invariant old(AllTaken(pmm.Blocks(), pmm.Scanned())) ==> pmm.Blocks() == old(pmm.Blocks())
        invariant ok ==> forall q: nat {:trigger Translate(mem, current, q)} :: q < PAGES ==>
                    Translate(mem, current, q) == if first <= q < first + i then Some((q - first) * BLOCK) else Translate(old(mem), current, q)
        invariant ok ==> forall q: nat {:trigger PageWord(mem, current, q)} :: first <= q < first + i ==>
                    PageWord(mem, current, q) == Some((q - first) * BLOCK + 3)
        invariant ok ==> forall q: nat {:trigger PageWord(mem, current, q)} :: q < PAGES && !(first <= q < first + i) && PageWord(old(mem), current, q).Some? ==>
                    PageWord(mem, current, q) == PageWord(old(mem), current, q)
      {
        KernelEntry(i * BLOCK);
        PageParts((first + i) * BLOCK);
        ghost var m0 := mem;
        var done := MapPage(i * BLOCK, (first + i) * BLOCK, 3);
        assert (first + i) * BLOCK / BLOCK == first + i && Frame(i * BLOCK) == i * BLOCK;
        forall q: nat | ok && done && q < PAGES && q != first + i && PageWord(m0, current, q).Some?
          ensures PageWord(mem, current, q) == PageWord(m0, current, q)
        {
          assert TableAt(m0, current, q / ENTRIES).Some?;
        }
        ok := ok && done;
        i := i + 1;
      }
    }

    /** vmm_map_page: one page of the current directory is mapped, and with it the same page of the
        directories that share its table. It fails exactly when a table is missing and no frame is
        left, and then changes nothing. Directory entries once present stay as they are. */
    method MapPage(phys: nat, virt: nat, flags: nat) returns (ok: bool)
      requires Valid() && phys < WORD && virt < WORD && flags < BLOCK
      modifies this`mem, pmm`used, pmm.bitmap
      ensures Valid()
      ensures !ok <==> old(TableAt(mem, current, virt / 0x40_0000) == None && AllTaken(pmm.Blocks(), pmm.Scanned()))
      ensures !ok ==> mem == old(mem) && pmm.Blocks() == old(pmm.Blocks())
      ensures old(AllTaken(pmm.Blocks(), pmm.Scanned())) ==> pmm.Blocks() == old(pmm.Blocks())
      ensures ok ==> forall d: nat, q: nat {:trigger Translate(mem, d, q)} :: d in dirs && q < PAGES ==>
                Translate(mem, d, q) ==
                if q == virt / BLOCK && (d == current || Shares(old(mem), d, current, virt / 0x40_0000)) then Some(Frame(phys))
                else Translate(old(mem), d, q)
      ensures ok ==> Flat(mem, current) == Flat(old(mem), current)[virt / BLOCK := Frame(phys)]
      ensures ok ==>
                && PageWord(mem, current, virt / BLOCK).Some?
                && forall k: nat :: Bit(PageWord(mem, current, virt / BLOCK).value, k) ==
                                    if k < 12 then Bit(phys, k) || Bit(flags, k) || k == 0 else Bit(phys, k)
      ensures ok ==> PageSet(old(mem), mem, dirs, current, virt / BLOCK, MakeEntry(phys, flags))
      ensures ok ==> Linked(old(mem), mem, dirs, current, virt / 0x40_0000, flags)
      ensures forall d: nat, k: nat {:trigger TableAt(mem, d, k)} :: d in dirs && TableAt(old(mem), d, k).Some? ==>
                TableAt(mem, d, k) == TableAt(old(mem), d, k)
    {
      hide Inv, PageWord, DirWord, TableAt, Shares, MakeEntry, Frame, Bit;
      var pd, pt := virt / 0x40_0000, virt / BLOCK % ENTRIES;
      PageParts(virt);
      ghost var m0 := mem;
      var t;
      ok, t := TableFor(pd, flags);
      if !ok {
        return;
      }
      ghost var m1 := mem;
      PutTableEntry(mem, dirs, pmm.Blocks(), current, pd, pt, MakeEntry(phys, flags));
      mem := PutWord(mem, t, pt, MakeEntry(phys, flags));
      forall d: nat, q: nat | d in dirs && q < PAGES && PageWord(mem, d, q) == PageWord(m1, d, q)
        ensures Translate(mem, d, q) == Translate(m0, d, q)
      {
        assert Translate(m1, d, q) == Translate(m0, d, q);
      }
      FlatUpdate(m0, mem, current, virt / BLOCK, Some(Frame(phys)));
      forall d: nat, k: nat | d in dirs
        ensures if d == current && k == pd && TableAt(m0, d, pd) == None
                then TableAt(mem, d, pd) == Some(t) && DirWord(mem, d, k) == MakeEntry(t, flags)
                else DirWord(mem, d, k) == DirWord(m0, d, k)
      {
        assert DirWord(mem, d, k) == DirWord(m1, d, k);
        assert TableAt(mem, current, pd) == TableAt(m1, current, pd);
      }
      forall k: nat ensures Bit(MakeEntry(phys, flags), k) == if k < 12 then Bit(phys, k) || Bit(flags, k) || k == 0 else Bit(phys, k) {
        EntryBits(phys, flags, k);
      }
    }

    /** The first half of vmm_map_page: the table for directory entry `pd`, allocated if it is missing. */
    method TableFor(pd: nat, flags: nat) returns (ok: bool, t: nat)
      requires Valid() && pd < ENTRIES && flags < BLOCK
      modifies this`mem, pmm`used, pmm.bitmap
      ensures Valid()
      ensures !ok <==> old(TableAt(mem, current, pd) == None && AllTaken(pmm.Blocks(), pmm.Scanned()))
      ensures !ok ==> mem == old(mem) && pmm.Blocks() == old(pmm.Blocks())
      ensures old(AllTaken(pmm.Blocks(), pmm.Scanned())) ==> pmm.Blocks() == old(pmm.Blocks())
      ensures ok ==> TableAt(mem, current, pd) == Some(t)
      ensures forall d: nat, q: nat {:trigger Translate(mem, d, q)} :: d in dirs ==> Translate(mem, d, q) == Translate(old(mem), d, q)
      ensures ok ==> forall d: nat, q: nat {:trigger PageWord(mem, d, q)} :: d in dirs ==>
                PageWord(mem, d, q) == if d == current && q / ENTRIES == pd && TableAt(old(mem), d, pd) == None then Some(0) else PageWord(old(mem), d, q)
      ensures ok ==> forall d: nat, k: nat {:trigger DirWord(mem, d, k)} :: d in dirs ==>
                DirWord(mem, d, k) == if d == current && k == pd && TableAt(old(mem), d, pd) == None then MakeEntry(t, flags) else DirWord(old(mem), d, k)
      ensures forall d: nat, k: nat {:trigger TableAt(mem, d, k)} :: d in dirs && TableAt(old(mem), d, k).Some? ==>
                TableAt(mem, d, k) == TableAt(old(mem), d, k)
      ensures forall d: nat :: d in dirs && d != current ==> Shares(mem, d, current, pd) == Shares(old(mem), d, current, pd)
    {
      hide PageWord, MakeEntry;
      assert HasFrame(mem, current);
      ghost var m0, taken := mem, pmm.Blocks();
      ok := true;
      if !Present(mem[current][pd]) {
        t := pmm.AllocBlock();
        if t == NULL {
          return false, t;
        }
        AddTable(m0, dirs, taken, current, pd, t, flags);
        mem := mem[t := ZeroFrame()];
        mem := PutWord(mem, current, pd, MakeEntry(t, flags));
        forall d: nat | d in dirs && d != current ensures Shares(mem, d, current, pd) == Shares(m0, d, current, pd) {
          assert TableAt(mem, d, pd) == TableAt(m0, d, pd);
          FreeIsUnused(m0, dirs, taken, t, d, pd);
        }
      } else {
        t := Frame(mem[current][pd]);
      }
    }

    /** vmm_unmap_page: one page is removed; nothing happens when its table is missing. */
    method UnmapPage(virt: nat)
      requires Valid() && virt < WORD
      modifies this`mem
      ensures Valid()
      ensures forall d: nat, q: nat {:trigger Translate(mem, d, q)} :: d in dirs && q < PAGES ==>
                Translate(mem, d, q) ==
                if q == virt / BLOCK && (d == current || Shares(old(mem), d, current, virt / 0x40_0000)) then None
                else Translate(old(mem), d, q)
      ensures Flat(mem, current) == Flat(old(mem), current) - {virt / BLOCK}
      ensures TableAt(old(mem), current, virt / 0x40_0000) == None ==> mem == old(mem)
      ensures TableAt(old(mem), current, virt / 0x40_0000).Some? ==>
                PageSet(old(mem), mem, dirs, current, virt / BLOCK, 0) && Linked(old(mem), mem, dirs, current, virt / 0x40_0000, 0)
      ensures forall d: nat, k: nat {:trigger DirWord(mem, d, k)} :: d in dirs ==> DirWord(mem, d, k) == DirWord(old(mem), d, k)
      ensures forall d: nat, k: nat {:trigger TableAt(mem, d, k)} :: d in dirs ==> TableAt(mem, d, k) == TableAt(old(mem), d, k)
    {
      var pd, pt := virt / 0x40_0000, virt / BLOCK % ENTRIES;
      PageParts(virt);
      assert HasFrame(mem, current);
      ghost var m0 := mem;
      if Present(mem[current][pd]) {
        var t := Frame(mem[current][pd]);
        assert TableAt(m0, current, pd) == Some(t);
        PutTableEntry(m0, dirs, pmm.Blocks(), current, pd, pt, 0);
        mem := PutWord(mem, t, pt, 0);
      } else {
        assert TableAt(m0, current, pd) == None;
      }
      FlatUpdate(m0, mem, current, virt / BLOCK, None);
    }

    /** vmm_get_phys reads the current directory's map. Its NULL result also stands for frame 0. */
    method GetPhys(virt: nat) returns (phys: nat)
      requires Valid() && virt < WORD
      ensures phys == match Translate(mem, current, virt / BLOCK) case None => NULL case Some(f) => f
    {
      var pd, pt := virt / 0x40_0000, virt / BLOCK % ENTRIES;
      PageParts(virt);
      assert HasFrame(mem, current);
      if !Present(mem[current][pd]) {
        return NULL;
      }
      assert TableAt(mem, current, pd).Some?;
      var t := Frame(mem[current][pd]);
      if !Present(mem[t][pt]) {
        return NULL;
      }
      phys := Frame(mem[t][pt]);
    }

    /** vmm_switch_directory, given the physical address of a directory. */
    method SwitchDirectory(dir: nat)
      requires Valid() && dir in dirs
      modifies this`current
      ensures Valid() && current == dir
    {
      current := dir;
    }

    /** Any run of mapping, unmapping, switching, cloning and freeing. `hist` holds the state before and
        after each operation. Kernel tables once shared stay shared between directories that last,
        so these keep agreeing on their pages; and when the run maps nothing above the kernel base, every
        lasting directory that is never current keeps all its translations. */
    method Run(ops: seq<Op>, spaces0: seq<nat>) returns (spaces: seq<nat>, ghost hist: seq<State>)
      requires Valid() && Listed(spaces0, dirs)
      requires forall n :: 0 <= n < |ops| ==> ProperOp(ops[n])
      modifies this`mem, this`current, this`dirs, pmm`used, pmm.bitmap
      ensures Valid() && Listed(spaces, dirs)
      ensures History(kernel, pmm.Scanned(), ops, hist) && hist[0] == old(Now(spaces0)) && hist[|ops|] == Now(spaces)
      ensures forall d: nat, e: nat, i: nat {:trigger Shares(mem, d, e, i)} ::
                Lasts(hist, d) && Lasts(hist, e) && Shares(old(mem), d, e, i) ==> Shares(mem, d, e, i)
      ensures (forall n :: 0 <= n < |ops| ==> UserOp(ops[n])) ==>
                forall d: nat, q: nat {:trigger Translate(mem, d, q)} {:trigger PageWord(mem, d, q)} ::
                  Lasts(hist, d) && (forall n :: 0 <= n < |hist| ==> hist[n].current != d) && q < PAGES ==>
                  PageWord(mem, d, q) == PageWord(old(mem), d, q) && Translate(mem, d, q) == Translate(old(mem), d, q)
    {
      hide StepTo, Inv, Listed, UserApart, Shares, Translate, PageWord, DirWord;
      spaces := spaces0;
      hist := [Now(spaces)];
      NowApart();
      var n := 0;
      while n < |ops|
        invariant 0 <= n <= |ops| && Valid() && Listed(spaces, dirs) && |hist| == n + 1
        invariant hist[0] == old(Now(spaces0)) && hist[n] == Now(spaces)
        invariant forall m {:trigger ops[m]} :: 0 <= m < n ==> StepTo(kernel, pmm.Scanned(), hist[m], ops[m], hist[m + 1])
        invariant forall m :: 0 <= m < |hist| ==> UserApart(hist[m]) && hist[m].current in hist[m].dirs
      {
        spaces := Serve(ops[n], spaces);
        NowApart();
        hist := hist + [Now(spaces)];
        n := n + 1;
      }
      forall d: nat, e: nat, i: nat | Lasts(hist, d) && Lasts(hist, e) && Shares(hist[0].mem, d, e, i) ensures Shares(mem, d, e, i) {
        SharingLasts(kernel, pmm.Scanned(), ops, hist, n, d, e, i);
      }
      if forall n :: 0 <= n < |ops| ==> UserOp(ops[n]) {
        forall d: nat, q: nat | Lasts(hist, d) && (forall n :: 0 <= n < |hist| ==> hist[n].current != d) && q < PAGES
          ensures PageWord(mem, d, q) == PageWord(hist[0].mem, d, q) && Translate(mem, d, q) == Translate(hist[0].mem, d, q)
        {
          SpacesIsolated(kernel, pmm.Scanned(), ops, hist, n, d, q);
        }
      }
    }

    lemma NowApart()
      requires Valid()
      ensures UserApart(State(mem, dirs, current, [], pmm.Blocks()))
      ensures forall spaces :: UserApart(Now(spaces))
    {
    }

    /** One operation of a run. The kernel directory and the current one are not freed. */
    method Serve(op: Op, spaces: seq<nat>) returns (spaces': seq<nat>)
      requires Valid() && Listed(spaces, dirs) && ProperOp(op)
      modifies this`mem, this`current, this`dirs, pmm`used, pmm.bitmap
      ensures Valid() && Listed(spaces', dirs) && StepTo(kernel, pmm.Scanned(), old(Now(spaces)), op, Now(spaces'))
    {
      hide Inv, Translate, TableAt, Shares, Frame, OwnBlock, AllTaken, PageWord, DirWord, MakeEntry, PageSet, Linked;
      spaces' := spaces;
      match op
      case OpMap(phys, virt, flags) =>
        PageParts(virt);
        var _ := MapPage(phys, virt, flags);
      case OpUnmap(virt) =>
        PageParts(virt);
        UnmapPage(virt);
      case OpSwitch(k) =>
        if k < |spaces| {
          SwitchDirectory(spaces[k]);
        }
      case OpClone =>
        var virt, f := CloneDirectory();
        if virt != NULL {
          WindowInverse(f);
          spaces' := spaces + [V2P(virt)];
        }
        assert !AllTaken(old(pmm.Blocks()), pmm.Scanned()) ==> Cloned(kernel, old(Now(spaces)), Now(spaces'), f);
      case OpFree(k) =>
        if k < |spaces| && spaces[k] != kernel && spaces[k] != current {
          DirNotNull(mem, dirs, pmm.Blocks(), spaces[k]);
          FreeDirectory(spaces[k]);
          spaces' := spaces[..k] + spaces[k + 1..];
        }
    }

    /** vmm_clone_directory returns the new directory's address in the kernel's window, or NULL. */
    method CloneDirectory() returns (virt: nat, ghost f: nat)
      requires Valid()
      modifies this`mem, this`dirs, pmm`used, pmm.bitmap
      ensures Valid()
      ensures old(AllTaken(pmm.Blocks(), pmm.Scanned())) ==>
                virt == NULL && mem == old(mem) && dirs == old(dirs) && pmm.Blocks() == old(pmm.Blocks())
      ensures !old(AllTaken(pmm.Blocks(), pmm.Scanned())) ==>
                && virt == (f + 0xC000_0000) % WORD && f < WORD && f !in old(dirs) && dirs == old(dirs) + {f}
                && (forall d: nat, i: nat {:trigger TableAt(mem, d, i)} :: d in old(dirs) ==> TableAt(mem, d, i) == TableAt(old(mem), d, i))
                && (forall d: nat, i: nat {:trigger DirWord(mem, d, i)} :: d in old(dirs) ==> DirWord(mem, d, i) == DirWord(old(mem), d, i))
                && (forall d: nat, q: nat {:trigger PageWord(mem, d, q)} :: d in old(dirs) ==> PageWord(mem, d, q) == PageWord(old(mem), d, q))
                && (forall i: nat {:trigger DirWord(mem, f, i)} :: DirWord(mem, f, i) == if i >= 768 then DirWord(old(mem), kernel, i) else 0)
                && (forall q: nat {:trigger PageWord(mem, f, q)} :: q < PAGES ==>
                      PageWord(mem, f, q) == if q * BLOCK >= 0xC000_0000 then PageWord(old(mem), kernel, q) else None)
                && forall i: nat {:trigger Shares(mem, f, kernel, i)} :: KERNEL_SLOT <= i < ENTRIES && TableAt(mem, kernel, i).Some? ==>
                     Shares(mem, f, kernel, i)
    {
      ghost var taken := pmm.Blocks();
      var phys := pmm.AllocBlock();
      f := phys;
      if phys == NULL {
        return NULL, f;
      }
      AddClone(mem, dirs, taken, kernel, phys);
      ghost var m' := mem[phys := CloneFrame(mem[kernel])];
      var dir: seq<nat> := ZeroFrame();
      var i := KERNEL_SLOT;
      while i < ENTRIES
        invariant KERNEL_SLOT <= i <= ENTRIES && |dir| == ENTRIES
        invariant forall k :: 0 <= k < ENTRIES ==> dir[k] == if KERNEL_SLOT <= k < i then mem[kernel][k] else 0
      {
        dir := dir[i := mem[kernel][i]];
        i := i + 1;
      }
      assert dir == CloneFrame(mem[kernel]);
      mem := mem[phys := dir];
      dirs := dirs + {phys};
      virt := P2V(phys);
    }

    /** vmm_free_directory, given the physical address: the blocks given back are exactly the
        directory's tables below the kernel base and the directory itself. The source does not keep its
        caller from freeing the kernel directory or the current one, and then these stay in use
        without their frames: the state is well formed if and only if it was neither. */
    method FreeDirectory(dir: nat)
      requires Valid() && (dir == NULL || dir in dirs)
      modifies this`dirs, pmm`used, pmm.bitmap
      ensures Valid() <==> dir != kernel && dir != current
      ensures pmm.Valid() && |pmm.Blocks()| == |old(pmm.Blocks())| && Inv(mem, dirs, pmm.Blocks())
      ensures dir == NULL ==> dirs == old(dirs) && pmm.Blocks() == old(pmm.Blocks())
      ensures dir != NULL ==> dirs == old(dirs) - {dir}
      ensures dir != NULL ==> forall b: nat :: b < |pmm.Blocks()| ==> pmm.Blocks()[b] == (old(pmm.Blocks())[b] && !OwnBlock(mem, dir, b))
    {
      if dir == NULL {
        return;
      }
      hide Separate;
      assert HasFrame(mem, dir) && TakenAt(pmm.Blocks(), dir);
      FreeTables(dir);
      pmm.FreeBlock(dir);
      forall b: nat | b < |pmm.Blocks()| ensures pmm.Blocks()[b] == (old(pmm.Blocks())[b] && !OwnBlock(mem, dir, b)) {
        assert OwnBlock(mem, dir, b) <==> b * BLOCK == dir || TableBlock(mem, dir, KERNEL_SLOT, b);
      }
      DropDir(mem, dirs, old(pmm.Blocks()), dir, pmm.Blocks());
      assert !OwnBlock(mem, dir, 0) by { ZeroNotOwn(mem, dirs, old(pmm.Blocks()), dir); }
      dirs := dirs - {dir};
    }

    /** The loop of vmm_free_directory. */
    method FreeTables(dir: nat)
      requires pmm.Valid() && HasFrame(mem, dir)
      requires forall i: nat {:trigger TableAt(mem, dir, i)} :: TableAt(mem, dir, i).Some? ==> TakenAt(pmm.Blocks(), TableAt(mem, dir, i).value)
      modifies pmm`used, pmm.bitmap
      ensures pmm.Valid()
      ensures forall b: nat :: b < |pmm.Blocks()| ==> pmm.Blocks()[b] == (old(pmm.Blocks())[b] && !TableBlock(mem, dir, KERNEL_SLOT, b))
    {
      var i := 0;
      while i < KERNEL_SLOT
        invariant 0 <= i <= KERNEL_SLOT && pmm.Valid()
        invariant forall b: nat :: b < |pmm.Blocks()| ==> pmm.Blocks()[b] == (old(pmm.Blocks())[b] && !TableBlock(mem, dir, i, b))
      {
        ghost var before := pmm.Blocks();
        if Present(mem[dir][i]) {
          var t := Frame(mem[dir][i]);
          assert TableAt(mem, dir, i) == Some(t) && TakenAt(old(pmm.Blocks()), t);
          pmm.FreeBlock(t);
        } else {
          assert TableAt(mem, dir, i) == None;
        }
        forall b: nat | b < |pmm.Blocks()| ensures pmm.Blocks()[b] == (old(pmm.Blocks())[b] && !TableBlock(mem, dir, i + 1, b)) {
          TableBlockStep(mem, dir, i, b);
        }
        i := i + 1;
      }
    }
  }

  lemma DirNotNull(m: Frames, dirs: set<nat>, taken: seq<bool>, d: nat)
    requires Inv(m, dirs, taken) && d in dirs
    ensures d != NULL
  {
    assert TakenAt(taken, d);
  }

  lemma TableBlockStep(m: Frames, d: nat, n: nat, b: nat)
    ensures TableBlock(m, d, n + 1, b) <==> TableBlock(m, d, n, b) || TableAt(m, d, n) == Some(b * BLOCK)
  {
  }

  /** Block 0 is never a directory's own. */
  lemma ZeroNotOwn(m: Frames, dirs: set<nat>, taken: seq<bool>, d: nat)
    requires Owned(m, dirs, taken) && d in dirs
    ensures !OwnBlock(m, d, 0)
  {
    assert TakenAt(taken, d);
    forall i: nat ensures TableAt(m, d, i) != Some(0) {
      assert TableAt(m, d, i).Some? ==> TakenAt(taken, TableAt(m, d, i).value);
    }
  }

  /** The page number, directory index and table index of an address. */
  lemma PageParts(virt: nat)
    requires virt < WORD
    ensures var page := virt / BLOCK;
            && page < PAGES && virt / 0x40_0000 == page / ENTRIES < ENTRIES
            && page == virt / 0x40_0000 * ENTRIES + page % ENTRIES
  {
  }
}
