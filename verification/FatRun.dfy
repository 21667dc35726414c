/** Runs of file operations: what an ideal file system, a map from paths to contents, does, and what it
    means that the driver does the same. */
module FatRun {
  import opened Bytes
  import opened Common
  import opened FatDisk
  import opened FatChain
  import opened FatDir
  import opened FatName
  import opened FatTree
  import opened FatPath

  datatype Op =
    | OpCreate(path: seq<seq<byte>>, name: seq<byte>)
    | OpMkdir(path: seq<seq<byte>>, name: seq<byte>)
    | OpWrite(path: seq<seq<byte>>, name: seq<byte>, offset: nat, buf: seq<byte>)
    | OpRead(path: seq<seq<byte>>, name: seq<byte>, offset: nat, size: nat)
    | OpUnlink(path: seq<seq<byte>>, name: seq<byte>)

  datatype Outcome = Failed | Done | Wrote(n: nat) | Got(bytes: seq<byte>)

  /** A name that is not stored as a deleted slot. */
  ghost predicate Proper(name: seq<byte>) {
    IsCString(name) && Normal(name)[0] != DELETED
  }

  /** Names that are looked up do not begin with the deletion mark; numbers are 32-bit. */
  ghost predicate ProperOp(op: Op) {
    && IsCString(op.name) && (forall i :: 0 <= i < |op.path| ==> Proper(op.path[i]))
    && (op.OpWrite? ==> Proper(op.name) && op.offset < WORD && |op.buf| < WORD)
    && (op.OpRead? ==> Proper(op.name) && op.offset < WORD && op.size < WORD)
  }

  ghost function Normals(path: seq<seq<byte>>): (p: Path)
    ensures |p| == |path|
  {
    seq(|path|, i requires 0 <= i < |path| => Normal(path[i]))
  }

  ghost function Target(op: Op): Path {
    Normals(op.path) + [Normal(op.name)]
  }

  // ---- the ideal file system ----

  ghost predicate IsFile(fs: Fs, p: Path) { p in fs && fs[p].File? }
  ghost predicate IsDir(fs: Fs, p: Path) { p in fs && fs[p].Dir? }

  /** What an operation with outcome `r` makes of the map. A name with the deletion mark cannot be found
      again. */
  ghost function Next(fs: Fs, op: Op, r: Outcome): Fs {
    var p := Target(op);
    match op
    case OpCreate(_, name) => if r.Done? && Normal(name)[0] != DELETED then fs[p := File([])] else fs
    case OpMkdir(_, name) => if r.Done? && Normal(name)[0] != DELETED then fs[p := Dir] else fs
    case OpWrite(_, _, offset, buf) =>
      if r.Wrote? && r.n <= |buf| && IsFile(fs, p) then fs[p := File(Spliced(fs[p].content, offset, buf[..r.n]))] else fs
    case OpRead(_, _, _, _) => fs
    case OpUnlink(_, _) => if r.Done? then Without(fs, p) else fs
  }

  /** The outcomes an operation may have. Reading a directory gives nothing. */
  ghost predicate Answers(fs: Fs, op: Op, r: Outcome) {
    var p := Target(op);
    match op
    case OpCreate(path, _) => r.Failed? || (r.Done? && IsDir(fs, Normals(path)))
    case OpMkdir(path, _) => r.Failed? || (r.Done? && IsDir(fs, Normals(path)))
    case OpWrite(_, _, _, buf) => if IsFile(fs, p) then r.Wrote? && r.n <= |buf| else p !in fs && r.Failed?
    case OpRead(_, _, offset, size) =>
      if IsFile(fs, p) then r == Got(Range(fs[p].content, offset, size)) else if p in fs then r == Got([]) else r.Failed?
    case OpUnlink(_, _) => if p in fs then r.Done? else r.Failed?
  }

  /** The write would go into a directory: the driver does not look at the kind of its target. */
  ghost predicate WritesDir(fs: Fs, op: Op) { op.OpWrite? && IsDir(fs, Target(op)) }

  /** What a caller has to see to for the map to be followed: no name is created twice, nothing is
      written into a directory or behind the end of a file, and no sum of an offset and a size leaves 32
      bits. */
  ghost predicate Tame(fs: Fs, op: Op) {
    var p := Target(op);
    match op
    case OpCreate(_, name) => p !in fs
    case OpMkdir(_, name) => p !in fs
    case OpWrite(_, _, offset, buf) => !IsDir(fs, p) && (IsFile(fs, p) ==> offset <= |fs[p].content| && offset + |buf| < WORD)
    case OpRead(_, _, offset, size) => offset + size < WORD
    case OpUnlink(_, _) => true
  }

  ghost function Replay(fs: Fs, ops: seq<Op>, rs: seq<Outcome>): Fs
    requires |rs| == |ops|
  {
    if ops == [] then fs
    else
      var n := |ops| - 1;
      Next(Replay(fs, ops[..n], rs[..n]), ops[n], rs[n])
  }

  ghost predicate TameAll(fs: Fs, ops: seq<Op>, rs: seq<Outcome>)
    requires |rs| == |ops|
  {
    forall i {:trigger ops[i]} :: 0 <= i < |ops| ==> Tame(Replay(fs, ops[..i], rs[..i]), ops[i])
  }

  ghost predicate AnswersAll(fs: Fs, ops: seq<Op>, rs: seq<Outcome>)
    requires |rs| == |ops|
  {
    forall i {:trigger ops[i]} :: 0 <= i < |ops| ==> Answers(Replay(fs, ops[..i], rs[..i]), ops[i], rs[i])
  }

  // ---- volumes that the driver has kept to itself ----

  /** No two live slots have the same name, every entry has a first cluster, and a directory's says size
      0. */
  ghost predicate PlainTable(table: seq<Slot>) {
    && (forall i, j :: 0 <= i < j < |table| && Live(table[i]) && Live(table[j]) ==> NameOf(table[i]) != NameOf(table[j]))
    && forall i :: 0 <= i < |table| && Live(table[i]) && table[i][0] != DOT ==>
         StartOf(table[i]) != 0 && (IsDirAttr(AttrOf(table[i])) ==> SizeOf(table[i]) == 0)
  }

  ghost predicate Plain(v: Vol, t: Tree)
    requires Shaped(v)
  {
    forall d {:trigger Table(v, d)} :: d in t.dirs && 2 <= d < |v.data| ==> PlainTable(Table(v, d))
  }

  lemma PlainFill(table: seq<Slot>, k: nat, e: Slot)
    requires PlainTable(table) && k < |table| && !Live(table[k])
    requires Live(e) ==> Lookup(table, NameOf(e)) == None && StartOf(e) != 0 && SizeOf(e) == 0
    ensures PlainTable(table[k := e])
  {
    assert forall j :: 0 <= j < |table| ==> table[j] in table;
  }

  lemma PlainMark(table: seq<Slot>, k: nat)
    requires PlainTable(table) && k < |table|
    ensures PlainTable(table[k := Mark(table[k])])
  {
  }

  lemma PlainUnique(table: seq<Slot>, k: nat)
    requires PlainTable(table) && k < |table| && Live(table[k])
    ensures UniqueName(table, k)
  {
  }

  lemma PlainFresh(c: nat, parent: nat, cs: nat)
    requires c < WORD && parent < WORD && cs >= 64 && cs % 32 == 0
    ensures PlainTable(Slots(FreshDir(c, parent, cs)))
  {
    hide FreshDir, Slots, MakeSlot;
    FreshDirSlots(c, parent, cs);
    assert DOT_NAME[1] != DOTDOT_NAME[1];
  }

  /** A formatted volume is one, and as a map it has nothing but its root. */
  lemma PlainRoot(v: Vol, root: nat)
    requires Shaped(v) && 2 <= root < |v.fat| && forall i :: 0 <= i < v.cs ==> v.data[root][i] == 0
    ensures Plain(v, RootOnly(root)) && View(v, RootOnly(root)) == imap[[] := Dir]
  {
    var t := RootOnly(root);
    ZeroSlots(v.data[root]);
    forall p: Path | p != [] ensures EntryAt(v, t, p) == None {
      NothingThere(v, root, p);
    }
  }

  /** A formatted disk, read as a map. */
  lemma FormattedMap(g: Geometry, d: Disk, root: nat) returns (v: Vol)
    requires Formatted(g, d, root)
    ensures Holds(g, d, v) && Inv(v, RootOnly(root)) && Plain(v, RootOnly(root)) && View(v, RootOnly(root)) == imap[[] := Dir]
  {
    v := FormattedHolds(g, d, root);
    InvShaped(v, RootOnly(root));
    PlainRoot(v, root);
  }

  lemma {:induction false} NothingThere(v: Vol, root: nat, p: Path)
    requires Shaped(v) && 2 <= root < |v.fat| && p != [] && forall k :: 0 <= k < |Table(v, root)| ==> IsUnused(Table(v, root)[k])
    ensures DirAt(v, RootOnly(root), p) == None && EntryAt(v, RootOnly(root), p) == None
  {
    if |p| > 1 {
      NothingThere(v, root, p[..|p| - 1]);
    } else {
      assert p[..0] == [];
      LookupNone(Table(v, root), p[0]);
    }
  }

  // ---- one operation ----

  /** Both maps agree on every path but `p`. */
  ghost predicate OnlyAt(fs: Fs, fs': Fs, p: Path) {
    forall q :: q != p ==> (q in fs <==> q in fs') && (q in fs ==> fs'[q] == fs[q])
  }

  /** From `(v, t)` to `(w, u)` operation `op` has had outcome `r`. Creating fails exactly when there is no
      room, the other operations exactly when there is nothing at their target, and what fails changes nothing. A
      write that is cut short has found the disk full, and a write, wherever it begins, changes no
      other path. On a plain volume a tame operation follows the map. */
  ghost predicate Effect(v: Vol, t: Tree, op: Op, r: Outcome, w: Vol, u: Tree) {
    && Inv(v, t) && Inv(w, u)
    && (r.Failed? <==> if op.OpCreate? || op.OpMkdir? then NoRoom(v, t, Normals(op.path)) else Target(op) !in View(v, t))
    && (r.Failed? || op.OpRead? ==> w == v && u == t)
    && (op.OpWrite? && r.Wrote? && r.n < |op.buf| ==> Full(w.fat))
    && (op.OpWrite? && Plain(v, t) ==> Plain(w, u) && OnlyAt(View(v, t), View(w, u), Target(op)))
    && (Plain(v, t) && Tame(View(v, t), op) ==>
          Plain(w, u) && View(w, u) == Next(View(v, t), op, r) && Answers(View(v, t), op, r))
  }

  /** Nothing can be created in the directory at `p`: there is none, or the disk or the directory is
      full. */
  ghost predicate NoRoom(v: Vol, t: Tree, p: Path)
    requires Shaped(v)
  {
    var d := DirAt(v, t, p);
    d.None? || Full(v.fat) || (2 <= d.value < |v.data| && DirFull(Table(v, d.value)))
  }

  lemma EffectFollows(v: Vol, t: Tree, op: Op, r: Outcome, w: Vol, u: Tree)
    requires Effect(v, t, op, r, w, u) && Shaped(v) && Plain(v, t) && Tame(View(v, t), op)
    ensures Shaped(w) && Plain(w, u) && View(w, u) == Next(View(v, t), op, r) && Answers(View(v, t), op, r)
  {
  }

  /** A run that starts from such a volume and keeps to what is tame ends in the map that the ideal file
      system ends in, and every answer, in particular every read, was the ideal one. */
  lemma {:induction false} RunRefines(hist: seq<(Vol, Tree)>, ops: seq<Op>, rs: seq<Outcome>, n: nat)
    requires |hist| == |ops| + 1 && |rs| == |ops| && n <= |ops|
    requires forall i {:trigger ops[i]} :: 0 <= i < |ops| ==> Effect(hist[i].0, hist[i].1, ops[i], rs[i], hist[i + 1].0, hist[i + 1].1)
    requires Shaped(hist[0].0) && Plain(hist[0].0, hist[0].1)
    requires forall i {:trigger ops[i]} :: 0 <= i < n ==> Tame(Replay(View(hist[0].0, hist[0].1), ops[..i], rs[..i]), ops[i])
    ensures Shaped(hist[n].0) && Plain(hist[n].0, hist[n].1)
    ensures View(hist[n].0, hist[n].1) == Replay(View(hist[0].0, hist[0].1), ops[..n], rs[..n])
    ensures forall i {:trigger ops[i]} :: 0 <= i < n ==> Answers(Replay(View(hist[0].0, hist[0].1), ops[..i], rs[..i]), ops[i], rs[i])
  {
    hide Next, Answers, Tame, Plain, View, Effect;
    if n > 0 {
      RunRefines(hist, ops, rs, n - 1);
      var m := n - 1;
      assert Tame(Replay(View(hist[0].0, hist[0].1), ops[..m], rs[..m]), ops[m]);
      EffectFollows(hist[m].0, hist[m].1, ops[m], rs[m], hist[m + 1].0, hist[m + 1].1);
      ReplayStep(View(hist[0].0, hist[0].1), ops, rs, m);
    }
  }

  lemma ReplayStep(fs: Fs, ops: seq<Op>, rs: seq<Outcome>, m: nat)
    requires |rs| == |ops| && m < |ops|
    ensures Replay(fs, ops[..m + 1], rs[..m + 1]) == Next(Replay(fs, ops[..m], rs[..m]), ops[m], rs[m])
  {
    assert ops[..m + 1][..m] == ops[..m] && rs[..m + 1][..m] == rs[..m];
  }

  // ---- the five operations ----

  /** Below what is no directory there is nothing. */
  lemma TargetAbsent(v: Vol, t: Tree, op: Op)
    requires Shaped(v) && DirAt(v, t, Normals(op.path)) == None
    ensures Target(op) !in View(v, t)
  {
    var p := Target(op);
    assert p[..|p| - 1] == Normals(op.path);
  }

  lemma FailedEffect(v: Vol, t: Tree, op: Op)
    requires Inv(v, t)
    requires if op.OpCreate? || op.OpMkdir? then NoRoom(v, t, Normals(op.path)) else Target(op) !in View(v, t)
    ensures Effect(v, t, op, Failed, v, t)
  {
    hide Inv, View, Plain, NoRoom;
    InvShaped(v, t);
  }

  /** Tables other than that of `d` are as they were, and that one is plain. */
  lemma PlainKept(v: Vol, t: Tree, w: Vol, u: Tree, d: nat)
    requires Shaped(v) && Shaped(w) && Plain(v, t) && |w.data| == |v.data| && 2 <= d < |w.data|
    requires forall x :: x in u.dirs && x != d && 2 <= x < |w.data| ==>
               (x in t.dirs && w.data[x] == v.data[x]) || PlainTable(Table(w, x))
    requires PlainTable(Table(w, d))
    ensures Plain(w, u)
  {
    forall x | x in u.dirs && 2 <= x < |w.data| ensures PlainTable(Table(w, x)) {
      assert x in t.dirs && w.data[x] == v.data[x] ==> Table(w, x) == Table(v, x);
    }
  }

  lemma PlainTableAt(v: Vol, t: Tree, d: nat)
    requires Inv(v, t) && Plain(v, t) && d in t.dirs
    ensures 2 <= d < |v.data| && PlainTable(Table(v, d))
  {
    DirInTable(v, t, d);
  }

  lemma CreateEffect(v: Vol, t: Tree, op: Op, d: nat, k: nat, c: nat)
    requires Inv(v, t) && op.OpCreate? && IsCString(op.name) && DirAt(v, t, Normals(op.path)) == Some(d) && d in t.dirs
    requires !NoRoom(v, t, Normals(op.path)) && 2 <= c < |v.fat| && v.fat[c] == 0 && c < WORD
    requires 2 <= d < |v.data| && v.cs % 32 == 0 && k < v.cs / 32 && IsFirstFree(Table(v, d), k)
    ensures var e := MakeSlot(Normal(op.name), 0x20, c, 0);
            Effect(v, t, op, Done, WithEntry(v, d, k, c, e), WithChain(t, c))
  {
    hide Inv, Lookup, DirAt, Normal, MakeSlot, View, PlainTable, NoRoom, WithEntry, WithChain, Table, Plain;
    InvShaped(v, t);
    NormalShape(op.name);
    var e := MakeSlot(Normal(op.name), 0x20, c, 0);
    var w, u := WithEntry(v, d, k, c, e), WithChain(t, c);
    CreatedOnly(v, t, d, k, c, e);
    InvShaped(w, u);
    if Plain(v, t) && Tame(View(v, t), op) {
      CreateView(v, t, Normals(op.path), d, k, c, e);
      CreatePlain(v, t, Normals(op.path), d, k, c, e);
      DirIsDir(v, t, Normals(op.path));
    }
  }

  lemma CreatePlain(v: Vol, t: Tree, pd: Path, d: nat, k: nat, c: nat, e: Slot)
    requires Inv(v, t) && Plain(v, t) && DirAt(v, t, pd) == Some(d) && d in t.dirs && 2 <= c < |v.fat|
    requires 2 <= d < |v.data| && v.cs % 32 == 0 && k < v.cs / 32 && IsFirstFree(Table(v, d), k)
    requires StartOf(e) == c && SizeOf(e) == 0 && Shaped(WithEntry(v, d, k, c, e)) && Table(WithEntry(v, d, k, c, e), d) == Table(v, d)[k := e]
    requires e[0] != DOT && pd + [NameOf(e)] !in View(v, t)
    ensures Plain(WithEntry(v, d, k, c, e), WithChain(t, c))
  {
    hide Inv, Lookup, DirAt, PlainTable;
    InvShaped(v, t);
    AbsentChild(v, t, pd, d, NameOf(e));
    assert NameOf(e)[0] == e[0];
    PlainTableAt(v, t, d);
    PlainFill(Table(v, d), k, e);
    PlainKept(v, t, WithEntry(v, d, k, c, e), WithChain(t, c), d);
  }

  /** Where the volume has a directory the map has one. */
  lemma DirIsDir(v: Vol, t: Tree, p: Path)
    requires Shaped(v) && DirAt(v, t, p).Some?
    ensures IsDir(View(v, t), p)
  {
  }

  lemma MkdirEffect(v: Vol, t: Tree, op: Op, d: nat, k: nat, c: nat)
    requires Inv(v, t) && op.OpMkdir? && IsCString(op.name) && DirAt(v, t, Normals(op.path)) == Some(d) && d in t.dirs
    requires !NoRoom(v, t, Normals(op.path)) && 2 <= c < |v.fat| && v.fat[c] == 0 && c < WORD
    requires 2 <= d < |v.data| && v.cs % 32 == 0 && k < v.cs / 32 && IsFirstFree(Table(v, d), k)
    ensures var (w, u) := WithSubdir(v, t, d, k, c, MakeSlot(Normal(op.name), 0x10, c, 0));
            Effect(v, t, op, Done, w, u)
  {
    hide Inv, Lookup, DirAt, Normal, MakeSlot, View, PlainTable, NoRoom, WithSubdir, Table, Plain;
    InvShaped(v, t);
    NormalShape(op.name);
    var e := MakeSlot(Normal(op.name), 0x10, c, 0);
    var (w, u) := WithSubdir(v, t, d, k, c, e);
    MadeOnly(v, t, d, k, c, e);
    InvShaped(w, u);
    FreeIsNoDir(v, t, d, c);
    if Plain(v, t) && Tame(View(v, t), op) {
      MkdirView(v, t, Normals(op.path), d, k, c, e);
      MkdirPlain(v, t, Normals(op.path), d, k, c, e);
      DirIsDir(v, t, Normals(op.path));
    }
  }

  lemma FreeIsNoDir(v: Vol, t: Tree, d: nat, c: nat)
    requires Inv(v, t) && d in t.dirs && c < |v.fat| && v.fat[c] == 0
    ensures c != d
  {
    FreeOutsideChains(v, t, c, d);
  }

  lemma MkdirPlain(v: Vol, t: Tree, pd: Path, d: nat, k: nat, c: nat, e: Slot)
    requires Inv(v, t) && Plain(v, t) && DirAt(v, t, pd) == Some(d) && d in t.dirs && 2 <= c < |v.fat| && c != d
    requires 2 <= d < |v.data| && v.cs % 32 == 0 && k < v.cs / 32 && IsFirstFree(Table(v, d), k)
    requires var (w, u) := WithSubdir(v, t, d, k, c, e); Shaped(w) && Table(w, d) == Table(v, d)[k := e]
    requires StartOf(e) == c && SizeOf(e) == 0 && e[0] != DOT && pd + [NameOf(e)] !in View(v, t)
    ensures var (w, u) := WithSubdir(v, t, d, k, c, e); Plain(w, u)
  {
    hide Inv, Lookup, DirAt, PlainTable, FreshDir, Slots;
    InvShaped(v, t);
    var (w, u) := WithSubdir(v, t, d, k, c, e);
    AbsentChild(v, t, pd, d, NameOf(e));
    assert NameOf(e)[0] == e[0];
    PlainTableAt(v, t, d);
    PlainFill(Table(v, d), k, e);
    PlainFresh(c, d, v.cs);
    assert Table(w, c) == Slots(FreshDir(c, d, v.cs));
    PlainKept(v, t, w, u, d);
  }

  /** In a plain volume an entry has a first cluster. */
  lemma PlainStart(v: Vol, t: Tree, d: nat, n: Name)
    requires Inv(v, t) && Plain(v, t) && d in t.dirs && Child(v, d, n).Some?
    ensures var e := Child(v, d, n).value; StartOf(e) != 0 && (IsDirAttr(AttrOf(e)) ==> SizeOf(e) == 0)
  {
    var k := ChildSlot(v, t, d, n);
    PlainTableAt(v, t, d);
  }

  /** The map at the target of an operation is what the entry says. */
  lemma TargetItem(v: Vol, t: Tree, op: Op, d: nat)
    requires Shaped(v) && DirAt(v, t, Normals(op.path)) == Some(d)
    ensures var e, p := Child(v, d, Normal(op.name)), Target(op);
            if e.None? then p !in View(v, t) else p in View(v, t) && View(v, t)[p] == ItemOf(v, t, e.value)
  {
    var p := Target(op);
    assert p[..|p| - 1] == Normals(op.path);
  }

  lemma WriteEffect(v: Vol, t: Tree, op: Op, d: nat, w: Vol, u: Tree, len: nat, n: nat)
    requires Inv(v, t) && Inv(w, u) && op.OpWrite? && DirAt(v, t, Normals(op.path)) == Some(d) && d in t.dirs
    requires Child(v, d, Normal(op.name)).Some?
    requires var e := Child(v, d, Normal(op.name)).value;
             && !IsDirAttr(AttrOf(e)) && StartOf(e) != 0 && len < WORD
             && Stored(v, t, w, u, d, StartOf(e), SizeOf(e), len, op.offset, op.buf, n)
    ensures Effect(v, t, op, Wrote(n), w, u)
  {
    hide Inv, Lookup, DirAt, Normal, PlainTable, Stored, Table, Plain, Child, BytesOf, IsChain, Span, Spliced;
    InvShaped(v, t);
    InvShaped(w, u);
    var pd, n0 := Normals(op.path), Normal(op.name);
    var e := Child(v, d, n0).value;
    WriteView(v, t, w, u, pd, d, n0, SizeOf(e), len, op.offset, op.buf, n);
    TargetItem(v, t, op, d);
    WriteCount(v, t, w, u, d, StartOf(e), SizeOf(e), len, op.offset, op.buf, n);
    if Plain(v, t) {
      WritePlain(v, t, d, n0, w, u, len, op.offset, op.buf, n);
    }
    if Plain(v, t) && Tame(View(v, t), op) {
      WriteBytes(v, t, d, n0, w, u, len, op.offset, op.buf, n);
    }
  }

  lemma WriteCount(v: Vol, t: Tree, w: Vol, u: Tree, d: nat, s: nat, len0: nat, len: nat, off: nat, buf: seq<byte>, n: nat)
    requires Stored(v, t, w, u, d, s, len0, len, off, buf, n)
    ensures n <= |buf| && (n < |buf| ==> Full(w.fat))
  {
  }

  /** The bytes of the file after a write that reaches neither behind its end nor beyond 32 bits. */
  lemma WriteBytes(v: Vol, t: Tree, d: nat, n0: Name, w: Vol, u: Tree, len: nat, off: nat, buf: seq<byte>, n: nat)
    requires Inv(v, t) && Inv(w, u) && d in t.dirs && Child(v, d, n0).Some? && off + |buf| < WORD
    requires var e := Child(v, d, n0).value;
             && StartOf(e) != 0 && off <= |BytesOf(v, t, StartOf(e), SizeOf(e))|
             && Stored(v, t, w, u, d, StartOf(e), SizeOf(e), len, off, buf, n)
    ensures var e := Child(v, d, n0).value;
            n <= |buf| && BytesOf(w, u, StartOf(e), len) == Spliced(BytesOf(v, t, StartOf(e), SizeOf(e)), off, buf[..n])
  {
    hide Inv, Lookup, Stored, Table, Child, IsChain, Span, Spliced;
    InvShaped(v, t);
    InvShaped(w, u);
    var e := Child(v, d, n0).value;
    var s := StartOf(e);
    ChildLeads(v, t, d, n0);
    WriteCount(v, t, w, u, d, s, SizeOf(e), len, off, buf, n);
    FileChain(v, t, s);
    ContentLength(v, t, s, SizeOf(e));
    WithSameSize(e);
    StoredContent(v, t, w, u, d, s, SizeOf(e), len, off, buf, n);
  }

  lemma ContentLength(v: Vol, t: Tree, s: nat, len: nat)
    requires Inv(v, t) && s in t.chains && len <= Span(|t.chains[s]|, v.cs)
    ensures IsChain(v.fat, t.chains[s]) && |Content(v, t.chains[s], len)| == len
  {
    FileChain(v, t, s);
    ChainInTable(v.fat, t.chains[s]);
    RawLength(v.data, t.chains[s], v.cs);
  }

  lemma WritePlain(v: Vol, t: Tree, d: nat, n0: Name, w: Vol, u: Tree, len: nat, off: nat, buf: seq<byte>, n: nat)
    requires Inv(v, t) && Inv(w, u) && d in t.dirs && Child(v, d, n0).Some? && Plain(v, t) && len < WORD
    requires var e := Child(v, d, n0).value;
             && StartOf(e) != 0 && !IsDirAttr(AttrOf(e))
             && Stored(v, t, w, u, d, StartOf(e), SizeOf(e), len, off, buf, n)
    ensures Plain(w, u)
  {
    hide Inv, Lookup, Stored, Table, IsChain, Span, PlainTable, WithSize;
    InvShaped(v, t);
    InvShaped(w, u);
    var e := Child(v, d, n0).value;
    var s := StartOf(e);
    var k := ChildSlot(v, t, d, n0);
    ChildLeads(v, t, d, n0);
    RefOnce(v, t, d, k, s);
    StoredRoot(v, t, w, u, d, s, SizeOf(e), len, off, buf, n);
    forall x | x in u.dirs && 2 <= x < |w.data| ensures PlainTable(Table(w, x)) {
      StoredSlots(v, t, w, u, d, s, SizeOf(e), len, off, buf, n, x);
      PlainTableAt(v, t, x);
      forall j | 0 <= j < |Table(v, x)| && RefAt(v, t, x, j, s) ensures !IsDirAttr(AttrOf(Table(v, x)[j])) {
        assert x == d && j == k;
      }
      PlainSame(Table(v, x), Table(w, x));
    }
  }

  lemma PlainSame(a: seq<Slot>, b: seq<Slot>)
    requires PlainTable(a) && |b| == |a|
    requires forall j :: 0 <= j < |a| ==>
               && Live(b[j]) == Live(a[j]) && NameOf(b[j]) == NameOf(a[j]) && StartOf(b[j]) == StartOf(a[j]) && b[j][0] == a[j][0]
               && AttrOf(b[j]) == AttrOf(a[j]) && (IsDirAttr(AttrOf(a[j])) ==> SizeOf(b[j]) == SizeOf(a[j]))
    ensures PlainTable(b)
  {
  }

  /** A write through an entry without a first cluster, which a plain volume does not have. */
  lemma LooseEffect(v: Vol, t: Tree, op: Op, d: nat, w: Vol, u: Tree, n: nat)
    requires Inv(v, t) && Inv(w, u) && op.OpWrite? && d in t.dirs && Child(v, d, Normal(op.name)).Some?
    requires StartOf(Child(v, d, Normal(op.name)).value) == 0 && (n < |op.buf| ==> Full(w.fat)) && Target(op) in View(v, t)
    ensures Effect(v, t, op, Wrote(n), w, u)
  {
    hide Inv, Normal, View, Next, Answers, Tame, Child, Plain;
    InvShaped(v, t);
    InvShaped(w, u);
    if Plain(v, t) {
      PlainStart(v, t, d, Normal(op.name));
    }
  }

  lemma ReadEffect(v: Vol, t: Tree, op: Op, d: nat, bytes: seq<byte>)
    requires Inv(v, t) && op.OpRead? && DirAt(v, t, Normals(op.path)) == Some(d) && d in t.dirs && Child(v, d, Normal(op.name)).Some?
    requires var e := Child(v, d, Normal(op.name)).value;
             && (op.offset + op.size < WORD ==> bytes == Range(BytesOf(v, t, StartOf(e), SizeOf(e)), op.offset, op.size))
             && (SizeOf(e) == 0 ==> bytes == [])
    ensures Effect(v, t, op, Got(bytes), v, t)
  {
    hide Inv, Normal, Child, Plain, DirAt, BytesOf, Range;
    InvShaped(v, t);
    TargetItem(v, t, op, d);
    if Plain(v, t) {
      PlainStart(v, t, d, Normal(op.name));
    }
  }

  lemma UnlinkEffect(v: Vol, t: Tree, op: Op, d: nat, k: nat)
    requires Inv(v, t) && op.OpUnlink? && DirAt(v, t, Normals(op.path)) == Some(d) && d in t.dirs
    requires 2 <= d < |v.data| && v.cs % 32 == 0 && k < |Table(v, d)|
    requires var e := Table(v, d)[k]; Live(e) && e[0] != DOT && NameOf(e) == Normal(op.name)
    requires Lookup(Table(v, d), Normal(op.name)) == Some(Table(v, d)[k])
    ensures var (w, u) := Unlinked(v, t, d, k); Effect(v, t, op, Done, w, u)
  {
    hide Inv, Normal, Plain, DirAt, BytesOf, Lookup, PlainTable, Unlinked, Slots, View, Without;
    InvShaped(v, t);
    var (w, u) := Unlinked(v, t, d, k);
    UnlinkAny(v, t, d, k);
    InvShaped(w, u);
    assert Normal(op.name)[0] == Table(v, d)[k][0];
    TargetItem(v, t, op, d);
    if Plain(v, t) {
      PlainTableAt(v, t, d);
      PlainUnique(Table(v, d), k);
      UnlinkView(v, t, Normals(op.path), d, k);
      UnlinkPlain(v, t, d, k);
    }
  }

  lemma UnlinkPlain(v: Vol, t: Tree, d: nat, k: nat)
    requires Inv(v, t) && Plain(v, t) && d in t.dirs && 2 <= d < |v.data| && v.cs % 32 == 0 && k < |Table(v, d)|
    requires var (w, u) := Unlinked(v, t, d, k); Shaped(w) && Table(w, d) == Table(v, d)[k := Mark(Table(v, d)[k])]
    ensures var (w, u) := Unlinked(v, t, d, k); Plain(w, u)
  {
    hide Inv, PlainTable, Slots, Subtree;
    InvShaped(v, t);
    var (w, u) := Unlinked(v, t, d, k);
    PlainTableAt(v, t, d);
    PlainMark(Table(v, d), k);
    PlainKept(v, t, w, u, d);
  }
}
