/** A well-formed volume as a map from paths to files and directories, and what each file operation does
    to that map. */
module FatPath {
  import opened Bytes
  import opened Common
  import opened FatDisk
  import opened FatChain
  import opened FatDir
  import opened FatName
  import opened FatTree

  /** Stored names from the root on. */
  type Path = seq<Name>

  datatype Item = Dir | File(content: seq<byte>)

  type Fs = imap<Path, Item>

  // ---- reading a volume as a map ----

  /** The entry `n` of directory `d`; dot entries do not count. */
  ghost function Child(v: Vol, d: nat, n: Name): Option<Slot>
    requires Shaped(v)
  {
    if n[0] == DOT || !(2 <= d < |v.data|) then None else Lookup(Table(v, d), n)
  }

  ghost function BytesOf(v: Vol, t: Tree, s: nat, len: nat): seq<byte>
    requires Shaped(v)
  {
    if s in t.chains && IsChain(v.fat, t.chains[s]) then Content(v, t.chains[s], len) else []
  }

  ghost function ItemOf(v: Vol, t: Tree, e: Slot): Item
    requires Shaped(v)
  {
    if IsDirAttr(AttrOf(e)) then Dir else File(BytesOf(v, t, StartOf(e), SizeOf(e)))
  }

  /** The directory that an entry leads to. */
  ghost function Subdir(e: Option<Slot>): Option<nat> {
    if e.Some? && IsDirAttr(AttrOf(e.value)) && StartOf(e.value) != 0 then Some(StartOf(e.value)) else None
  }

  /** The cluster of the directory at path `p`. */
  ghost function DirAt(v: Vol, t: Tree, p: Path): Option<nat>
    requires Shaped(v)
  {
    if p == [] then Some(t.root)
    else
      var d := DirAt(v, t, p[..|p| - 1]);
      if d.None? then None else Subdir(Child(v, d.value, p[|p| - 1]))
  }

  /** The entry at path `p`, which is not the root. */
  ghost function EntryAt(v: Vol, t: Tree, p: Path): Option<Slot>
    requires Shaped(v) && p != []
  {
    var d := DirAt(v, t, p[..|p| - 1]);
    if d.None? then None else Child(v, d.value, p[|p| - 1])
  }

  ghost function At(v: Vol, t: Tree, p: Path): Option<Item>
    requires Shaped(v)
  {
    if p == [] then Some(Dir)
    else
      var e := EntryAt(v, t, p);
      if e.None? then None else Some(ItemOf(v, t, e.value))
  }

  ghost function View(v: Vol, t: Tree): Fs
    requires Shaped(v)
  {
    imap p: Path | At(v, t, p).Some? :: At(v, t, p).value
  }

  // ---- the map is a tree ----

  lemma ChildSlot(v: Vol, t: Tree, d: nat, n: Name) returns (k: nat)
    requires Inv(v, t) && d in t.dirs && Child(v, d, n).Some?
    ensures Shaped(v) && 2 <= d < |v.data| && k < |Table(v, d)| && Child(v, d, n) == Some(Table(v, d)[k])
    ensures Live(Table(v, d)[k]) && NameOf(Table(v, d)[k]) == n && n[0] != DOT && Table(v, d)[k][0] == n[0]
    ensures StartOf(Table(v, d)[k]) != 0 ==> RefAt(v, t, d, k, StartOf(Table(v, d)[k]))
  {
    DirInTable(v, t, d);
    k := LookupIndex(Table(v, d), n);
    assert NameOf(Table(v, d)[k])[0] == Table(v, d)[k][0];
  }

  /** What an entry with a first cluster leads to. */
  lemma ChildLeads(v: Vol, t: Tree, d: nat, n: Name)
    requires Inv(v, t) && d in t.dirs && Child(v, d, n).Some? && StartOf(Child(v, d, n).value) != 0
    ensures var e := Child(v, d, n).value;
            && StartOf(e) in t.chains && StartOf(e) != t.root && (IsDirAttr(AttrOf(e)) <==> StartOf(e) in t.dirs)
            && SizeOf(e) <= Span(|t.chains[StartOf(e)]|, v.cs)
  {
    var k := ChildSlot(v, t, d, n);
    assert SlotOk(Table(v, d)[k], t, v.cs) by { DirInTable(v, t, d); }
  }

  lemma {:induction false} DirAtIn(v: Vol, t: Tree, p: Path)
    requires Inv(v, t) && DirAt(v, t, p).Some?
    ensures DirAt(v, t, p).value in t.dirs
  {
    if p == [] {
      assert DirsOk(t);
    } else {
      DirAtIn(v, t, p[..|p| - 1]);
      ChildLeads(v, t, DirAt(v, t, p[..|p| - 1]).value, p[|p| - 1]);
    }
  }

  /** Two entries that lead to the same cluster are the same entry. */
  lemma ChildUnique(v: Vol, t: Tree, d: nat, n: Name, d': nat, n': Name)
    requires Inv(v, t) && d in t.dirs && d' in t.dirs && Child(v, d, n).Some? && Child(v, d', n').Some?
    requires StartOf(Child(v, d, n).value) == StartOf(Child(v, d', n').value) != 0
    ensures d == d' && n == n'
  {
    var k := ChildSlot(v, t, d, n);
    var k' := ChildSlot(v, t, d', n');
    assert RefsUnique(v, t);
  }

  /** Different paths lead to different directories. */
  lemma {:induction false} PathsDiffer(v: Vol, t: Tree, p: Path, q: Path)
    requires Inv(v, t) && DirAt(v, t, p).Some? && DirAt(v, t, p) == DirAt(v, t, q)
    ensures p == q
    decreases |p| + |q|
  {
    if p != [] {
      var p', d := p[..|p| - 1], DirAt(v, t, p[..|p| - 1]).value;
      DirAtIn(v, t, p');
      ChildLeads(v, t, d, p[|p| - 1]);
      if q != [] {
        var q', e := q[..|q| - 1], DirAt(v, t, q[..|q| - 1]).value;
        DirAtIn(v, t, q');
        ChildUnique(v, t, d, p[|p| - 1], e, q[|q| - 1]);
        PathsDiffer(v, t, p', q');
        assert p == p' + [p[|p| - 1]] && q == q' + [q[|q| - 1]];
      }
    } else if q != [] {
      DirAtIn(v, t, q[..|q| - 1]);
      ChildLeads(v, t, DirAt(v, t, q[..|q| - 1]).value, q[|q| - 1]);
    }
  }

  // ---- changing one entry ----

  /** The entry `n` of directory `d` means the same in both volumes. */
  ghost predicate SameChild(v: Vol, t: Tree, v': Vol, t': Tree, d: nat, n: Name)
    requires Shaped(v) && Shaped(v')
  {
    match Child(v, d, n)
    case None => Child(v', d, n) == None
    case Some(e) =>
      && Child(v', d, n).Some?
      && var e' := Child(v', d, n).value;
         StartOf(e') == StartOf(e) && IsDirAttr(AttrOf(e')) == IsDirAttr(AttrOf(e)) && ItemOf(v', t', e') == ItemOf(v, t, e)
  }

  /** Only the entry `n0` of directory `d0` may mean something else. */
  ghost predicate OnlyChild(v: Vol, t: Tree, v': Vol, t': Tree, d0: nat, n0: Name) {
    && Shaped(v) && Shaped(v') && t'.root == t.root
    && forall d: nat, n: Name {:trigger Child(v', d, n)} {:trigger Child(v, d, n)} ::
         d in t.dirs && (d != d0 || n != n0) ==> SameChild(v, t, v', t', d, n)
  }

  lemma SameSubdir(v: Vol, t: Tree, v': Vol, t': Tree, d: nat, n: Name)
    requires Shaped(v) && Shaped(v') && SameChild(v, t, v', t', d, n)
    ensures Subdir(Child(v', d, n)) == Subdir(Child(v, d, n))
  {
  }

  /** When the entry leads to no directory before or after, every directory stays where it is. */
  lemma {:induction false} DirAtKept(v: Vol, t: Tree, v': Vol, t': Tree, d0: nat, n0: Name, p: Path)
    requires Inv(v, t) && OnlyChild(v, t, v', t', d0, n0) && Subdir(Child(v, d0, n0)) == None == Subdir(Child(v', d0, n0))
    ensures DirAt(v', t', p) == DirAt(v, t, p)
  {
    if p != [] {
      var p', n := p[..|p| - 1], p[|p| - 1];
      DirAtKept(v, t, v', t', d0, n0, p');
      if DirAt(v, t, p').Some? {
        var d := DirAt(v, t, p').value;
        DirAtIn(v, t, p');
        if d != d0 || n != n0 {
          SameSubdir(v, t, v', t', d, n);
        }
      }
    }
  }

  /** The map after one entry has changed that leads to no directory. */
  lemma EntryChanged(v: Vol, t: Tree, v': Vol, t': Tree, pd: Path, d0: nat, n0: Name)
    requires Inv(v, t) && OnlyChild(v, t, v', t', d0, n0) && Subdir(Child(v, d0, n0)) == None == Subdir(Child(v', d0, n0))
    requires DirAt(v, t, pd) == Some(d0)
    ensures var e := Child(v', d0, n0);
            View(v', t') == if e.None? then View(v, t) - {pd + [n0]} else View(v, t)[pd + [n0] := ItemOf(v', t', e.value)]
  {
    hide Inv, OnlyChild, DirAt, Child, At, Shaped, ItemOf;
    OnlyShaped(v, t, v', t', d0, n0);
    var e, p0 := Child(v', d0, n0), pd + [n0];
    forall p: Path
      ensures At(v', t', p) == if p != p0 then At(v, t, p) else if e.None? then None else Some(ItemOf(v', t', e.value))
    {
      AtChanged(v, t, v', t', pd, d0, n0, p);
    }
  }

  lemma OnlyShaped(v: Vol, t: Tree, v': Vol, t': Tree, d0: nat, n0: Name)
    requires OnlyChild(v, t, v', t', d0, n0)
    ensures Shaped(v) && Shaped(v')
  {
  }

  lemma AtChanged(v: Vol, t: Tree, v': Vol, t': Tree, pd: Path, d0: nat, n0: Name, p: Path)
    requires Inv(v, t) && OnlyChild(v, t, v', t', d0, n0) && Subdir(Child(v, d0, n0)) == None == Subdir(Child(v', d0, n0))
    requires DirAt(v, t, pd) == Some(d0)
    ensures var e := Child(v', d0, n0);
            At(v', t', p) == if p != pd + [n0] then At(v, t, p) else if e.None? then None else Some(ItemOf(v', t', e.value))
  {
    hide Inv, Lookup, Table, DirAt;
    var p0 := pd + [n0];
    assert p0[..|p0| - 1] == pd && p0[|p0| - 1] == n0;
    if p != [] {
      var p', n := p[..|p| - 1], p[|p| - 1];
      DirAtKept(v, t, v', t', d0, n0, p');
      assert p == p' + [n];
      if p != p0 && DirAt(v, t, p').Some? {
        DirAtIn(v, t, p');
        if DirAt(v, t, p').value == d0 {
          PathsDiffer(v, t, p', pd);
        }
        assert SameChild(v, t, v', t', DirAt(v, t, p').value, n);
      }
    }
  }

  /** Every directory but the new one is where it was. */
  lemma {:induction false} DirAtAdded(v: Vol, t: Tree, v': Vol, t': Tree, pd: Path, d0: nat, n0: Name, p: Path)
    requires Inv(v, t) && OnlyChild(v, t, v', t', d0, n0) && DirAt(v, t, pd) == Some(d0) && Child(v, d0, n0) == None
    requires Subdir(Child(v', d0, n0)).Some? && forall n: Name :: Child(v', Subdir(Child(v', d0, n0)).value, n) == None
    ensures DirAt(v', t', p) == if p == pd + [n0] then Subdir(Child(v', d0, n0)) else DirAt(v, t, p)
  {
    var p0 := pd + [n0];
    assert p0[..|p0| - 1] == pd && p0[|p0| - 1] == n0;
    if p != [] {
      var p', n := p[..|p| - 1], p[|p| - 1];
      assert p == p' + [n];
      DirAtAdded(v, t, v', t', pd, d0, n0, p');
      assert DirAt(v, t, p0) == None;
      if DirAt(v, t, p').Some? {
        DirAtIn(v, t, p');
        var d := DirAt(v, t, p').value;
        if d == d0 {
          PathsDiffer(v, t, p', pd);
        }
        if p != p0 {
          SameSubdir(v, t, v', t', d, n);
        }
      }
    }
  }

  /** The map after a new, empty directory has been entered. */
  lemma EntryAdded(v: Vol, t: Tree, v': Vol, t': Tree, pd: Path, d0: nat, n0: Name)
    requires Inv(v, t) && OnlyChild(v, t, v', t', d0, n0) && DirAt(v, t, pd) == Some(d0) && Child(v, d0, n0) == None
    requires Subdir(Child(v', d0, n0)).Some? && forall n: Name :: Child(v', Subdir(Child(v', d0, n0)).value, n) == None
    ensures View(v', t') == View(v, t)[pd + [n0] := Dir]
  {
    hide Inv, OnlyChild, DirAt, At, Shaped, Lookup;
    OnlyShaped(v, t, v', t', d0, n0);
    forall p: Path ensures At(v', t', p) == if p == pd + [n0] then Some(Dir) else At(v, t, p) {
      AtAdded(v, t, v', t', pd, d0, n0, p);
    }
  }

  lemma AtAdded(v: Vol, t: Tree, v': Vol, t': Tree, pd: Path, d0: nat, n0: Name, p: Path)
    requires Inv(v, t) && OnlyChild(v, t, v', t', d0, n0) && DirAt(v, t, pd) == Some(d0) && Child(v, d0, n0) == None
    requires Subdir(Child(v', d0, n0)).Some? && forall n: Name :: Child(v', Subdir(Child(v', d0, n0)).value, n) == None
    ensures At(v', t', p) == if p == pd + [n0] then Some(Dir) else At(v, t, p)
  {
    hide Inv, Lookup, Table;
    var p0 := pd + [n0];
    assert p0[..|p0| - 1] == pd && p0[|p0| - 1] == n0;
    if p != [] {
      var p', n := p[..|p| - 1], p[|p| - 1];
      assert p == p' + [n];
      DirAtAdded(v, t, v', t', pd, d0, n0, p');
      assert DirAt(v, t, p0) == None;
      if DirAt(v, t, p').Some? {
        DirAtIn(v, t, p');
        var d := DirAt(v, t, p').value;
        if d == d0 {
          PathsDiffer(v, t, p', pd);
        }
        if p != p0 {
          assert SameChild(v, t, v', t', d, n);
        }
      }
    }
  }

  // ---- what keeps an entry's meaning ----

  /** The chain from `u` has the same clusters with the same bytes in both volumes. */
  ghost predicate KeptChain(v: Vol, t: Tree, v': Vol, t': Tree, u: nat) {
    && u in t.chains && u in t'.chains && t'.chains[u] == t.chains[u] && |v'.data| == |v.data|
    && forall c :: c in t.chains[u] && 2 <= c < |v.data| ==> v'.data[c] == v.data[c]
  }

  lemma BytesKept(v: Vol, t: Tree, v': Vol, t': Tree, u: nat, len: nat)
    requires Inv(v, t) && Inv(v', t') && KeptChain(v, t, v', t', u)
    ensures BytesOf(v', t', u, len) == BytesOf(v, t, u, len)
  {
    FileChain(v, t, u);
    FileChain(v', t', u);
    ChainInTable(v.fat, t.chains[u]);
    RawFrame(v.data, v'.data, t.chains[u]);
  }

  lemma ZeroIsEmpty(v: Vol, t: Tree, len: nat)
    requires Inv(v, t)
    ensures BytesOf(v, t, 0, len) == []
  {
    if 0 in t.chains {
      FileChain(v, t, 0);
    }
  }

  lemma SameEntry(v: Vol, t: Tree, v': Vol, t': Tree, d: nat, n: Name)
    requires Inv(v, t) && Inv(v', t') && d in t.dirs && Child(v', d, n) == Child(v, d, n)
    requires Child(v, d, n).Some? ==>
               var e := Child(v, d, n).value; IsDirAttr(AttrOf(e)) || StartOf(e) == 0 || KeptChain(v, t, v', t', StartOf(e))
    ensures SameChild(v, t, v', t', d, n)
  {
    if Child(v, d, n).Some? {
      var e := Child(v, d, n).value;
      if !IsDirAttr(AttrOf(e)) {
        if StartOf(e) == 0 {
          ZeroIsEmpty(v, t, SizeOf(e));
          ZeroIsEmpty(v', t', SizeOf(e));
        } else {
          BytesKept(v, t, v', t', StartOf(e), SizeOf(e));
        }
      }
    }
  }

  /** A file's chain does not pass through a directory. */
  lemma FileApart(v: Vol, t: Tree, u: nat, d: nat)
    requires Inv(v, t) && u in t.chains && u !in t.dirs && d in t.dirs
    ensures d !in t.chains[u]
  {
    assert t.chains[d] == [d] && d in t.chains[d];
  }

  // ---- create ----

  lemma CreatedOnly(v: Vol, t: Tree, d: nat, k: nat, c: nat, e: Slot)
    requires Inv(v, t) && d in t.dirs && 2 <= c < |v.fat| && v.fat[c] == 0
    requires 2 <= d < |v.data| && v.cs % 32 == 0 && k < v.cs / 32 && IsFirstFree(Table(v, d), k)
    requires e[0] != UNUSED && e[0] != DOT && StartOf(e) == c && SizeOf(e) == 0 && !IsDirAttr(AttrOf(e))
    ensures Inv(WithEntry(v, d, k, c, e), WithChain(t, c))
    ensures OnlyChild(v, t, WithEntry(v, d, k, c, e), WithChain(t, c), d, NameOf(e))
    ensures Table(WithEntry(v, d, k, c, e), d) == Table(v, d)[k := e]
  {
    hide Inv, Lookup, IsChain;
    InvShaped(v, t);
    AddFile(v, t, d, k, c, e);
    var v', t' := WithEntry(v, d, k, c, e), WithChain(t, c);
    InvShaped(v', t');
    forall d1: nat, n: Name | d1 in t.dirs && (d1 != d || n != NameOf(e)) ensures SameChild(v, t, v', t', d1, n) {
      DirInTable(v, t, d1);
      EntryElsewhere(v, v', d, k, e, d1, n);
      if Child(v, d1, n).Some? {
        OtherChainKept(v, t, v', t', d, c, d1, n);
      }
      SameEntry(v, t, v', t', d1, n);
    }
  }

  /** Filling a free slot changes no entry of another name or in another directory. */
  lemma EntryElsewhere(v: Vol, v': Vol, d: nat, k: nat, e: Slot, d1: nat, n: Name)
    requires Shaped(v) && Shaped(v') && |v'.data| == |v.data| && 2 <= d < |v.data| && k < |Table(v, d)|
    requires !Live(Table(v, d)[k]) && Table(v', d) == Table(v, d)[k := e]
    requires d1 != d ==> d1 < |v.data| && v'.data[d1] == v.data[d1]
    requires d1 != d || !Live(e) || n != NameOf(e)
    ensures Child(v', d1, n) == Child(v, d1, n)
  {
    if d1 == d {
      LookupOther(Table(v, d), k, e, n);
    }
  }

  /** Taking cluster `c` and rewriting directory `d` leaves the file that another entry leads to. */
  lemma OtherChainKept(v: Vol, t: Tree, v': Vol, t': Tree, d: nat, c: nat, d1: nat, n: Name)
    requires Inv(v, t) && d in t.dirs && d1 in t.dirs && 2 <= c < |v.fat| && v.fat[c] == 0 && Child(v, d1, n).Some?
    requires t'.chains == t.chains[c := [c]] && |v'.data| == |v.data|
    requires forall x :: 0 <= x < |v.data| && x != d && x != c ==> v'.data[x] == v.data[x]
    ensures var e := Child(v, d1, n).value; IsDirAttr(AttrOf(e)) || StartOf(e) == 0 || KeptChain(v, t, v', t', StartOf(e))
  {
    hide Inv, Lookup, IsChain;
    InvShaped(v, t);
    var e := Child(v, d1, n).value;
    if !IsDirAttr(AttrOf(e)) && StartOf(e) != 0 {
      ChildLeads(v, t, d1, n);
      FileApart(v, t, StartOf(e), d);
      FreeOutsideChains(v, t, c, StartOf(e));
      FileChain(v, t, StartOf(e));
      assert StartOf(e) in t.chains[StartOf(e)] by { HeadInChain(v.fat, t.chains[StartOf(e)]); }
    }
  }

  lemma HeadInChain(fat: seq<nat>, ch: seq<nat>)
    requires IsChain(fat, ch)
    ensures ch[0] in ch
  {
  }

  /** Creating a file: a name with the deletion mark enters no path; an absent name becomes an empty
      file. */
  lemma CreateView(v: Vol, t: Tree, pd: Path, d: nat, k: nat, c: nat, e: Slot)
    requires Inv(v, t) && DirAt(v, t, pd) == Some(d) && d in t.dirs && 2 <= c < |v.fat| && v.fat[c] == 0
    requires 2 <= d < |v.data| && v.cs % 32 == 0 && k < v.cs / 32 && IsFirstFree(Table(v, d), k)
    requires e[0] != UNUSED && e[0] != DOT && StartOf(e) == c && SizeOf(e) == 0 && !IsDirAttr(AttrOf(e))
    requires !Live(e) || pd + [NameOf(e)] !in View(v, t)
    ensures var v', t' := WithEntry(v, d, k, c, e), WithChain(t, c);
            View(v', t') == if Live(e) then View(v, t)[pd + [NameOf(e)] := File([])] else View(v, t)
  {
    hide Inv, Lookup, IsChain, DirAt;
    InvShaped(v, t);
    var v', t', n := WithEntry(v, d, k, c, e), WithChain(t, c), NameOf(e);
    assert n[0] == e[0];
    CreatedOnly(v, t, d, k, c, e);
    AbsentChild(v, t, pd, d, n);
    if Live(e) {
      FilledIsFound(Table(v, d), k, e);
      NewFileEmpty(v', t', c);
    } else {
      EntryElsewhere(v, v', d, k, e, d, n);
    }
    EntryChanged(v, t, v', t', pd, d, n);
    assert pd + [n] !in View(v, t) ==> View(v, t) - {pd + [n]} == View(v, t);
    AbsentPath(v, t, pd, d, n);
  }

  /** An entry is absent when its path is, and always when its name has the deletion mark. */
  lemma AbsentChild(v: Vol, t: Tree, pd: Path, d: nat, n: Name)
    requires Shaped(v) && DirAt(v, t, pd) == Some(d) && (n[0] == DELETED || pd + [n] !in View(v, t))
    ensures Child(v, d, n) == None
  {
    var p := pd + [n];
    assert p[..|p| - 1] == pd && p[|p| - 1] == n;
    assert EntryAt(v, t, p) == Child(v, d, n);
    if n[0] == DELETED && 2 <= d < |v.data| {
      MarkedIsAbsent(Table(v, d), n);
    }
  }

  lemma AbsentPath(v: Vol, t: Tree, pd: Path, d: nat, n: Name)
    requires Shaped(v) && DirAt(v, t, pd) == Some(d) && Child(v, d, n) == None
    ensures pd + [n] !in View(v, t)
  {
    var p := pd + [n];
    assert p[..|p| - 1] == pd && p[|p| - 1] == n;
  }

  lemma FilledIsFound(table: seq<Slot>, k: nat, e: Slot)
    requires k < |table| && Live(e) && Lookup(table, NameOf(e)) == None && !Live(table[k])
    ensures Lookup(table[k := e], NameOf(e)) == Some(e)
  {
    assert forall j :: 0 <= j < |table| ==> table[j] in table;
    LookupAt(table[k := e], k);
  }

  lemma NewFileEmpty(v: Vol, t: Tree, c: nat)
    requires Shaped(v)
    ensures BytesOf(v, t, c, 0) == []
  {
  }

  // ---- mkdir ----

  /** The volume and the chains after a directory in cluster `c` has been entered in slot `k` of `d`. */
  ghost function WithSubdir(v: Vol, t: Tree, d: nat, k: nat, c: nat, e: Slot): (Vol, Tree)
    requires Shaped(v) && 2 <= c < |v.fat| && 2 <= d < |v.data| && v.cs % 32 == 0 && k < v.cs / 32
  {
    var v', t' := WithEntry(v, d, k, c, e), WithChain(t, c);
    (v'.(data := v'.data[c := FreshDir(c, d, v.cs)]), t'.(dirs := t'.dirs + {c}))
  }

  lemma MadeOnly(v: Vol, t: Tree, d: nat, k: nat, c: nat, e: Slot)
    requires Inv(v, t) && d in t.dirs && 2 <= c < |v.fat| && v.fat[c] == 0
    requires 2 <= d < |v.data| && v.cs % 32 == 0 && k < v.cs / 32 && IsFirstFree(Table(v, d), k)
    requires e[0] != UNUSED && e[0] != DOT && StartOf(e) == c && SizeOf(e) == 0 && IsDirAttr(AttrOf(e))
    ensures var (v', t') := WithSubdir(v, t, d, k, c, e);
            && Inv(v', t') && OnlyChild(v, t, v', t', d, NameOf(e)) && Table(v', d) == Table(v, d)[k := e]
            && forall n: Name :: Child(v', c, n) == None
  {
    hide Inv, Lookup, IsChain, FreshDir, Slots;
    InvShaped(v, t);
    AddSubdir(v, t, d, k, c, e);
    var (v', t') := WithSubdir(v, t, d, k, c, e);
    InvShaped(v', t');
    forall d1: nat, n: Name | d1 in t.dirs && (d1 != d || n != NameOf(e)) ensures SameChild(v, t, v', t', d1, n) {
      DirInTable(v, t, d1);
      DirHasChain(t, d1, v);
      EntryElsewhere(v, v', d, k, e, d1, n);
      if Child(v, d1, n).Some? {
        OtherChainKept(v, t, v', t', d, c, d1, n);
      }
      SameEntry(v, t, v', t', d1, n);
    }
    forall n: Name ensures Child(v', c, n) == None {
      FreshIsEmpty(v', c, d, n);
    }
  }

  lemma DirHasChain(t: Tree, d: nat, v: Vol)
    requires Inv(v, t) && d in t.dirs
    ensures d in t.chains
  {
  }

  /** A new directory has no entries but its dot entries. */
  lemma FreshIsEmpty(v: Vol, c: nat, parent: nat, n: Name)
    requires Shaped(v) && 2 <= c < |v.data| && parent < |v.data| && v.data[c] == FreshDir(c, parent, v.cs)
    ensures Child(v, c, n) == None
  {
    hide MakeSlot, FreshDir, Overlay, Slots, Lookup;
    FreshDirSlots(c, parent, v.cs);
    if n[0] != DOT {
      DotsOnly(Table(v, c), n);
    }
  }

  lemma DotsOnly(table: seq<Slot>, n: Name)
    requires |table| >= 2 && table[0][0] == DOT && table[1][0] == DOT && n[0] != DOT
    requires forall k :: 2 <= k < |table| ==> IsUnused(table[k])
    ensures Lookup(table, n) == None
  {
    forall e | e in table && Live(e) ensures NameOf(e) != n {
      var j :| 0 <= j < |table| && table[j] == e;
      assert j == 0 || j == 1;
      assert NameOf(e)[0] == e[0];
    }
    LookupNone(table, n);
  }

  /** Creating a directory: likewise. */
  lemma MkdirView(v: Vol, t: Tree, pd: Path, d: nat, k: nat, c: nat, e: Slot)
    requires Inv(v, t) && DirAt(v, t, pd) == Some(d) && d in t.dirs && 2 <= c < |v.fat| && v.fat[c] == 0
    requires 2 <= d < |v.data| && v.cs % 32 == 0 && k < v.cs / 32 && IsFirstFree(Table(v, d), k)
    requires e[0] != UNUSED && e[0] != DOT && StartOf(e) == c && SizeOf(e) == 0 && IsDirAttr(AttrOf(e))
    requires !Live(e) || pd + [NameOf(e)] !in View(v, t)
    ensures var (v', t') := WithSubdir(v, t, d, k, c, e);
            && Shaped(v')
            && View(v', t') == if Live(e) then View(v, t)[pd + [NameOf(e)] := Dir] else View(v, t)
  {
    hide Inv, Lookup, IsChain, DirAt, FreshDir;
    InvShaped(v, t);
    var n := NameOf(e);
    var (v', t') := WithSubdir(v, t, d, k, c, e);
    assert n[0] == e[0];
    MadeOnly(v, t, d, k, c, e);
    InvShaped(v', t');
    AbsentChild(v, t, pd, d, n);
    if Live(e) {
      FilledIsFound(Table(v, d), k, e);
      EntryAdded(v, t, v', t', pd, d, n);
    } else {
      EntryElsewhere(v, v', d, k, e, d, n);
      EntryChanged(v, t, v', t', pd, d, n);
      AbsentPath(v, t, pd, d, n);
      assert View(v, t) - {pd + [n]} == View(v, t);
    }
  }

  // ---- write ----

  /** The slots after a write: only that of the file has another size. */
  lemma StoredSlots(v0: Vol, t0: Tree, v: Vol, t: Tree, d: nat, s: nat, len0: nat, len: nat,
                    off: nat, buf: seq<byte>, n: nat, d1: nat)
    requires Inv(v0, t0) && d in t0.dirs && d1 in t0.dirs && s !in t0.dirs
    requires Stored(v0, t0, v, t, d, s, len0, len, off, buf, n) && len < WORD
    requires forall d', k' :: RefAt(v0, t0, d', k', s) ==> d' == d
    ensures Shaped(v) && 2 <= d1 < |v.data| && d1 < |v0.data| && |Table(v, d1)| == |Table(v0, d1)|
    ensures forall j {:trigger Table(v, d1)[j]} {:trigger Table(v0, d1)[j]} :: 0 <= j < |Table(v, d1)| ==>
              Table(v, d1)[j] == if RefAt(v0, t0, d1, j, s) then WithSize(Table(v0, d1)[j], len) else Table(v0, d1)[j]
  {
    DirInTable(v0, t0, d1);
    if d1 != d {
      GrowApart(v0, t0, s, v, t.chains[s], d, d1);
      assert d1 in t0.chains[d1];
    } else {
      forall j | 0 <= j < |Table(v, d1)|
        ensures Table(v, d1)[j] == if RefAt(v0, t0, d1, j, s) then WithSize(Table(v0, d1)[j], len) else Table(v0, d1)[j]
      {
        assert RefAt(v0, t0, d, j, s) == RefAt(v0, t0, d, j, s);
      }
    }
  }

  /** The file that another entry leads to is as it was. */
  lemma StoredKeeps(v0: Vol, t0: Tree, v: Vol, t: Tree, d: nat, s: nat, len0: nat, len: nat,
                    off: nat, buf: seq<byte>, n: nat, u: nat)
    requires Inv(v0, t0) && d in t0.dirs && Stored(v0, t0, v, t, d, s, len0, len, off, buf, n)
    requires u in t0.chains && u != s && u !in t0.dirs
    ensures KeptChain(v0, t0, v, t, u)
  {
    GrowApart(v0, t0, s, v, t.chains[s], d, u);
    FileApart(v0, t0, u, d);
  }

  /** What an entry that is not the file's own means after a write. */
  lemma StoredSame(v0: Vol, t0: Tree, v: Vol, t: Tree, d: nat, s: nat, len0: nat, len: nat,
                   off: nat, buf: seq<byte>, n: nat, d1: nat, n1: Name)
    requires Inv(v0, t0) && Inv(v, t) && d in t0.dirs && d1 in t0.dirs && s in t0.chains && s !in t0.dirs
    requires Stored(v0, t0, v, t, d, s, len0, len, off, buf, n) && len < WORD
    requires forall d', k' :: RefAt(v0, t0, d', k', s) ==> d' == d
    requires Child(v0, d1, n1).Some? ==> StartOf(Child(v0, d1, n1).value) != s
    ensures SameChild(v0, t0, v, t, d1, n1)
  {
    hide Inv, Lookup, IsChain, Stored, Table, WithSize;
    InvShaped(v0, t0);
    StoredSlots(v0, t0, v, t, d, s, len0, len, off, buf, n, d1);
    if n1[0] != DOT {
      var k := LookupSame(Table(v0, d1), Table(v, d1), n1);
      if Child(v0, d1, n1).Some? {
        var e := Child(v0, d1, n1).value;
        assert !RefAt(v0, t0, d1, k, s);
        if StartOf(e) != 0 && !IsDirAttr(AttrOf(e)) {
          ChildLeads(v0, t0, d1, n1);
          StoredKeeps(v0, t0, v, t, d, s, len0, len, off, buf, n, StartOf(e));
        }
      }
    }
    SameEntry(v0, t0, v, t, d1, n1);
  }

  /** A write through an entry changes the content of its file and nothing else in the map. */
  lemma WriteView(v0: Vol, t0: Tree, v: Vol, t: Tree, pd: Path, d: nat, n0: Name, len0: nat, len: nat,
                  off: nat, buf: seq<byte>, n: nat)
    requires Inv(v0, t0) && Inv(v, t) && d in t0.dirs && DirAt(v0, t0, pd) == Some(d) && Child(v0, d, n0).Some?
    requires StartOf(Child(v0, d, n0).value) != 0 && !IsDirAttr(AttrOf(Child(v0, d, n0).value)) && len < WORD
    requires Stored(v0, t0, v, t, d, StartOf(Child(v0, d, n0).value), len0, len, off, buf, n)
    ensures var s := StartOf(Child(v0, d, n0).value);
            && s in t0.chains && s !in t0.dirs && s in t.chains
            && View(v, t) == View(v0, t0)[pd + [n0] := File(BytesOf(v, t, s, len))]
  {
    hide Inv, Lookup, IsChain, Stored, Table, WithSize, DirAt, BytesOf;
    InvShaped(v0, t0);
    InvShaped(v, t);
    var e := Child(v0, d, n0).value;
    var s := StartOf(e);
    var k := ChildSlot(v0, t0, d, n0);
    ChildLeads(v0, t0, d, n0);
    RefOnce(v0, t0, d, k, s);
    StoredSlots(v0, t0, v, t, d, s, len0, len, off, buf, n, d);
    StoredRoot(v0, t0, v, t, d, s, len0, len, off, buf, n);
    forall d1: nat, n1: Name | d1 in t0.dirs && (d1 != d || n1 != n0) ensures SameChild(v0, t0, v, t, d1, n1) {
      if Child(v0, d1, n1).Some? && StartOf(Child(v0, d1, n1).value) == s {
        ChildUnique(v0, t0, d1, n1, d, n0);
      }
      StoredSame(v0, t0, v, t, d, s, len0, len, off, buf, n, d1, n1);
    }
    var k' := LookupSame(Table(v0, d), Table(v, d), n0);
    assert Table(v0, d)[k'] == e;
    assert Table(v, d)[k'] == WithSize(e, len);
    EntryChanged(v0, t0, v, t, pd, d, n0);
  }

  lemma RefOnce(v: Vol, t: Tree, d: nat, k: nat, s: nat)
    requires Inv(v, t) && RefAt(v, t, d, k, s)
    ensures forall d', k' :: RefAt(v, t, d', k', s) ==> d' == d && k' == k
  {
  }

  lemma StoredRoot(v0: Vol, t0: Tree, v: Vol, t: Tree, d: nat, s: nat, len0: nat, len: nat, off: nat, buf: seq<byte>, n: nat)
    requires Stored(v0, t0, v, t, d, s, len0, len, off, buf, n)
    ensures t.root == t0.root && t.dirs == t0.dirs && s in t.chains
  {
  }

  // ---- unlink ----

  lemma UnlinkOnly(v: Vol, t: Tree, d: nat, k: nat)
    requires Inv(v, t) && d in t.dirs && 2 <= d < |v.data| && v.cs % 32 == 0 && k < |Table(v, d)|
    requires var e := Table(v, d)[k]; Live(e) && e[0] != DOT
    ensures var (v', t') := Unlinked(v, t, d, k);
            && Inv(v', t') && Table(v', d) == Table(v, d)[k := Mark(Table(v, d)[k])]
            && OnlyChild(v, t, v', t', d, NameOf(Table(v, d)[k]))
  {
    hide Inv, Lookup, IsChain, Slots, Subtree;
    InvShaped(v, t);
    UnlinkAny(v, t, d, k);
    var e := Table(v, d)[k];
    var (v', t') := Unlinked(v, t, d, k);
    InvShaped(v', t');
    forall d1: nat, n: Name | d1 in t.dirs && (d1 != d || n != NameOf(e)) ensures SameChild(v, t, v', t', d1, n) {
      DirInTable(v, t, d1);
      if d1 == d {
        LookupOther(Table(v, d), k, Mark(e), n);
      }
      if Child(v, d1, n).Some? {
        UnlinkKeeps(v, t, d, k, d1, n);
      }
      SameEntry(v, t, v', t', d1, n);
    }
  }

  lemma UnlinkKeeps(v: Vol, t: Tree, d: nat, k: nat, d1: nat, n: Name)
    requires Inv(v, t) && d in t.dirs && d1 in t.dirs && 2 <= d < |v.data| && v.cs % 32 == 0 && k < |Table(v, d)|
    requires var e := Table(v, d)[k]; Live(e) && e[0] != DOT && (d1 != d || n != NameOf(e))
    requires Child(v, d1, n).Some?
    ensures var x := Child(v, d1, n).value;
            var (v', t') := Unlinked(v, t, d, k);
            IsDirAttr(AttrOf(x)) || StartOf(x) == 0 || KeptChain(v, t, v', t', StartOf(x))
  {
    hide IsChain, Slots, Subtree;
    var x, e := Child(v, d1, n).value, Table(v, d)[k];
    if !IsDirAttr(AttrOf(x)) && StartOf(x) != 0 {
      ChildLeads(v, t, d1, n);
      FileApart(v, t, StartOf(x), d);
      var k1 := ChildSlot(v, t, d1, n);
      assert StartOf(e) != 0 ==> RefAt(v, t, d, k, StartOf(e));
      assert RefAt(v, t, d1, k1, StartOf(x)) && RefsUnique(v, t);
      assert StartOf(e) != StartOf(x);
    }
  }

  /** The map without `p` and everything below it. */
  ghost function Without(fs: Fs, p: Path): Fs {
    imap q | q in fs && !(p <= q) :: fs[q]
  }

  lemma PrefixStep(p0: Path, p: Path)
    requires p0 != [] && p != []
    ensures p0 <= p <==> p0 == p || p0 <= p[..|p| - 1]
  {
    if p0 <= p && |p0| < |p| {
      assert p0 == p[..|p| - 1][..|p0|];
    }
  }

  /** When an entry disappears, so does every directory at it or below, and no other. */
  lemma {:induction false} DirAtRemoved(v: Vol, t: Tree, v': Vol, t': Tree, pd: Path, d0: nat, n0: Name, p: Path)
    requires Inv(v, t) && OnlyChild(v, t, v', t', d0, n0) && DirAt(v, t, pd) == Some(d0) && Child(v', d0, n0) == None
    ensures DirAt(v', t', p) == if pd + [n0] <= p then None else DirAt(v, t, p)
  {
    hide Inv, Lookup, Table;
    var p0 := pd + [n0];
    assert p0[..|p0| - 1] == pd && p0[|p0| - 1] == n0;
    if p != [] {
      var p', n := p[..|p| - 1], p[|p| - 1];
      assert p == p' + [n];
      PrefixStep(p0, p);
      DirAtRemoved(v, t, v', t', pd, d0, n0, p');
      if !(p0 <= p') && DirAt(v, t, p').Some? {
        DirAtIn(v, t, p');
        var d := DirAt(v, t, p').value;
        if d == d0 {
          PathsDiffer(v, t, p', pd);
        }
        if p != p0 {
          SameSubdir(v, t, v', t', d, n);
        }
      }
    }
  }

  lemma AtRemoved(v: Vol, t: Tree, v': Vol, t': Tree, pd: Path, d0: nat, n0: Name, p: Path)
    requires Inv(v, t) && OnlyChild(v, t, v', t', d0, n0) && DirAt(v, t, pd) == Some(d0) && Child(v', d0, n0) == None
    ensures At(v', t', p) == if pd + [n0] <= p then None else At(v, t, p)
  {
    hide Inv, Lookup, Table, DirAt;
    var p0 := pd + [n0];
    if p != [] {
      var p', n := p[..|p| - 1], p[|p| - 1];
      assert p == p' + [n];
      PrefixStep(p0, p);
      DirAtRemoved(v, t, v', t', pd, d0, n0, p');
      if !(p0 <= p') && DirAt(v, t, p').Some? {
        DirAtIn(v, t, p');
        if DirAt(v, t, p').value == d0 {
          PathsDiffer(v, t, p', pd);
        }
        if p != p0 {
          assert SameChild(v, t, v', t', DirAt(v, t, p').value, n);
        }
      }
    }
  }

  /** Unlinking an entry under a name that no other entry of the directory has removes its path and
      everything below it from the map. */
  lemma UnlinkView(v: Vol, t: Tree, pd: Path, d: nat, k: nat)
    requires Inv(v, t) && d in t.dirs && 2 <= d < |v.data| && v.cs % 32 == 0 && k < |Table(v, d)| && DirAt(v, t, pd) == Some(d)
    requires var e := Table(v, d)[k]; Live(e) && e[0] != DOT && UniqueName(Table(v, d), k)
    ensures var (v', t') := Unlinked(v, t, d, k);
            Shaped(v') && View(v', t') == Without(View(v, t), pd + [NameOf(Table(v, d)[k])])
  {
    hide Inv, IsChain, DirAt, Slots, Lookup, OnlyChild, At, Child, Unlinked, UniqueName;
    InvShaped(v, t);
    var (v', t') := Unlinked(v, t, d, k);
    var n := NameOf(Table(v, d)[k]);
    UnlinkGone(v, t, d, k);
    forall p: Path ensures At(v', t', p) == if pd + [n] <= p then None else At(v, t, p) {
      AtRemoved(v, t, v', t', pd, d, n, p);
    }
  }

  lemma UnlinkGone(v: Vol, t: Tree, d: nat, k: nat)
    requires Inv(v, t) && d in t.dirs && 2 <= d < |v.data| && v.cs % 32 == 0 && k < |Table(v, d)|
    requires var e := Table(v, d)[k]; Live(e) && e[0] != DOT && UniqueName(Table(v, d), k)
    ensures var n := NameOf(Table(v, d)[k]);
            var (v', t') := Unlinked(v, t, d, k);
            && Inv(v', t') && Shaped(v') && OnlyChild(v, t, v', t', d, n)
            && Child(v, d, n) == Some(Table(v, d)[k]) && Child(v', d, n) == None
  {
    hide Inv, IsChain, Slots, Lookup, OnlyChild, Subtree;
    InvShaped(v, t);
    var e := Table(v, d)[k];
    var (v', t') := Unlinked(v, t, d, k);
    assert NameOf(e)[0] == e[0];
    UnlinkOnly(v, t, d, k);
    InvShaped(v', t');
    UniqueFound(Table(v, d), k);
  }

  /** What is lost with a directory: whatever lay below it keeps its clusters, although no path leads to it
      any more. */
  lemma LostBelow(v: Vol, t: Tree, pd: Path, d: nat, k: nat, q: Path)
    requires Inv(v, t) && d in t.dirs && 2 <= d < |v.data| && v.cs % 32 == 0 && k < |Table(v, d)| && DirAt(v, t, pd) == Some(d)
    requires var e := Table(v, d)[k]; Live(e) && e[0] != DOT && UniqueName(Table(v, d), k)
    requires pd + [NameOf(Table(v, d)[k])] < q && EntryAt(v, t, q).Some? && StartOf(EntryAt(v, t, q).value) != 0
    ensures var x := StartOf(EntryAt(v, t, q).value);
            var (v', t') := Unlinked(v, t, d, k);
            && x in t.chains && x in t'.chains && t'.chains[x] == t.chains[x] && IsChain(v'.fat, t.chains[x])
            && Shaped(v') && forall p: Path :: p != [] && EntryAt(v', t', p).Some? ==> StartOf(EntryAt(v', t', p).value) != x
  {
    hide Inv, IsChain, DirAt, Slots, Lookup, OnlyChild, Child, UniqueName, Table, Subtree;
    InvShaped(v, t);
    var (v', t') := Unlinked(v, t, d, k);
    var n, x := NameOf(Table(v, d)[k]), StartOf(EntryAt(v, t, q).value);
    var p0, q', m := pd + [n], q[..|q| - 1], q[|q| - 1];
    assert q == q' + [m];
    PrefixStep(p0, q);
    UnlinkGone(v, t, d, k);
    DirAtIn(v, t, q');
    ChildLeads(v, t, DirAt(v, t, q').value, m);
    if StartOf(Table(v, d)[k]) == x {
      ChildUnique(v, t, d, n, DirAt(v, t, q').value, m);
      PathsDiffer(v, t, pd, q');
    }
    FileChain(v', t', x);
    forall p: Path | p != [] && EntryAt(v', t', p).Some? ensures StartOf(EntryAt(v', t', p).value) != x {
      NotBelow(v, t, v', t', pd, d, n, q, p);
    }
  }

  lemma NotBelow(v: Vol, t: Tree, v': Vol, t': Tree, pd: Path, d0: nat, n0: Name, q: Path, p: Path)
    requires Inv(v, t) && OnlyChild(v, t, v', t', d0, n0) && DirAt(v, t, pd) == Some(d0) && Child(v', d0, n0) == None
    requires pd + [n0] < q && EntryAt(v, t, q).Some? && StartOf(EntryAt(v, t, q).value) != 0
    requires p != [] && EntryAt(v', t', p).Some?
    ensures StartOf(EntryAt(v', t', p).value) != StartOf(EntryAt(v, t, q).value)
  {
    hide Inv, Lookup, Table, DirAt;
    var p0, p', n := pd + [n0], p[..|p| - 1], p[|p| - 1];
    var q', m := q[..|q| - 1], q[|q| - 1];
    assert p == p' + [n] && q == q' + [m];
    PrefixStep(p0, q);
    DirAtRemoved(v, t, v', t', pd, d0, n0, p');
    DirAtIn(v, t, p');
    DirAtIn(v, t, q');
    var d, e := DirAt(v, t, p').value, DirAt(v, t, q').value;
    assert SameChild(v, t, v', t', d, n);
    if StartOf(EntryAt(v', t', p).value) == StartOf(EntryAt(v, t, q).value) {
      ChildUnique(v, t, d, n, e, m);
      PathsDiffer(v, t, p', q');
    }
  }

  lemma UniqueFound(table: seq<Slot>, k: nat)
    requires k < |table| && Live(table[k]) && UniqueName(table, k)
    ensures Lookup(table, NameOf(table[k])) == Some(table[k]) && Lookup(table[k := Mark(table[k])], NameOf(table[k])) == None
  {
    LookupAt(table, k);
    var t' := table[k := Mark(table[k])];
    forall e | e in t' && Live(e) ensures NameOf(e) != NameOf(table[k]) {
      var j :| 0 <= j < |t'| && t'[j] == e;
    }
    LookupNone(t', NameOf(table[k]));
  }
}
