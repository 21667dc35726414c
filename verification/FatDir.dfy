/** A directory cluster as a table of 32-byte slots: kernel/include/fs/fat32.h and the slot loops of
    kernel/fs/fat32/fat32.c. */
module FatDir {
  import opened Bytes
  import opened Common

  const UNUSED: byte := 0x00
  const DELETED: byte := 0xE5

  type Slot = s: seq<byte> | |s| == 32 witness seq(32, _ => 0)
  type Name = s: seq<byte> | |s| == 11 witness seq(11, _ => 0)

  // ---- fields of one slot ----

  function NameOf(e: Slot): Name { e[..11] }
  function AttrOf(e: Slot): byte { e[11] }
  function StartOf(e: Slot): nat { Le16(e, 26) + 0x1_0000 * Le16(e, 20) }
  function SizeOf(e: Slot): nat { Le32(e, 28) }

  predicate IsDirAttr(a: byte) { a / 16 % 2 == 1 }
  predicate IsUnused(e: Slot) { e[0] == UNUSED }
  predicate Live(e: Slot) { e[0] != UNUSED && e[0] != DELETED }

  lemma HalfBytes(v: nat)
    ensures v % 0x1_0000 % 0x100 == v % 0x100 && v % 0x1_0000 / 0x100 == v / 0x100 % 0x100
    ensures v / 0x1_0000 / 0x100 == v / 0x100_0000
  {
    var b0, h := v % 0x100, v / 0x100;
    var b1, q := h % 0x100, h / 0x100;
    var b2, p := q % 0x100, q / 0x100;
    assert v == b0 + 0x100 * b1 + 0x1_0000 * q && v == b0 + 0x100 * b1 + 0x1_0000 * b2 + 0x100_0000 * p;
    assert v / 0x1_0000 == q && v % 0x1_0000 == b0 + 0x100 * b1;
    assert v / 0x100_0000 == p;
  }

  /** Which bytes of a slot say where the file starts and how large it is, low byte first, and which bit of
      the attribute marks a directory. */
  lemma SlotBytes(e: Slot)
    ensures StartOf(e) == e[26] as int + 0x100 * e[27] as int + 0x1_0000 * e[20] as int + 0x100_0000 * e[21] as int
    ensures SizeOf(e) == e[28] as int + 0x100 * e[29] as int + 0x1_0000 * e[30] as int + 0x100_0000 * e[31] as int
    ensures IsDirAttr(AttrOf(e)) <==> e[11] % 0x20 >= 0x10
  {
  }

  /** A zeroed slot with its name, attribute, start cluster and size filled in. */
  function MakeSlot(name: Name, attr: byte, start: nat, size: nat): (e: Slot)
    requires start < WORD && size < WORD
    ensures NameOf(e) == name && AttrOf(e) == attr && StartOf(e) == start && SizeOf(e) == size
    ensures e[0] == name[0]
  {
    var e: seq<byte> := Overlay(seq(32, _ => 0), 0, name);
    var e := Overlay(e, 11, [attr]);
    var e := Overlay(e, 20, ToLe16(start / 0x1_0000));
    var e := Overlay(e, 26, ToLe16(start % 0x1_0000));
    var e := Overlay(e, 28, ToLe32(size));
    assert e[..11] == name;
    e
  }

  /** The 32 bytes written, one by one. */
  lemma MakeSlotBytes(name: Name, attr: byte, start: nat, size: nat)
    requires start < WORD && size < WORD
    ensures var e := MakeSlot(name, attr, start, size);
            && e[..11] == name && e[11] == attr && (forall i :: 12 <= i < 20 || 22 <= i < 26 ==> e[i] == 0)
            && e[26] == start % 0x100 && e[27] == start / 0x100 % 0x100 && e[20] == start / 0x1_0000 % 0x100 && e[21] == start / 0x100_0000
            && e[28] == size % 0x100 && e[29] == size / 0x100 % 0x100 && e[30] == size / 0x1_0000 % 0x100 && e[31] == size / 0x100_0000
  {
    hide StartOf, SizeOf, Le16, Le32, ToLe16, ToLe32;
    LeBytes(start / 0x1_0000);
    LeBytes(start % 0x1_0000);
    LeBytes(size);
    HalfBytes(start);
  }

  /** Only the size field changes. */
  function WithSize(e: Slot, size: nat): (r: Slot)
    requires size < WORD
    ensures SizeOf(r) == size && forall i :: 0 <= i < 28 ==> r[i] == e[i]
    ensures NameOf(r) == NameOf(e) && AttrOf(r) == AttrOf(e) && StartOf(r) == StartOf(e) && r[0] == e[0]
  {
    Overlay(e, 28, ToLe32(size))
  }

  lemma WithSameSize(e: Slot)
    ensures SizeOf(e) < WORD && WithSize(e, SizeOf(e)) == e
  {
    Le32Inverse(e[28], e[29], e[30], e[31]);
  }

  function Mark(e: Slot): (r: Slot)
    ensures r[0] == DELETED && forall i :: 1 <= i < 32 ==> r[i] == e[i]
  {
    e[0 := DELETED]
  }

  // ---- the slot table of a cluster ----

  /** The `k`-th slot of a cluster's bytes. */
  function SlotAt(bytes: seq<byte>, k: nat): (e: Slot)
    requires 32 * k + 32 <= |bytes|
    ensures forall i {:trigger e[i]} :: 0 <= i < 32 ==> e[i] == bytes[32 * k + i]
  {
    seq(32, i requires 0 <= i < 32 => bytes[32 * k + i])
  }

  /** The slots that a cluster's bytes hold. */
  function Slots(bytes: seq<byte>): (t: seq<Slot>)
    requires |bytes| % 32 == 0
    ensures |t| == |bytes| / 32
    ensures forall k {:trigger t[k]} :: 0 <= k < |t| ==> t[k] == SlotAt(bytes, k)
  {
    seq(|bytes| / 32, k requires 0 <= k < |bytes| / 32 => SlotAt(bytes, k))
  }

  /** Writing one slot into the bytes updates one element of the table. */
  lemma PutSlot(bytes: seq<byte>, k: nat, e: Slot)
    requires |bytes| % 32 == 0 && k < |bytes| / 32
    ensures Slots(Overlay(bytes, 32 * k, e)) == Slots(bytes)[k := e]
  {
    var b' := Overlay(bytes, 32 * k, e);
    forall j | 0 <= j < |bytes| / 32
      ensures Slots(b')[j] == Slots(bytes)[k := e][j]
    {
      forall i | 0 <= i < 32 ensures SlotAt(b', j)[i] == Slots(bytes)[k := e][j][i] {
        assert SlotAt(b', j)[i] == b'[32 * j + i];
        assert SlotAt(bytes, j)[i] == bytes[32 * j + i];
      }
    }
  }

  /** A zeroed cluster is a table of unused slots. */
  lemma ZeroSlots(bytes: seq<byte>)
    requires |bytes| % 32 == 0 && forall i :: 0 <= i < |bytes| ==> bytes[i] == 0
    ensures forall k :: 0 <= k < |Slots(bytes)| ==> IsUnused(Slots(bytes)[k])
  {
    forall k | 0 <= k < |Slots(bytes)| ensures IsUnused(Slots(bytes)[k]) {
      assert Slots(bytes)[k][0] == bytes[32 * k];
    }
  }

  /** Every slot after the first unused one is unused. */
  ghost predicate TailUnused(t: seq<Slot>) {
    forall i, j {:trigger IsUnused(t[i]), IsUnused(t[j])} :: 0 <= i < j < |t| && IsUnused(t[i]) ==> IsUnused(t[j])
  }

  // ---- the searches, by what they find ----

  /** `k` is the slot the create loop stops at: the first unused or deleted one. */
  ghost predicate IsFirstFree(t: seq<Slot>, k: nat) {
    k < |t| && !Live(t[k]) && forall j :: 0 <= j < k ==> Live(t[j])
  }

  ghost predicate DirFull(t: seq<Slot>) {
    forall j :: 0 <= j < |t| ==> Live(t[j])
  }

  /** The first live slot with this name, if any: the meaning of a directory as a map. */
  ghost function Lookup(t: seq<Slot>, name: Name): (r: Option<Slot>)
    ensures r.Some? ==> r.value in t && Live(r.value) && NameOf(r.value) == name
    ensures r.None? ==> forall e :: e in t && Live(e) ==> NameOf(e) != name
  {
    if t == [] then None
    else if Live(t[0]) && NameOf(t[0]) == name then Some(t[0])
    else Lookup(t[1..], name)
  }

  /** The directory as a finite map from stored names to slots. */
  ghost function AsMap(t: seq<Slot>): map<Name, Slot> {
    map n | n in (set e | e in t && Live(e) :: NameOf(e)) :: Lookup(t, n).value
  }

  ghost predicate UniqueName(t: seq<Slot>, k: nat)
    requires k < |t|
  {
    forall j :: 0 <= j < |t| && j != k && Live(t[j]) ==> NameOf(t[j]) != NameOf(t[k])
  }

  lemma {:induction false} LookupAt(t: seq<Slot>, k: nat)
    requires k < |t| && Live(t[k])
    requires forall j :: 0 <= j < k && Live(t[j]) ==> NameOf(t[j]) != NameOf(t[k])
    ensures Lookup(t, NameOf(t[k])) == Some(t[k])
  {
    if k > 0 {
      assert t[1..][k - 1] == t[k];
      LookupAt(t[1..], k - 1);
    }
  }

  lemma {:induction false} LookupNone(t: seq<Slot>, name: Name)
    requires forall e :: e in t && Live(e) ==> NameOf(e) != name
    ensures Lookup(t, name) == None
  {
  }

  /** Where a lookup ends: at the first live slot with the name. */
  lemma {:induction false} LookupIndex(t: seq<Slot>, name: Name) returns (k: nat)
    requires Lookup(t, name).Some?
    ensures k < |t| && Lookup(t, name) == Some(t[k]) && Live(t[k]) && NameOf(t[k]) == name
    ensures forall j :: 0 <= j < k && Live(t[j]) ==> NameOf(t[j]) != name
  {
    if Live(t[0]) && NameOf(t[0]) == name {
      k := 0;
    } else {
      k := LookupIndex(t[1..], name);
      k := k + 1;
    }
  }

  /** Tables with the same names in the same live slots find the same slots. */
  lemma LookupSame(t: seq<Slot>, t': seq<Slot>, name: Name) returns (k: nat)
    requires |t'| == |t| && forall j :: 0 <= j < |t| ==> Live(t'[j]) == Live(t[j]) && NameOf(t'[j]) == NameOf(t[j])
    ensures Lookup(t, name) == None ==> Lookup(t', name) == None
    ensures Lookup(t, name).Some? ==> k < |t| && Lookup(t, name) == Some(t[k]) && Lookup(t', name) == Some(t'[k])
  {
    if Lookup(t, name).Some? {
      k := LookupIndex(t, name);
      LookupAt(t', k);
    } else {
      k := 0;
      forall e | e in t' && Live(e) ensures NameOf(e) != name {
        var j :| 0 <= j < |t'| && t'[j] == e;
        assert t[j] in t;
      }
      LookupNone(t', name);
    }
  }

  /** Replacing slot `k` leaves the lookup of every name that neither the old nor the new slot
      carries. */
  lemma {:induction false} LookupOther(t: seq<Slot>, k: nat, e: Slot, name: Name)
    requires k < |t|
    requires Live(t[k]) ==> NameOf(t[k]) != name
    requires Live(e) ==> NameOf(e) != name
    ensures Lookup(t[k := e], name) == Lookup(t, name)
  {
    if k == 0 {
      assert t[k := e][1..] == t[1..];
    } else {
      assert t[k := e][1..] == t[1..][k - 1 := e];
      LookupOther(t[1..], k - 1, e, name);
    }
  }

  // ---- what finddir finds ----

  /** The first slot before the first unused one that carries these 11 bytes, deleted or not. */
  ghost function Find(t: seq<Slot>, name: Name): Option<Slot> {
    if t == [] || IsUnused(t[0]) then None
    else if NameOf(t[0]) == name then Some(t[0])
    else Find(t[1..], name)
  }

  lemma {:induction false} FindAt(t: seq<Slot>, k: nat)
    requires k < |t| && forall j :: 0 <= j <= k ==> !IsUnused(t[j])
    requires forall j :: 0 <= j < k ==> NameOf(t[j]) != NameOf(t[k])
    ensures Find(t, NameOf(t[k])) == Some(t[k])
  {
    if k > 0 {
      FindAt(t[1..], k - 1);
    }
  }

  lemma {:induction false} FindNone(t: seq<Slot>, k: nat, name: Name)
    requires k <= |t| && (k == |t| || IsUnused(t[k])) && forall j :: 0 <= j < k ==> NameOf(t[j]) != name
    ensures Find(t, name) == None
  {
    if k > 0 {
      FindNone(t[1..], k - 1, name);
    }
  }

  /** Finddir and the live slots agree on a name if and only if the name does not begin with the deletion
      mark, or no slot carries it. */
  lemma FindAgrees(t: seq<Slot>, name: Name)
    requires TailUnused(t)
    ensures Find(t, name) == Lookup(t, name) <==> name[0] != DELETED || forall e :: e in t ==> NameOf(e) != name
  {
    FindOrLookup(t, name);
    if name[0] == DELETED {
      MarkedIsAbsent(t, name);
    }
  }

  lemma {:induction false} FindOrLookup(t: seq<Slot>, name: Name)
    requires TailUnused(t)
    ensures if name[0] == DELETED then Find(t, name).Some? <==> exists e :: e in t && NameOf(e) == name
            else Find(t, name) == Lookup(t, name)
  {
    if t != [] && !IsUnused(t[0]) {
      assert NameOf(t[0])[0] == t[0][0];
      if NameOf(t[0]) != name {
        assert TailUnused(t[1..]);
        FindOrLookup(t[1..], name);
        assert forall e :: e in t <==> e == t[0] || e in t[1..];
      }
    } else {
      forall e | e in t ensures IsUnused(e) && NameOf(e)[0] == UNUSED {
        var j :| 0 <= j < |t| && t[j] == e;
        assert IsUnused(t[0]) && IsUnused(t[j]);
      }
      if name[0] != DELETED {
        LookupNone(t, name);
      }
    }
  }

  /** A deleted slot is still found under the name that the deletion mark has made of its own. */
  lemma DeletedIsFound(t: seq<Slot>, k: nat)
    requires TailUnused(t) && k < |t| && Live(t[k])
    ensures var t', name := t[k := Mark(t[k])], NameOf(Mark(t[k]));
            Find(t', name).Some? && Lookup(t', name) == None
  {
    var t', name := t[k := Mark(t[k])], NameOf(Mark(t[k]));
    TailKept(t, k, Mark(t[k]));
    assert t'[k] in t' && name[0] == DELETED;
    FindAgrees(t', name);
    FindOrLookup(t', name);
    MarkedIsAbsent(t', name);
  }

  /** The first free slot, filled with a name that no slot carries, is what finddir then finds; among the
      live slots, where unlink and the size update look, it is found exactly when the name does not begin
      with the deletion mark. */
  lemma CreatedIsFound(t: seq<Slot>, k: nat, e: Slot)
    requires IsFirstFree(t, k) && e[0] != UNUSED && Find(t, NameOf(e)) == None && Lookup(t, NameOf(e)) == None
    ensures Find(t[k := e], NameOf(e)) == Some(e)
    ensures Lookup(t[k := e], NameOf(e)) == (if e[0] != DELETED then Some(e) else None)
  {
    var t' := t[k := e];
    assert forall j :: 0 <= j < |t| ==> t[j] in t;
    forall j | 0 <= j < k ensures NameOf(t'[j]) != NameOf(t'[k]) {
      assert Live(t[j]) && t[j] in t;
    }
    FindAt(t', k);
    if Live(e) {
      LookupAt(t', k);
    } else {
      assert forall x :: x in t' ==> x in t || x == e;
      LookupNone(t', NameOf(e));
    }
  }

  /** Both views of a directory agree. */
  lemma MapLookup(t: seq<Slot>, name: Name)
    ensures Lookup(t, name) == if name in AsMap(t) then Some(AsMap(t)[name]) else None
  {
    var r := Lookup(t, name);
    if r.Some? {
      assert NameOf(r.value) == name;
    }
  }

  lemma MapsEqual(t: seq<Slot>, m: map<Name, Slot>)
    requires forall n: Name :: Lookup(t, n) == if n in m then Some(m[n]) else None
    ensures AsMap(t) == m
  {
    forall n: Name
      ensures n in AsMap(t) <==> n in m
      ensures n in m ==> AsMap(t)[n] == m[n]
    {
      MapLookup(t, n);
    }
  }

  /** Filling a free slot with an absent name adds one binding to the map. */
  lemma CreateIsInsert(t: seq<Slot>, k: nat, e: Slot)
    requires k < |t| && !Live(t[k]) && Live(e) && NameOf(e) !in AsMap(t)
    ensures AsMap(t[k := e]) == AsMap(t)[NameOf(e) := e]
  {
    var t', m := t[k := e], AsMap(t)[NameOf(e) := e];
    forall n: Name
      ensures Lookup(t', n) == if n in m then Some(m[n]) else None
    {
      MapLookup(t, n);
      if n == NameOf(e) {
        assert t'[k] == e;
        LookupAt(t', k);
      } else {
        LookupOther(t, k, e, n);
      }
    }
    MapsEqual(t', m);
  }

  /** Create does not look for the name. Creating one that is there already hides the old entry when the
      free slot comes before it; otherwise the old entry hides the new one. */
  lemma DuplicateHides(t: seq<Slot>, k: nat, e: Slot)
    requires IsFirstFree(t, k) && Live(e) && Lookup(t, NameOf(e)).Some?
    ensures Lookup(t[k := e], NameOf(e)) ==
            if forall j :: 0 <= j < k ==> NameOf(t[j]) != NameOf(e) then Some(e) else Lookup(t, NameOf(e))
  {
    var t' := t[k := e];
    if forall j :: 0 <= j < k ==> NameOf(t[j]) != NameOf(e) {
      LookupAt(t', k);
    } else {
      var i := LookupIndex(t, NameOf(e));
      assert i < k && t'[i] == t[i];
      LookupAt(t', i);
    }
  }

  /** Replacing one slot that is not live by another changes nothing in the map. */
  lemma DeadIsNothing(t: seq<Slot>, k: nat, e: Slot)
    requires k < |t| && !Live(t[k]) && !Live(e)
    ensures AsMap(t[k := e]) == AsMap(t)
  {
    forall n: Name ensures Lookup(t[k := e], n) == if n in AsMap(t) then Some(AsMap(t)[n]) else None {
      LookupOther(t, k, e, n);
      MapLookup(t, n);
    }
    MapsEqual(t[k := e], AsMap(t));
  }

  /** No live slot has a name with the deletion mark. */
  lemma MarkedIsAbsent(t: seq<Slot>, name: Name)
    requires name[0] == DELETED
    ensures Lookup(t, name) == None
  {
    forall e | e in t && Live(e) ensures NameOf(e) != name {
      assert NameOf(e)[0] == e[0];
    }
    LookupNone(t, name);
  }

  /** Marking a slot deleted keeps every other name; the slot's own name disappears exactly when no
      other live slot carries it. */
  lemma UnlinkIsRemove(t: seq<Slot>, k: nat)
    requires k < |t| && Live(t[k])
    ensures forall n: Name :: n != NameOf(t[k]) ==> Lookup(t[k := Mark(t[k])], n) == Lookup(t, n)
    ensures NameOf(t[k]) !in AsMap(t[k := Mark(t[k])]) <==> UniqueName(t, k)
    ensures UniqueName(t, k) ==> AsMap(t[k := Mark(t[k])]) == AsMap(t) - {NameOf(t[k])}
  {
    var e := Mark(t[k]);
    var t', name := t[k := e], NameOf(t[k]);
    forall n: Name | n != name ensures Lookup(t', n) == Lookup(t, n) {
      LookupOther(t, k, e, n);
    }
    MapLookup(t', name);
    if UniqueName(t, k) {
      LookupNone(t', name);
      forall n: Name
        ensures Lookup(t', n) == if n in AsMap(t) - {name} then Some((AsMap(t) - {name})[n]) else None
      {
        MapLookup(t, n);
      }
      MapsEqual(t', AsMap(t) - {name});
    } else {
      var j :| 0 <= j < |t| && j != k && Live(t[j]) && NameOf(t[j]) == name;
      assert t'[j] in t';
    }
  }

  /** Filling the first free slot, marking a slot deleted, or changing a live slot keeps the unused
      tail. */
  lemma TailKept(t: seq<Slot>, k: nat, e: Slot)
    requires k < |t| && TailUnused(t) && e[0] != UNUSED
    requires Live(t[k]) || IsFirstFree(t, k)
    ensures TailUnused(t[k := e])
  {
    var t' := t[k := e];
    forall i, j | 0 <= i < j < |t| && IsUnused(t'[i]) ensures IsUnused(t'[j]) {
      assert IsUnused(t[i]);
      assert IsUnused(t[j]);
    }
  }
}
