/** 8.3 names: kernel/fs/fat32/fat32.c, format_fat_name and the name printing of readdir.

    A C string is a sequence of bytes without its terminating NUL. */
module FatName {
  import opened Bytes

  const SPACE: byte := 0x20
  const DOT: byte := 0x2E

  predicate IsCString(s: seq<byte>) {
    0 !in s
  }

  function Upper(c: byte): byte {
    if 0x61 <= c <= 0x7A then c - 32 else c
  }

  function UpperAll(s: seq<byte>): (r: seq<byte>)
    ensures |r| == |s|
    ensures forall i :: 0 <= i < |s| ==> r[i] == Upper(s[i])
  {
    seq(|s|, i requires 0 <= i < |s| => Upper(s[i]))
  }

  /** Index of the first `c` in `s`, or `|s|`. */
  function IndexOf(s: seq<byte>, c: byte): (k: nat)
    ensures k <= |s|
    ensures c !in s[..k]
    ensures k < |s| ==> s[k] == c
  {
    if s == [] || s[0] == c then 0
    else
      var k := 1 + IndexOf(s[1..], c);
      assert s[..k] == [s[0]] + s[1..][..k - 1];
      k
  }

  /** The first `n` bytes of `s`, padded with spaces to exactly `n`. */
  function Pad(s: seq<byte>, n: nat): (r: seq<byte>)
    ensures |r| == n
    ensures forall i :: 0 <= i < n ==> r[i] == if i < |s| then s[i] else SPACE
  {
    seq(n, i requires 0 <= i < n => if i < |s| then s[i] else SPACE)
  }

  /** What precedes the first dot, and what follows it. */
  function Base(s: seq<byte>): seq<byte> { s[..IndexOf(s, DOT)] }

  function Ext(s: seq<byte>): seq<byte> {
    var k := IndexOf(s, DOT);
    if k < |s| then s[k + 1..] else []
  }

  /** The stored 11-byte form of a name: eight bytes of base, three of extension. */
  function Normal(s: seq<byte>): (r: seq<byte>)
    ensures |r| == 11
  {
    UpperAll(Pad(Base(s), 8)) + UpperAll(Pad(Ext(s), 3))
  }

  /** Stored bytes up to the first space. */
  function Trim(s: seq<byte>): seq<byte> { s[..IndexOf(s, SPACE)] }

  /** A stored name as readdir prints it. */
  function Print(f: seq<byte>): seq<byte>
    requires |f| == 11
  {
    Trim(f[..8]) + if f[8] != SPACE then [DOT] + Trim(f[8..]) else []
  }

  /** No other byte after a space. */
  predicate SpacesTrail(s: seq<byte>) {
    forall i, j :: 0 <= i < j < |s| && s[i] == SPACE ==> s[j] == SPACE
  }

  // ---- the two loops of format_fat_name and the print loop of readdir ----

  method Format(src: seq<byte>) returns (dest: seq<byte>)
    requires IsCString(src)
    ensures dest == Normal(src)
  {
    dest := seq(11, _ => SPACE);
    var i, j := 0, 0;
    while i < |src| && src[i] != DOT && j < 8
      invariant i == j <= |src| && j <= 8 && |dest| == 11
      invariant DOT !in src[..i]
      invariant forall k :: 0 <= k < 11 ==> dest[k] == if k < j then Upper(src[k]) else SPACE
    {
      dest := dest[j := Upper(src[i])];
      i, j := i + 1, j + 1;
    }
    ghost var b := i;
    while i < |src| && src[i] != DOT
      invariant b <= i <= |src| && DOT !in src[..i]
      invariant b < 8 ==> i == b
    {
      i := i + 1;
    }
    FirstIndex(src, DOT, i);
    assert dest[..8] == UpperAll(Pad(Base(src), 8));
    if i < |src| {
      dest := FormatExt(src, i + 1, dest);
    } else {
      assert dest[8..] == UpperAll(Pad([], 3));
      assert dest == dest[..8] + dest[8..];
    }
  }

  /** The extension loop of format_fat_name. */
  method FormatExt(src: seq<byte>, e: nat, dest0: seq<byte>) returns (dest: seq<byte>)
    requires e <= |src| && |dest0| == 11 && forall k :: 8 <= k < 11 ==> dest0[k] == SPACE
    ensures dest == dest0[..8] + UpperAll(Pad(src[e..], 3))
  {
    dest := dest0;
    var i, j := e, 8;
    while i < |src| && j < 11
      invariant e <= i <= |src| && 8 <= j <= 11 && j - 8 == i - e && |dest| == 11
      invariant forall k :: 0 <= k < 8 ==> dest[k] == dest0[k]
      invariant forall k :: 8 <= k < 11 ==> dest[k] == if k < j then Upper(src[e + k - 8]) else SPACE
    {
      dest := dest[j := Upper(src[i])];
      i, j := i + 1, j + 1;
    }
  }

  method PrintName(f: seq<byte>) returns (name: seq<byte>)
    requires |f| == 11
    ensures name == Print(f)
  {
    name := [];
    var k := 0;
    while k < 8 && f[k] != SPACE
      invariant k <= 8 && name == f[..k] && SPACE !in f[..k]
    {
      assert f[..k + 1] == f[..k] + [f[k]];
      name := name + [f[k]];
      k := k + 1;
    }
    assert f[..8][..k] == f[..k];
    FirstIndex(f[..8], SPACE, k);
    if f[8] != SPACE {
      ghost var base := name;
      name := name + [DOT];
      k := 8;
      while k < 11 && f[k] != SPACE
        invariant 8 <= k <= 11 && name == base + [DOT] + f[8..k] && SPACE !in f[8..k]
      {
        assert f[8..k + 1] == f[8..k] + [f[k]];
        name := name + [f[k]];
        k := k + 1;
      }
      assert f[8..][..k - 8] == f[8..k];
      FirstIndex(f[8..], SPACE, k - 8);
    }
  }

  // ---- round trip ----

  lemma {:induction false} FirstIndex(s: seq<byte>, c: byte, k: nat)
    requires k <= |s| && c !in s[..k] && (k < |s| ==> s[k] == c)
    ensures IndexOf(s, c) == k
  {
    var m := IndexOf(s, c);
    assert forall i :: 0 <= i < m ==> s[i] in s[..m];
    assert forall i :: 0 <= i < k ==> s[i] in s[..k];
  }

  /** Padding what Trim kept gives the field back exactly when its spaces trail. */
  lemma PadTrim(f: seq<byte>)
    ensures Pad(Trim(f), |f|) == f <==> SpacesTrail(f)
  {
    var k := IndexOf(f, SPACE);
    assert forall i :: 0 <= i < k ==> f[i] in f[..k];
    if SpacesTrail(f) {
      assert forall i :: k <= i < |f| ==> f[i] == SPACE;
    } else {
      var i, j :| 0 <= i < j < |f| && f[i] == SPACE && f[j] != SPACE;
      assert k <= i;
      assert Pad(Trim(f), |f|)[j] == SPACE;
    }
  }

  /** A normalised name has no dot in its base, and no lower-case letter. */
  lemma NormalShape(s: seq<byte>)
    ensures DOT !in Normal(s)[..8]
    ensures UpperAll(Normal(s)) == Normal(s)
    ensures Normal(s)[0] != DOT && (IsCString(s) ==> Normal(s)[0] != 0)
  {
    var k := IndexOf(s, DOT);
    forall i | 0 <= i < 8
      ensures Normal(s)[i] != DOT
    {
      if i < k {
        assert s[i] in s[..k];
      }
    }
    assert forall c: byte :: Upper(Upper(c)) == Upper(c);
  }

  /** What the stored byte for `c` is: itself, unless it is a small letter. */
  ghost predicate StoredByte(c: byte, r: byte) {
    if 0x61 <= c <= 0x7A then r == c - 0x20 else r == c
  }

  /** A name byte by byte, its base ending before the first dot: the bytes of both parts, letters made
      capital, and spaces behind them. No small letter is ever stored. */
  lemma NormalBytes(s: seq<byte>, k: nat)
    requires k <= |s| && (forall i :: 0 <= i < k ==> s[i] != 0x2E) && (k < |s| ==> s[k] == 0x2E)
    ensures |Normal(s)| == 11 && forall i :: 0 <= i < 11 ==> !(0x61 <= Normal(s)[i] <= 0x7A)
    ensures forall i :: 0 <= i < 8 ==> if i < k then StoredByte(s[i], Normal(s)[i]) else Normal(s)[i] == 0x20
    ensures forall i :: 8 <= i < 11 ==> if k + 1 + i - 8 < |s| then StoredByte(s[k + 1 + i - 8], Normal(s)[i]) else Normal(s)[i] == 0x20
  {
    FirstIndex(s, DOT, k);
  }

  /** Names that differ only in case are stored alike. */
  lemma CaseIgnored(s: seq<byte>, t: seq<byte>)
    requires |t| == |s| && forall i :: 0 <= i < |s| ==> t[i] == s[i] || (0x61 <= s[i] <= 0x7A && t[i] == s[i] - 0x20)
    ensures Normal(t) == Normal(s)
  {
    hide Normal, StoredByte;
    var k := IndexOf(s, DOT);
    assert forall i :: 0 <= i < k ==> s[i] in s[..k];
    assert forall i :: 0 <= i < k ==> s[i] != DOT && t[i] != DOT;
    NormalBytes(s, k);
    NormalBytes(t, k);
    forall i | 0 <= i < 11 ensures Normal(t)[i] == Normal(s)[i] {
      var j := if i < 8 then i else k + 1 + i - 8;
      if (i < 8 && i < k) || (i >= 8 && j < |s|) {
        SameStored(s[j], t[j], Normal(s)[i], Normal(t)[i]);
      }
    }
  }

  lemma SameStored(c: byte, c': byte, r: byte, r': byte)
    requires (c' == c || (0x61 <= c <= 0x7A && c' == c - 0x20)) && StoredByte(c, r) && StoredByte(c', r')
    ensures r == r'
  {
  }

  /** What the printed form of a stored name parses back to. */
  lemma NormalOfPrint(f: seq<byte>)
    requires |f| == 11 && DOT !in f[..8] && UpperAll(f) == f
    ensures Normal(Print(f)) == Pad(Trim(f[..8]), 8) + (if f[8] != SPACE then Pad(Trim(f[8..]), 3) else Pad([], 3))
  {
    var p, b := Print(f), Trim(f[..8]);
    assert p[..|b|] == b;
    assert forall i :: 0 <= i < |b| ==> b[i] == f[..8][i];
    FirstIndex(p, DOT, |b|);
    assert Base(p) == b;
    assert Ext(p) == if f[8] != SPACE then Trim(f[8..]) else [];
    assert forall i :: 0 <= i < 11 ==> Upper(f[i]) == f[i];
    assert forall i :: 0 <= i < |Ext(p)| ==> Ext(p)[i] == f[8..][i];
    assert UpperAll(Pad(Base(p), 8)) == Pad(b, 8);
    assert UpperAll(Pad(Ext(p), 3)) == Pad(Ext(p), 3);
  }

  /** Printing a stored name and normalising it again is the identity exactly when neither field
      of the name has a non-space after a space. */
  lemma PrintRoundTrip(s: seq<byte>)
    ensures var f := Normal(s);
            Normal(Print(f)) == f <==> SpacesTrail(f[..8]) && SpacesTrail(f[8..])
  {
    var f := Normal(s);
    NormalShape(s);
    NormalOfPrint(f);
    PadTrim(f[..8]);
    PadTrim(f[8..]);
    var b, e := Pad(Trim(f[..8]), 8), if f[8] != SPACE then Pad(Trim(f[8..]), 3) else Pad([], 3);
    assert f == f[..8] + f[8..];
    assert (b + e)[..8] == b && (b + e)[8..] == e;
    if f[8] == SPACE {
      assert IndexOf(f[8..], SPACE) == 0;
      assert Trim(f[8..]) == [];
    }
  }

  /** Every name without spaces survives the round trip. */
  lemma SpacelessRoundTrip(s: seq<byte>)
    requires SPACE !in s
    ensures Normal(Print(Normal(s))) == Normal(s)
  {
    var f := Normal(s);
    PrintRoundTrip(s);
    assert forall i :: 0 <= i < |Base(s)| ==> Base(s)[i] in s;
    assert forall i :: 0 <= i < |Ext(s)| ==> Ext(s)[i] in s;
    assert forall i :: 0 <= i < 3 ==> f[8..][i] == f[8 + i];
  }

  /** A name with an inner space does not. */
  lemma InnerSpaceIsLost()
    ensures var s := [0x41, SPACE, 0x42];
            Normal(Print(Normal(s))) != Normal(s)
  {
    var s: seq<byte> := [0x41, SPACE, 0x42];
    PrintRoundTrip(s);
    FirstIndex(s, DOT, 3);
    var f := Normal(s);
    assert f[..8][1] == SPACE && f[..8][2] == 0x42;
  }
}
