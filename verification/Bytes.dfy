/** Bytes and the little-endian integers that the on-disk structures are made of. */
module Bytes {
  type byte = x: int | 0 <= x < 256

  /** The little-endian 16-bit value stored at `s[at..at+2]`. */
  function Le16(s: seq<byte>, at: nat): nat
    requires at + 2 <= |s|
  {
    s[at] as int + 0x100 * (s[at + 1] as int)
  }

  /** The little-endian 32-bit value stored at `s[at..at+4]`. */
  function Le32(s: seq<byte>, at: nat): nat
    requires at + 4 <= |s|
  {
    s[at] as int + 0x100 * (s[at + 1] as int) + 0x1_0000 * (s[at + 2] as int) + 0x100_0000 * (s[at + 3] as int)
  }

  function ToLe16(v: nat): (s: seq<byte>)
    requires v < 0x1_0000
    ensures |s| == 2 && Le16(s, 0) == v
  {
    [v % 0x100, v / 0x100]
  }

  function ToLe32(v: nat): (s: seq<byte>)
    requires v < 0x1_0000_0000
    ensures |s| == 4 && Le32(s, 0) == v
  {
    var h := v / 0x100;
    var q := h / 0x100;
    [v % 0x100, h % 0x100, q % 0x100, q / 0x100]
  }

  /** The bytes of a stored number, low byte first. */
  lemma LeBytes(v: nat)
    ensures v < 0x1_0000 ==> ToLe16(v) == [v % 0x100, v / 0x100]
    ensures v < 0x1_0000_0000 ==> ToLe32(v) == [v % 0x100, v / 0x100 % 0x100, v / 0x1_0000 % 0x100, v / 0x100_0000]
  {
  }

  lemma Le32Inverse(b0: byte, b1: byte, b2: byte, b3: byte)
    ensures var v := Le32([b0, b1, b2, b3], 0);
            v < 0x1_0000_0000 && ToLe32(v) == [b0, b1, b2, b3]
  {
    var v := Le32([b0, b1, b2, b3], 0);
    var h := b1 as int + 0x100 * (b2 as int) + 0x1_0000 * (b3 as int);
    var q := b2 as int + 0x100 * (b3 as int);
    assert v == b0 as int + 0x100 * h && h == b1 as int + 0x100 * q;
    assert v / 0x100 == h;
    assert h / 0x100 == q;
  }

  /** `s` with the bytes from `at` on replaced by `patch`. */
  function Overlay(s: seq<byte>, at: nat, patch: seq<byte>): (r: seq<byte>)
    requires at + |patch| <= |s|
    ensures |r| == |s|
    ensures forall i {:trigger r[i]} :: 0 <= i < |s| ==> r[i] == if at <= i < at + |patch| then patch[i - at] else s[i]
  {
    seq(|s|, i requires 0 <= i < |s| => if at <= i < at + |patch| then patch[i - at] else s[i])
  }

  lemma OverlayLeft(a: seq<byte>, b: seq<byte>, at: nat, patch: seq<byte>)
    requires at + |patch| <= |a|
    ensures Overlay(a + b, at, patch) == Overlay(a, at, patch) + b
  {
  }

  lemma OverlayRight(a: seq<byte>, b: seq<byte>, at: nat, patch: seq<byte>)
    requires at + |patch| <= |b|
    ensures Overlay(a + b, |a| + at, patch) == a + Overlay(b, at, patch)
  {
  }
}
