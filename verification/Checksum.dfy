/** ip_checksum of kernel/net/ipv4/ipv4.c: the one's-complement sum of section 1 of RFC 1071, over
    16-bit words as the machine loads them (little-endian). */
module Checksum {
  import opened Bytes

  /** The plain sum of the 16-bit words, an odd last byte counting as a word of its own. */
  function WordSum(data: seq<byte>): nat {
    if data == [] then 0
    else if |data| == 1 then data[0] as int
    else Le16(data, 0) + WordSum(data[2..])
  }

  /** The one's-complement value of a sum: 0 for 0, else the number in 1..65535 congruent to it modulo
      65535. */
  function Ones(s: nat): (f: nat)
    ensures f <= 0xFFFF && (f == 0 <==> s == 0) && (s - f) % 0xFFFF == 0
  {
    if s == 0 then 0 else 1 + (s - 1) % 0xFFFF
  }

  lemma {:induction false} SumBound(data: seq<byte>)
    ensures 2 * WordSum(data) <= 0xFFFF * (|data| + 1)
  {
    if |data| >= 2 {
      SumBound(data[2..]);
    }
  }

  lemma {:induction false} SumTail(data: seq<byte>, k: nat)
    requires k % 2 == 0 && k <= |data|
    ensures WordSum(data) == WordSum(data[..k]) + WordSum(data[k..])
  {
    if k == 0 {
      assert data[0..] == data;
    } else {
      SumTail(data[2..], k - 2);
      assert data[2..][..k - 2] == data[..k][2..];
      assert data[2..][k - 2..] == data[k..];
    }
  }

  /** The sum, two bytes at a time, and a last byte on its own. */
  lemma SumGrows(data: seq<byte>, x: byte, y: byte)
    requires |data| % 2 == 0
    ensures WordSum(data + [x]) == WordSum(data) + x && WordSum(data + [x, y]) == WordSum(data) + x + 0x100 * y
  {
    SumTail(data + [x], |data|);
    SumTail(data + [x, y], |data|);
    assert (data + [x])[..|data|] == data && (data + [x])[|data|..] == [x];
    assert (data + [x, y])[..|data|] == data && (data + [x, y])[|data|..] == [x, y];
    assert WordSum([x, y]) == Le16([x, y], 0) + WordSum([x, y][2..]);
  }

  /** One round of folding keeps the one's-complement value. */
  lemma FoldKeeps(s: nat)
    ensures Ones(s % 0x1_0000 + s / 0x1_0000) == Ones(s)
  {
    var q, r := s / 0x1_0000, s % 0x1_0000;
    if s > 0 {
      assert s - 1 == (q + r - 1) + 0xFFFF * q;
      ModShift(q + r - 1, q);
    }
  }

  lemma {:induction false} ModShift(a: nat, q: nat)
    ensures (a + 0xFFFF * q) % 0xFFFF == a % 0xFFFF
  {
    if q > 0 { ModShift(a, q - 1); }
  }

  /** ip_checksum. The 32-bit accumulator does not overflow for any 16-bit length. */
  method Compute(data: seq<byte>) returns (checksum: nat)
    requires |data| < 0x1_0000
    ensures checksum == 0xFFFF - Ones(WordSum(data))
    ensures checksum <= 0xFFFF && (WordSum(data) + checksum) % 0xFFFF == 0 && (checksum == 0xFFFF <==> WordSum(data) == 0)
  {
    var sum, at, len := 0, 0, |data|;
    SumBound(data);
    assert data[0..] == data;
    while len > 1
      invariant 0 <= at <= |data| && len == |data| - at && sum >= 0 && sum + WordSum(data[at..]) == WordSum(data) < 0x1_0000_0000
    {
      assert data[at..][2..] == data[at + 2..];
      sum := sum + Le16(data, at);
      at := at + 2;
      len := len - 2;
    }
    if len > 0 {
      sum := sum + data[at] as int;
    }
    assert sum == WordSum(data);
    while sum / 0x1_0000 != 0
      invariant sum >= 0 && Ones(sum) == Ones(WordSum(data))
      decreases sum
    {
      FoldKeeps(sum);
      sum := sum % 0x1_0000 + sum / 0x1_0000;
    }
    checksum := 0xFFFF - sum;
  }

  /** The checksum of data is 0 exactly when its word sum is a positive multiple of 65535. */
  lemma ZeroWhen(s: nat)
    ensures Ones(s) == 0xFFFF <==> s > 0 && s % 0xFFFF == 0
  {
  }

  /** Replacing the word at an even offset changes the sum by the difference. */
  lemma SumReplace(data: seq<byte>, k: nat, w: nat)
    requires k % 2 == 0 && k + 2 <= |data| && w < 0x1_0000
    ensures WordSum(Overlay(data, k, ToLe16(w))) == WordSum(data) - Le16(data, k) + w
  {
    var data' := Overlay(data, k, ToLe16(w));
    SumTail(data, k);
    SumTail(data', k);
    assert data'[..k] == data[..k];
    assert data[k..][2..] == data'[k..][2..];
    assert Le16(data'[k..], 0) == w && Le16(data[k..], 0) == Le16(data, k);
  }

  /** Storing the checksum in a zeroed field at an even offset makes the whole sum to checksum 0, for
      every content, all zero or not. */
  lemma StoredChecksumVerifies(data: seq<byte>, k: nat)
    requires k % 2 == 0 && k + 2 <= |data| && Le16(data, k) == 0
    ensures var r := 0xFFFF - Ones(WordSum(data));
            Ones(WordSum(Overlay(data, k, ToLe16(r)))) == 0xFFFF
  {
    var s := WordSum(data);
    var f := Ones(s);
    SumReplace(data, k, 0xFFFF - f);
    ZeroWhen(s - f + 0xFFFF);
  }

  /** Data that verifies still verifies after one word has changed exactly when the change is between 0
      and 0xFFFF and does not leave everything zero. */
  lemma ChangedWordDetected(data: seq<byte>, k: nat, w: nat)
    requires k % 2 == 0 && k + 2 <= |data| && w < 0x1_0000 && Ones(WordSum(data)) == 0xFFFF
    ensures var data' := Overlay(data, k, ToLe16(w));
            Ones(WordSum(data')) == 0xFFFF <==>
            (w == Le16(data, k) || (w == 0 && Le16(data, k) == 0xFFFF) || (w == 0xFFFF && Le16(data, k) == 0)) && WordSum(data') > 0
  {
    SumReplace(data, k, w);
    ZeroWhen(WordSum(data));
    ZeroWhen(WordSum(data) - Le16(data, k) + w);
    MultipleShift(WordSum(data), w - Le16(data, k));
  }

  lemma MultipleShift(s: nat, d: int)
    requires s % 0xFFFF == 0 && -0xFFFF <= d <= 0xFFFF && s + d >= 0
    ensures (s + d) % 0xFFFF == 0 <==> d == 0 || d == 0xFFFF || d == -0xFFFF
  {
  }
}
