/** Bytes and the little-endian integer fields of the archive format. */
module Bytes {

  type Byte = x: int | 0 <= x < 0x100

  /** Exclusive upper bounds of Go's uint16 and uint32. */
  const U16_LIMIT: nat := 0x1_0000
  const U32_LIMIT: nat := 0x1_0000_0000

  /** Go's uint16(n) and uint32(n) conversions: wrap-around modulo the width. */
  function Uint16(n: nat): (r: nat)
    ensures r < U16_LIMIT
    ensures n < U16_LIMIT ==> r == n
  {
    n % U16_LIMIT
  }

  function Uint32(n: nat): (r: nat)
    ensures r < U32_LIMIT
    ensures n < U32_LIMIT ==> r == n
  {
    n % U32_LIMIT
  }

  /** The k low-order bytes of n, least significant first. */
  function LeBytes(n: nat, k: nat): (r: seq<Byte>)
    ensures |r| == k
  {
    if k == 0 then [] else [n % 0x100] + LeBytes(n / 0x100, k - 1)
  }

  /** binary.Write(w, binary.LittleEndian, uint16(n)) */
  function Le16(n: nat): (r: seq<Byte>)
    requires n < U16_LIMIT
    ensures |r| == 2
    ensures r[0] == n % 0x100 && r[1] == n / 0x100
  {
    assert LeBytes(n / 0x100, 1) == [n / 0x100 % 0x100] + LeBytes(n / 0x100 / 0x100, 0);
    LeBytes(n, 2)
  }

  /** binary.Write(w, binary.LittleEndian, uint32(n)) */
  function Le32(n: nat): (r: seq<Byte>)
    requires n < U32_LIMIT
    ensures |r| == 4
    ensures r[0] == n % 0x100 && r[1] == n / 0x100 % 0x100 &&
      r[2] == n / 0x1_0000 % 0x100 && r[3] == n / 0x100_0000
  {
    var q1, q2, q3 := n / 0x100, n / 0x1_0000, n / 0x100_0000;
    assert q1 / 0x100 == q2 && q2 / 0x100 == q3 && q3 < 0x100;
    assert LeBytes(q3, 1) == [q3 % 0x100] + LeBytes(q3 / 0x100, 0);
    assert LeBytes(q2, 2) == [q2 % 0x100] + LeBytes(q3, 1);
    assert LeBytes(q1, 3) == [q1 % 0x100] + LeBytes(q2, 2);
    LeBytes(n, 4)
  }

  /** A value below 0x100 is written as itself followed by zero bytes. */
  lemma {:induction false} LeBytesSmall(n: nat, k: nat)
    requires n < 0x100 && k > 0
    ensures LeBytes(n, k) == [n] + seq(k - 1, _ => 0)
  {
    LeBytesZero(k - 1);
    assert LeBytes(n, k) == [n] + LeBytes(0, k - 1);
  }

  lemma {:induction false} LeBytesZero(k: nat)
    ensures LeBytes(0, k) == seq(k, _ => 0)
  {
    if k > 0 {
      LeBytesZero(k - 1);
      assert LeBytes(0, k) == [0] + LeBytes(0, k - 1);
      assert [0] + seq(k - 1, _ => 0) == seq(k, _ => 0);
    }
  }

  /** The unsigned value of the little-endian bytes s. */
  function LeValue(s: seq<Byte>): nat
  {
    if s == [] then 0 else s[0] + 0x100 * LeValue(s[1..])
  }

  /** 0x100 to the power k: one more than the largest value of k bytes. */
  function ByteLimit(k: nat): nat
  {
    if k == 0 then 1 else 0x100 * ByteLimit(k - 1)
  }

  lemma {:induction false} LeValueBound(s: seq<Byte>)
    ensures LeValue(s) < ByteLimit(|s|)
  {
    if s != [] {
      LeValueBound(s[1..]);
    }
  }

  /** binary.Read of a little-endian uint16 from the first two bytes of s. */
  function ReadLe16(s: seq<Byte>): (n: nat)
    requires |s| >= 2
    ensures n < U16_LIMIT
  {
    LeValueBound(s[..2]);
    LeValue(s[..2])
  }

  /** binary.Read of a little-endian uint32 from the first four bytes of s. */
  function ReadLe32(s: seq<Byte>): (n: nat)
    requires |s| >= 4
    ensures n < U32_LIMIT
  {
    LeValueBound(s[..4]);
    LeValue(s[..4])
  }

  /** Reading k bytes back gives the value written into them. */
  lemma {:induction false} LeRoundTrip(n: nat, k: nat)
    requires n < ByteLimit(k)
    ensures LeValue(LeBytes(n, k)) == n
  {
    if k > 0 {
      var r := LeBytes(n, k);
      LeRoundTrip(n / 0x100, k - 1);
      assert r[1..] == LeBytes(n / 0x100, k - 1);
    }
  }

  lemma {:induction false} Le16RoundTrip(n: nat)
    requires n < U16_LIMIT
    ensures ReadLe16(Le16(n)) == n
  {
    assert Le16(n)[..2] == Le16(n);
    assert ByteLimit(2) == U16_LIMIT;
    LeRoundTrip(n, 2);
  }

  lemma {:induction false} Le32RoundTrip(n: nat)
    requires n < U32_LIMIT
    ensures ReadLe32(Le32(n)) == n
  {
    assert Le32(n)[..4] == Le32(n);
    assert ByteLimit(4) == U32_LIMIT;
    LeRoundTrip(n, 4);
  }

  /** A field reads the same whatever follows it. */
  lemma {:induction false} ReadLe16Prefix(s: seq<Byte>, t: seq<Byte>)
    requires |s| >= 2
    ensures ReadLe16(s + t) == ReadLe16(s)
  {
    assert (s + t)[..2] == s[..2];
  }

  lemma {:induction false} ReadLe32Prefix(s: seq<Byte>, t: seq<Byte>)
    requires |s| >= 4
    ensures ReadLe32(s + t) == ReadLe32(s)
  {
    assert (s + t)[..4] == s[..4];
  }

  /** The concatenation of a sequence of byte strings, in order. */
  function Concat(chunks: seq<seq<Byte>>): (r: seq<Byte>)
  {
    if chunks == [] then [] else Concat(chunks[..|chunks| - 1]) + chunks[|chunks| - 1]
  }

  lemma {:induction false} ConcatAppend(chunks: seq<seq<Byte>>, more: seq<seq<Byte>>)
    ensures Concat(chunks + more) == Concat(chunks) + Concat(more)
    decreases |more|
  {
    if more == [] {
      assert chunks + more == chunks;
    } else {
      var init, last := more[..|more| - 1], more[|more| - 1];
      assert (chunks + more)[..|chunks + more| - 1] == chunks + init && (chunks + more)[|chunks + more| - 1] == last;
      ConcatAppend(chunks, init);
      AppendAssoc(Concat(chunks), Concat(init), last);
    }
  }

  /** Appending in two steps is appending once. */
  lemma {:induction false} AppendAssoc<T>(a: seq<T>, b: seq<T>, c: seq<T>)
    ensures (a + b) + c == a + (b + c)
  {
  }
}
