/** Bytes and big-endian numbers, as they appear in the ring buffer, the frame header and the value codec. */
module Bytes {

  type byte = x: int | 0 <= x < 256

  /** The number of values that fit in `n` bytes. */
  function Pow256(n: nat): (p: nat)
    ensures p > 0
  {
    if n == 0 then 1 else 256 * Pow256(n - 1)
  }

  /** The unsigned integers of the source: one, two, four and eight bytes wide. */
  const U16 := 0x1_0000
  const U32 := 0x1_0000_0000
  const U64 := 0x1_0000_0000_0000_0000

  type uint16 = x: int | 0 <= x < U16
  type uint32 = x: int | 0 <= x < U32
  type uint64 = x: int | 0 <= x < U64

  /** The bytes of `v`, most significant first. */
  function BigEndian(width: nat, v: nat): (s: seq<byte>)
    requires v < Pow256(width)
    ensures |s| == width
  {
    if width == 0 then [] else BigEndian(width - 1, v / 256) + [v % 256]
  }

  function FromBigEndian(s: seq<byte>): (v: nat)
    ensures v < Pow256(|s|)
  {
    if s == [] then 0 else 256 * FromBigEndian(s[..|s| - 1]) + s[|s| - 1]
  }

  /** Reading what was written gives the number back. */
  lemma {:induction false} FromToBigEndian(width: nat, v: nat)
    requires v < Pow256(width)
    ensures FromBigEndian(BigEndian(width, v)) == v
  {
    if width == 0 {
    } else {
      var s := BigEndian(width, v);
      assert s[..|s| - 1] == BigEndian(width - 1, v / 256);
      FromToBigEndian(width - 1, v / 256);
    }
  }

  /** Every byte string is the big-endian form of the number it is read as. */
  lemma {:induction false} ToFromBigEndian(s: seq<byte>)
    ensures BigEndian(|s|, FromBigEndian(s)) == s
  {
    if s == [] {
    } else {
      var v, init, last := FromBigEndian(s), s[..|s| - 1], s[|s| - 1];
      ToFromBigEndian(init);
      assert v / 256 == FromBigEndian(init) && v % 256 == last;
      assert s == init + [last];
    }
  }

  lemma Widths()
    ensures Pow256(1) == 256 && Pow256(2) == U16 && Pow256(4) == U32 && Pow256(8) == U64
  {
    assert Pow256(2) == 256 * Pow256(1);
    assert Pow256(3) == 256 * Pow256(2);
    assert Pow256(4) == 256 * Pow256(3);
    assert Pow256(5) == 256 * Pow256(4);
    assert Pow256(6) == 256 * Pow256(5);
    assert Pow256(7) == 256 * Pow256(6);
  }
}
