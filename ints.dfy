/** Fixed-width unsigned integers and the little-endian byte codec used to
    read the fields of a page.

    The Go code reads every header and element field through a pointer cast,
    so the byte order is the host's. This model fixes it to little-endian
    and states it here once. */
module Ints {

  type Byte = x: int | 0 <= x < 0x100
  type U16 = x: int | 0 <= x < 0x1_0000
  type U32 = x: int | 0 <= x < 0x1_0000_0000
  type U64 = x: int | 0 <= x < 0x1_0000_0000_0000_0000

  /** 256 to the power n: the number of values an n-byte field can hold. */
  function Pow256(n: nat): (r: nat)
    ensures r > 0
  {
    if n == 0 then 1 else 256 * Pow256(n - 1)
  }

  lemma Pow256Widths()
    ensures Pow256(2) == 0x1_0000
    ensures Pow256(4) == 0x1_0000_0000
    ensures Pow256(8) == 0x1_0000_0000_0000_0000
  {
  }

  /** The unsigned value of a little-endian byte string. */
  function DecodeLE(s: seq<Byte>): (v: nat)
    ensures v < Pow256(|s|)
  {
    if s == [] then 0 else s[0] + 256 * DecodeLE(s[1..])
  }

  /** The n-byte little-endian representation of v. */
  function EncodeLE(v: nat, n: nat): (s: seq<Byte>)
    requires v < Pow256(n)
    ensures |s| == n
  {
    if n == 0 then [] else [v % 256] + EncodeLE(v / 256, n - 1)
  }

  lemma {:induction false} DecodeEncodeLE(v: nat, n: nat)
    requires v < Pow256(n)
    ensures DecodeLE(EncodeLE(v, n)) == v
  {
    if n > 0 {
      DecodeEncodeLE(v / 256, n - 1);
      var s := EncodeLE(v, n);
      assert s[1..] == EncodeLE(v / 256, n - 1);
    }
  }

  lemma {:induction false} EncodeDecodeLE(s: seq<Byte>)
    ensures EncodeLE(DecodeLE(s), |s|) == s
  {
    if s != [] {
      var v := DecodeLE(s);
      assert v % 256 == s[0] && v / 256 == DecodeLE(s[1..]);
      EncodeDecodeLE(s[1..]);
      assert s == [s[0]] + s[1..];
    }
  }

  /** The fields of the fixed-size records, read at a byte offset. */
  function U16At(s: seq<Byte>, off: nat): U16
    requires off + 2 <= |s|
  {
    Pow256Widths();
    DecodeLE(s[off..off + 2])
  }

  function U32At(s: seq<Byte>, off: nat): U32
    requires off + 4 <= |s|
  {
    Pow256Widths();
    DecodeLE(s[off..off + 4])
  }

  function U64At(s: seq<Byte>, off: nat): U64
    requires off + 8 <= |s|
  {
    Pow256Widths();
    DecodeLE(s[off..off + 8])
  }

  function EncodeU16(v: U16): (s: seq<Byte>)
    ensures |s| == 2 && U16At(s, 0) == v
  {
    Pow256Widths();
    DecodeEncodeLE(v, 2);
    var s := EncodeLE(v, 2);
    assert s[0..2] == s;
    s
  }

  function EncodeU32(v: U32): (s: seq<Byte>)
    ensures |s| == 4 && U32At(s, 0) == v
  {
    Pow256Widths();
    DecodeEncodeLE(v, 4);
    var s := EncodeLE(v, 4);
    assert s[0..4] == s;
    s
  }

  function EncodeU64(v: U64): (s: seq<Byte>)
    ensures |s| == 8 && U64At(s, 0) == v
  {
    Pow256Widths();
    DecodeEncodeLE(v, 8);
    var s := EncodeLE(v, 8);
    assert s[0..8] == s;
    s
  }
}
