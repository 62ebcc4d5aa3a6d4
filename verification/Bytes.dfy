/** Bytes and their big-endian readings. */
module Bytes {

  type Byte = x: int | 0 <= x < 256

  /** The number a byte string spells, most significant byte first. */
  function BE(s: seq<Byte>): nat {
    if s == [] then 0 else BE(s[..|s| - 1]) * 256 + s[|s| - 1]
  }

  function U16(v: int): seq<Byte>
    requires 0 <= v < 0x1_0000
  {
    [v / 256, v % 256]
  }

  function U32(v: int): seq<Byte>
    requires 0 <= v < 0x1_0000_0000
  {
    var v1 := v / 256;
    var v2 := v1 / 256;
    [v2 / 256, v2 % 256, v1 % 256, v % 256]
  }

  lemma BE2(a: Byte, b: Byte)
    ensures BE([a, b]) == a * 256 + b
  {
    assert [a][..0] == [] && BE([a]) == a;
    assert [a, b][..1] == [a];
  }

  lemma BE4(a: Byte, b: Byte, c: Byte, d: Byte)
    ensures BE([a, b, c, d]) == ((a * 256 + b) * 256 + c) * 256 + d
  {
    assert [a, b, c, d][..3] == [a, b, c] && [a, b, c][..2] == [a, b];
    BE2(a, b);
  }

  lemma U16Reads(v: int)
    requires 0 <= v < 0x1_0000
    ensures BE(U16(v)) == v
  {
    BE2(v / 256, v % 256);
  }

  lemma U32Reads(v: int)
    requires 0 <= v < 0x1_0000_0000
    ensures BE(U32(v)) == v
  {
    var v1 := v / 256;
    var v2 := v1 / 256;
    BE4(v2 / 256, v2 % 256, v1 % 256, v % 256);
  }

  /** binary.BigEndian.PutUint16 and PutUint32, and copy: they write a run of bytes at an offset. */
  method Put(a: array<Byte>, at: nat, bytes: seq<Byte>)
    requires at + |bytes| <= a.Length
    modifies a
    ensures forall k :: at <= k < at + |bytes| ==> a[k] == bytes[k - at]
    ensures forall k :: (0 <= k < at || at + |bytes| <= k < a.Length) ==> a[k] == old(a[k])
  {
    for i := 0 to |bytes|
      invariant forall k :: at <= k < at + i ==> a[k] == bytes[k - at]
      invariant forall k :: (0 <= k < at || at + i <= k < a.Length) ==> a[k] == old(a[k])
    {
      a[at + i] := bytes[i];
    }
  }
}
