/**
 * The big-endian integer encoding that the archive format is built on:
 * an n-byte field holds its value most significant byte first, and the
 * signed widths use two's complement.
 */
module BigEndian {

  type byte = bv8

  type int16 = x: int | -0x8000 <= x < 0x8000
  type uint16 = x: int | 0 <= x < 0x1_0000
  type int32 = x: int | -0x8000_0000 <= x < 0x8000_0000
  type uint32 = x: int | 0 <= x < 0x1_0000_0000
  type int64 = x: int | -0x8000_0000_0000_0000 <= x < 0x8000_0000_0000_0000
  type uint64 = x: int | 0 <= x < 0x1_0000_0000_0000_0000

  /** int.MaxValue. */
  const MaxInt32: nat := 0x7FFF_FFFF

  /** The number of distinct values of an n-byte field. */
  function Pow256(n: nat): nat
  {
    if n == 0 then 1 else 256 * Pow256(n - 1)
  }

  /** Value of a byte string read most significant byte first. */
  function DecodeUnsigned(b: seq<byte>): (v: nat)
    ensures v < Pow256(|b|)
  {
    if |b| == 0 then 0
    else
      var high := DecodeUnsigned(b[..|b| - 1]);
      assert high <= Pow256(|b| - 1) - 1;
      high * 256 + b[|b| - 1] as int
  }

  /** The n bytes that hold v, most significant byte first. */
  function EncodeUnsigned(v: nat, n: nat): (b: seq<byte>)
    requires v < Pow256(n)
    ensures |b| == n
  {
    if n == 0 then []
    else EncodeUnsigned(v / 256, n - 1) + [(v % 256) as byte]
  }

  /** The sizes of the fields the extensions read and write. */
  lemma Pow256Values()
    ensures Pow256(1) == 0x100 && Pow256(2) == 0x1_0000
    ensures Pow256(3) == 0x100_0000 && Pow256(4) == 0x1_0000_0000
    ensures Pow256(7) == 0x100_0000_0000_0000 && Pow256(8) == 0x1_0000_0000_0000_0000
  {
  }

  // ---- the six integer widths of the reader and writer extensions ----

  function EncodeInt16(v: int16): (b: seq<byte>) ensures |b| == 2 { EncodeUnsigned(if v < 0 then v + 0x1_0000 else v, 2) }
  function EncodeUInt16(v: uint16): (b: seq<byte>) ensures |b| == 2 { EncodeUnsigned(v, 2) }
  function EncodeInt32(v: int32): (b: seq<byte>) ensures |b| == 4 { EncodeUnsigned(if v < 0 then v + 0x1_0000_0000 else v, 4) }
  function EncodeUInt32(v: uint32): (b: seq<byte>) ensures |b| == 4 { EncodeUnsigned(v, 4) }
  function EncodeInt64(v: int64): (b: seq<byte>) ensures |b| == 8 {
    EncodeUnsigned(if v < 0 then v + 0x1_0000_0000_0000_0000 else v, 8)
  }
  function EncodeUInt64(v: uint64): (b: seq<byte>) ensures |b| == 8 { EncodeUnsigned(v, 8) }

  function DecodeInt16(b: seq<byte>): int16
    requires |b| == 2
  {
    var u := DecodeUnsigned(b);
    if u < 0x8000 then u else u - 0x1_0000
  }

  function DecodeUInt16(b: seq<byte>): uint16 requires |b| == 2 { DecodeUnsigned(b) }

  function DecodeInt32(b: seq<byte>): int32
    requires |b| == 4
  {
    var u := DecodeUnsigned(b);
    if u < 0x8000_0000 then u else u - 0x1_0000_0000
  }

  function DecodeUInt32(b: seq<byte>): uint32 requires |b| == 4 { DecodeUnsigned(b) }

  function DecodeInt64(b: seq<byte>): int64
    requires |b| == 8
  {
    var u := DecodeUnsigned(b);
    if u < 0x8000_0000_0000_0000 then u else u - 0x1_0000_0000_0000_0000
  }

  function DecodeUInt64(b: seq<byte>): uint64 requires |b| == 8 { DecodeUnsigned(b) }

  // ---- properties of the encoding ----

  /** Decoding what was encoded gives the value back. */
  lemma {:induction false} DecodeEncodeUnsigned(v: nat, n: nat)
    requires v < Pow256(n)
    ensures DecodeUnsigned(EncodeUnsigned(v, n)) == v
  {
    if n > 0 {
      DivBound(v, Pow256(n - 1));
      var high := EncodeUnsigned(v / 256, n - 1);
      var last := (v % 256) as byte;
      var b := high + [last];
      assert b == EncodeUnsigned(v, n);
      assert b[..n - 1] == high;
      DecodeEncodeUnsigned(v / 256, n - 1);
      ByteValue(v % 256);
      assert DecodeUnsigned(b) == DecodeUnsigned(high) * 256 + last as int;
    }
  }

  lemma DivBound(v: nat, p: nat)
    requires v < 256 * p
    ensures v / 256 < p
  {
    var q := v / 256;
    assert v == 256 * q + v % 256;
  }

  lemma ByteValue(v: int)
    requires 0 <= v < 256
    ensures (v as byte) as int == v
  {
    var w := v as bv16;
    assert w < 256;
  }

  /** Every n-byte string is the encoding of its value: the encoding is a bijection. */
  lemma {:induction false} EncodeDecodeUnsigned(b: seq<byte>)
    ensures EncodeUnsigned(DecodeUnsigned(b), |b|) == b
  {
    if |b| > 0 {
      var n := |b|;
      var high := DecodeUnsigned(b[..n - 1]);
      var v := DecodeUnsigned(b);
      assert v / 256 == high && v % 256 == b[n - 1] as int;
      EncodeDecodeUnsigned(b[..n - 1]);
      assert (v % 256) as byte == b[n - 1];
      assert b == b[..n - 1] + [b[n - 1]];
    }
  }

  /** A 4-byte field read as b0<<24 | b1<<16 | b2<<8 | b3. */
  lemma DecodeUnsignedOf4(b: seq<byte>)
    requires |b| == 4
    ensures DecodeUnsigned(b) == b[0] as int * 0x100_0000 + b[1] as int * 0x1_0000 + b[2] as int * 0x100 + b[3] as int
  {
    assert b[..3][..2] == b[..2] && b[..2][..1] == b[..1] && b[..1][..0] == [];
    assert DecodeUnsigned(b[..1]) == b[0] as int;
    assert DecodeUnsigned(b[..2]) == b[0] as int * 0x100 + b[1] as int;
    assert DecodeUnsigned(b[..3]) == (b[0] as int * 0x100 + b[1] as int) * 0x100 + b[2] as int;
  }

  /** The same, read as two's complement: the top bit of b0 is the sign. */
  lemma DecodeInt32Of(b: seq<byte>)
    requires |b| == 4
    ensures var u := b[0] as int * 0x100_0000 + b[1] as int * 0x1_0000 + b[2] as int * 0x100 + b[3] as int;
            DecodeInt32(b) == if b[0] < 0x80 then u else u - 0x1_0000_0000
  {
    DecodeUnsignedOf4(b);
  }

  lemma Int16RoundTrip(v: int16)
    ensures DecodeInt16(EncodeInt16(v)) == v
  {
    Pow256Values();
    DecodeEncodeUnsigned(if v < 0 then v + 0x1_0000 else v, 2);
  }

  lemma UInt16RoundTrip(v: uint16)
    ensures DecodeUInt16(EncodeUInt16(v)) == v
  {
    Pow256Values();
    DecodeEncodeUnsigned(v, 2);
  }

  lemma Int32RoundTrip(v: int32)
    ensures DecodeInt32(EncodeInt32(v)) == v
  {
    Pow256Values();
    DecodeEncodeUnsigned(if v < 0 then v + 0x1_0000_0000 else v, 4);
  }

  lemma UInt32RoundTrip(v: uint32)
    ensures DecodeUInt32(EncodeUInt32(v)) == v
  {
    Pow256Values();
    DecodeEncodeUnsigned(v, 4);
  }

  lemma Int64RoundTrip(v: int64)
    ensures DecodeInt64(EncodeInt64(v)) == v
  {
    Pow256Values();
    DecodeEncodeUnsigned(if v < 0 then v + 0x1_0000_0000_0000_0000 else v, 8);
  }

  lemma UInt64RoundTrip(v: uint64)
    ensures DecodeUInt64(EncodeUInt64(v)) == v
  {
    Pow256Values();
    DecodeEncodeUnsigned(v, 8);
  }
}
