/**
 * Big-endian writes to an in-memory stream that only grows: each overload
 * encodes its value into a buffer of the width's size, most significant
 * byte first, and appends that buffer, advancing the position by its size.
 */
module BinaryWriterBigEndian {
  import opened Wrappers
  import opened BigEndian
  import opened BinaryReaderBigEndian

  /** A BinaryWriter over a MemoryStream; the position is always the end. */
  class Writer {
    var bytes: seq<byte>

    constructor ()
      ensures bytes == []
    {
      bytes := [];
    }

    /** BinaryWriter.Write(byte[]): append the bytes as they are. */
    method Write(b: seq<byte>)
      modifies this
      ensures bytes == old(bytes) + b
    {
      bytes := bytes + b;
    }

    method WriteInt16BigEndian(v: int16)
      modifies this
      ensures |bytes| == old(|bytes|) + 2 && bytes == old(bytes) + EncodeInt16(v)
    {
      var buffer := EncodeInt16(v);
      Write(buffer);
    }

    method WriteUInt16BigEndian(v: uint16)
      modifies this
      ensures |bytes| == old(|bytes|) + 2 && bytes == old(bytes) + EncodeUInt16(v)
    {
      var buffer := EncodeUInt16(v);
      Write(buffer);
    }

    method WriteInt32BigEndian(v: int32)
      modifies this
      ensures |bytes| == old(|bytes|) + 4 && bytes == old(bytes) + EncodeInt32(v)
    {
      var buffer := EncodeInt32(v);
      Write(buffer);
    }

    method WriteUInt32BigEndian(v: uint32)
      modifies this
      ensures |bytes| == old(|bytes|) + 4 && bytes == old(bytes) + EncodeUInt32(v)
    {
      var buffer := EncodeUInt32(v);
      Write(buffer);
    }

    method WriteInt64BigEndian(v: int64)
      modifies this
      ensures |bytes| == old(|bytes|) + 8 && bytes == old(bytes) + EncodeInt64(v)
    {
      var buffer := EncodeInt64(v);
      Write(buffer);
    }

    method WriteUInt64BigEndian(v: uint64)
      modifies this
      ensures |bytes| == old(|bytes|) + 8 && bytes == old(bytes) + EncodeUInt64(v)
    {
      var buffer := EncodeUInt64(v);
      Write(buffer);
    }
  }

  /** The signed and unsigned 32-bit overloads emit the same bytes for one bit pattern. */
  lemma Int32UInt32SameBytes(v: int32)
    ensures EncodeInt32(v) == EncodeUInt32(if v < 0 then v + 0x1_0000_0000 else v)
  {
  }

  lemma Int16UInt16SameBytes(v: int16)
    ensures EncodeInt16(v) == EncodeUInt16(if v < 0 then v + 0x1_0000 else v)
  {
  }

  lemma Int64UInt64SameBytes(v: int64)
    ensures EncodeInt64(v) == EncodeUInt64(if v < 0 then v + 0x1_0000_0000_0000_0000 else v)
  {
  }

  /**
   * A signed and an unsigned value of each width, written by the writer and
   * read back by the reader from the start of the written bytes, come back
   * in order, and exactly the written bytes are consumed.
   */
  method WriteThenRead16(a: int16, b: uint16) returns (ra: Result<int16>, rb: Result<uint16>, consumed: nat)
    ensures ra == Ok(a) && rb == Ok(b) && consumed == 4
  {
    var w := new Writer();
    w.WriteInt16BigEndian(a);
    w.WriteUInt16BigEndian(b);
    var s := w.bytes;
    Int16RoundTrip(a);
    UInt16RoundTrip(b);
    var rdr := new Reader(s);
    assert s[0..2] == EncodeInt16(a);
    ra := rdr.ReadInt16BigEndian();
    assert s[2..4] == EncodeUInt16(b);
    rb := rdr.ReadUInt16BigEndian();
    consumed := rdr.pos;
  }

  method WriteThenRead32(a: int32, b: uint32) returns (ra: Result<int32>, rb: Result<uint32>, consumed: nat)
    ensures ra == Ok(a) && rb == Ok(b) && consumed == 8
  {
    var w := new Writer();
    w.WriteInt32BigEndian(a);
    w.WriteUInt32BigEndian(b);
    var s := w.bytes;
    Int32RoundTrip(a);
    UInt32RoundTrip(b);
    var rdr := new Reader(s);
    assert s[0..4] == EncodeInt32(a);
    ra := rdr.ReadInt32BigEndian();
    assert s[4..8] == EncodeUInt32(b);
    rb := rdr.ReadUInt32BigEndian();
    consumed := rdr.pos;
  }

  method WriteThenRead64(a: int64, b: uint64) returns (ra: Result<int64>, rb: Result<uint64>, consumed: nat)
    ensures ra == Ok(a) && rb == Ok(b) && consumed == 16
  {
    var w := new Writer();
    w.WriteInt64BigEndian(a);
    w.WriteUInt64BigEndian(b);
    var s := w.bytes;
    Int64RoundTrip(a);
    UInt64RoundTrip(b);
    var rdr := new Reader(s);
    assert s[0..8] == EncodeInt64(a);
    ra := rdr.ReadInt64BigEndian();
    assert s[8..16] == EncodeUInt64(b);
    rb := rdr.ReadUInt64BigEndian();
    consumed := rdr.pos;
  }
}
