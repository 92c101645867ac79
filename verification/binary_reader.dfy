/**
 * Big-endian reads from an in-memory stream: a byte buffer that never
 * changes plus a position. Each read decodes n bytes most significant
 * first at the position and advances it by n; a read with fewer than n
 * bytes left fails instead of returning a partial value.
 */
module BinaryReaderBigEndian {
  import opened Wrappers
  import opened BigEndian

  /** A value read from a buffer and the position just after it. */
  datatype Read<T> = Read(value: T, pos: nat)

  /**
   * Where a failed exact read leaves the stream: the fallback path reads
   * whatever is left before it gives up, so the position ends at the end
   * of the buffer (or stays put when it is already past it).
   */
  function PosAfterShortRead(buf: seq<byte>, pos: nat): (p: nat)
    ensures p >= pos && p >= |buf|
    ensures pos <= |buf| ==> p == |buf|
    ensures pos >= |buf| ==> p == pos
  {
    if pos < |buf| then |buf| else pos
  }

  /** The 4-byte big-endian signed read at a position, as a function of the buffer. */
  function ReadInt32At(buf: seq<byte>, pos: nat): Result<Read<int32>>
  {
    if pos + 4 <= |buf| then Ok(Read(DecodeInt32(buf[pos..pos + 4]), pos + 4)) else Err(EndOfStream)
  }

  /**
   * BinaryReader.ReadBytes: up to count bytes, fewer when the stream ends
   * first; a negative count is refused.
   */
  function ReadBytesAt(buf: seq<byte>, pos: nat, count: int): Result<Read<seq<byte>>>
  {
    if count < 0 then Err(ArgumentOutOfRange)
    else if |buf| <= pos then Ok(Read([], pos))
    else
      var end := if pos + count <= |buf| then pos + count else |buf|;
      Ok(Read(buf[pos..end], end))
  }

  /** The bytes x occur in buf at position pos. */
  predicate At(buf: seq<byte>, pos: nat, x: seq<byte>)
  {
    pos + |x| <= |buf| && buf[pos..pos + |x|] == x
  }

  /** Whatever occurs at a position, its two halves occur one after the other there. */
  lemma AtConcat(buf: seq<byte>, pos: nat, x: seq<byte>, y: seq<byte>)
    requires At(buf, pos, x + y)
    ensures At(buf, pos, x) && At(buf, pos + |x|, y)
  {
    var w := buf[pos..pos + |x| + |y|];
    assert buf[pos..pos + |x|] == w[..|x|];
    assert buf[pos + |x|..pos + |x| + |y|] == w[|x|..];
  }

  lemma AtWhole(buf: seq<byte>)
    ensures At(buf, 0, buf)
  {
  }

  /** The second half of a concatenation sits right after the first. */
  lemma AtSuffix(a: seq<byte>, b: seq<byte>)
    ensures At(a + b, |a|, b)
  {
    assert (a + b)[|a|..|a| + |b|] == b;
  }

  /** What occurs in a buffer still occurs there once more bytes are appended. */
  lemma AtExtend(a: seq<byte>, pos: nat, x: seq<byte>, b: seq<byte>)
    requires At(a, pos, x)
    ensures At(a + b, pos, x)
  {
    assert (a + b)[pos..pos + |x|] == a[pos..pos + |x|];
  }

  /** Bytes written into a buffer at a position are read back from it. */
  lemma ReadInt32Written(buf: seq<byte>, pos: nat, v: int32)
    requires At(buf, pos, EncodeInt32(v))
    ensures ReadInt32At(buf, pos) == Ok(Read(v, pos + 4))
  {
    Int32RoundTrip(v);
  }

  /** Bytes laid down in a buffer at a position are what ReadBytes returns there. */
  lemma ReadBytesWritten(buf: seq<byte>, pos: nat, b: seq<byte>)
    requires At(buf, pos, b)
    ensures ReadBytesAt(buf, pos, |b|) == Ok(Read(b, pos + |b|))
  {
  }

  /** A read with fewer bytes left than asked for fails. */
  lemma ReadInt32ShortFails(buf: seq<byte>, pos: nat)
    requires |buf| < pos + 4
    ensures ReadInt32At(buf, pos) == Err(EndOfStream)
  {
  }

  /** A MemoryStream over a fixed buffer, read through BinaryReader. */
  class Reader {
    const buf: seq<byte>
    var pos: nat

    constructor (buf: seq<byte>)
      ensures this.buf == buf && pos == 0
    {
      this.buf := buf;
      pos := 0;
    }

    /** Exactly n bytes at the position, then the position moves past them. */
    method ReadSpan(n: nat) returns (r: Result<seq<byte>>)
      modifies this
      ensures r.Ok? <==> old(pos) + n <= |buf|
      ensures r.Ok? ==> r.value == buf[old(pos)..old(pos) + n] && pos == old(pos) + n
      ensures r.Err? ==> r.error == EndOfStream && pos == PosAfterShortRead(buf, old(pos))
    {
      if pos + n <= |buf| {
        r := Ok(buf[pos..pos + n]);
        pos := pos + n;
      } else {
        r := Err(EndOfStream);
        pos := PosAfterShortRead(buf, pos);
      }
    }

    method ReadInt16BigEndian() returns (r: Result<int16>)
      modifies this
      ensures r.Ok? <==> old(pos) + 2 <= |buf|
      ensures r.Ok? ==> r.value == DecodeInt16(buf[old(pos)..old(pos) + 2]) && pos == old(pos) + 2
      ensures r.Err? ==> r.error == EndOfStream && pos == PosAfterShortRead(buf, old(pos))
    {
      var s := ReadSpan(2);
      r := if s.Ok? then Ok(DecodeInt16(s.value)) else Err(s.error);
    }

    method ReadUInt16BigEndian() returns (r: Result<uint16>)
      modifies this
      ensures r.Ok? <==> old(pos) + 2 <= |buf|
      ensures r.Ok? ==> r.value == DecodeUInt16(buf[old(pos)..old(pos) + 2]) && pos == old(pos) + 2
      ensures r.Err? ==> r.error == EndOfStream && pos == PosAfterShortRead(buf, old(pos))
    {
      var s := ReadSpan(2);
      r := if s.Ok? then Ok(DecodeUInt16(s.value)) else Err(s.error);
    }

    method ReadInt32BigEndian() returns (r: Result<int32>)
      modifies this
      ensures r.Ok? <==> old(pos) + 4 <= |buf|
      ensures r.Ok? ==> r.value == DecodeInt32(buf[old(pos)..old(pos) + 4]) && pos == old(pos) + 4
      ensures r.Err? ==> r.error == EndOfStream && pos == PosAfterShortRead(buf, old(pos))
    {
      var s := ReadSpan(4);
      r := if s.Ok? then Ok(DecodeInt32(s.value)) else Err(s.error);
    }

    method ReadUInt32BigEndian() returns (r: Result<uint32>)
      modifies this
      ensures r.Ok? <==> old(pos) + 4 <= |buf|
      ensures r.Ok? ==> r.value == DecodeUInt32(buf[old(pos)..old(pos) + 4]) && pos == old(pos) + 4
      ensures r.Err? ==> r.error == EndOfStream && pos == PosAfterShortRead(buf, old(pos))
    {
      var s := ReadSpan(4);
      r := if s.Ok? then Ok(DecodeUInt32(s.value)) else Err(s.error);
    }

    method ReadInt64BigEndian() returns (r: Result<int64>)
      modifies this
      ensures r.Ok? <==> old(pos) + 8 <= |buf|
      ensures r.Ok? ==> r.value == DecodeInt64(buf[old(pos)..old(pos) + 8]) && pos == old(pos) + 8
      ensures r.Err? ==> r.error == EndOfStream && pos == PosAfterShortRead(buf, old(pos))
    {
      var s := ReadSpan(8);
      r := if s.Ok? then Ok(DecodeInt64(s.value)) else Err(s.error);
    }

    method ReadUInt64BigEndian() returns (r: Result<uint64>)
      modifies this
      ensures r.Ok? <==> old(pos) + 8 <= |buf|
      ensures r.Ok? ==> r.value == DecodeUInt64(buf[old(pos)..old(pos) + 8]) && pos == old(pos) + 8
      ensures r.Err? ==> r.error == EndOfStream && pos == PosAfterShortRead(buf, old(pos))
    {
      var s := ReadSpan(8);
      r := if s.Ok? then Ok(DecodeUInt64(s.value)) else Err(s.error);
    }

    /** BinaryReader.ReadBytes: as ReadBytesAt says, from the current position. */
    method ReadBytes(count: int) returns (r: Result<seq<byte>>)
      modifies this
      ensures var expected := ReadBytesAt(buf, old(pos), count);
              (r.Ok? <==> expected.Ok?) &&
              (r.Ok? ==> r.value == expected.value.value && pos == expected.value.pos) &&
              (r.Err? ==> r.error == expected.error && pos == old(pos))
    {
      if count < 0 {
        r := Err(ArgumentOutOfRange);
      } else if |buf| <= pos {
        r := Ok([]);
      } else {
        var end := if pos + count <= |buf| then pos + count else |buf|;
        r := Ok(buf[pos..end]);
        pos := end;
      }
    }

    /**
     * Stream.Position += n for a non-negative n: the position may pass the
     * end of the buffer, but MemoryStream refuses one past int.MaxValue.
     */
    method Skip(n: nat) returns (r: Result<()>)
      modifies this
      ensures r.Ok? <==> old(pos) + n <= MaxInt32
      ensures r.Ok? ==> pos == old(pos) + n
      ensures r.Err? ==> r.error == ArgumentOutOfRange && pos == old(pos)
    {
      if pos + n > MaxInt32 {
        return Err(ArgumentOutOfRange);
      }
      pos := pos + n;
      r := Ok(());
    }
  }
}
