/**
 * The byte layout of a Kairosoft archive, as functions: what serialising
 * an ordered list of entries produces, and what parsing a buffer yields.
 *
 *   reserved:int32  dataLength:int32  fileCount:int32
 *   fileCount x (nameLength:int32, name bytes)
 *   fileCount x offset:int32      (into the data region)
 *   fileCount x size:int32
 *   fileCount x flag byte         (bit 0 = compressed)
 *   data region: per entry, size:int32 then the payload
 *
 * All integers are big-endian.
 */
module ArchiveFormat {
  import opened Wrappers
  import opened BigEndian
  import opened BinaryReaderBigEndian

  /** Entry names stay the byte strings they are stored as. */
  type Name = seq<byte>

  /** ArchiveEntry: a named payload. */
  datatype Entry = Entry(name: Name, data: seq<byte>) {
    /** ArchiveEntry.Size: the payload length. */
    function Size(): nat { |data| }
  }

  function Names(es: seq<Entry>): seq<Name>
  {
    seq(|es|, i requires 0 <= i < |es| => es[i].name)
  }

  /** The ordered dictionary's keys are unique. */
  predicate DistinctNames(es: seq<Entry>)
  {
    forall i, j :: 0 <= i < j < |es| ==> es[i].name != es[j].name
  }

  /** dataLength: the sum of size + 4 over the entries. */
  function DataLength(es: seq<Entry>): nat
  {
    if es == [] then 0 else es[0].Size() + 4 + DataLength(es[1..])
  }

  predicate NamesFit(es: seq<Entry>)
  {
    forall i :: 0 <= i < |es| ==> |es[i].name| <= MaxInt32
  }

  /** Every number the serialiser writes fits in an int32. */
  predicate Fits(es: seq<Entry>)
  {
    NamesFit(es) && |es| <= MaxInt32 && DataLength(es) <= MaxInt32
  }

  // ---- serialisation ----

  function NameRecord(e: Entry): seq<byte>
    requires |e.name| <= MaxInt32
  {
    EncodeInt32(|e.name|) + e.name
  }

  /** The name table: each name as a length-prefixed record, in order. */
  function NameTable(es: seq<Entry>): seq<byte>
    requires NamesFit(es)
  {
    if es == [] then [] else NameRecord(es[0]) + NameTable(es[1..])
  }

  /** A table of big-endian int32 words, in order. */
  function Int32Table(vs: seq<int32>): (r: seq<byte>)
    ensures |r| == 4 * |vs|
  {
    if vs == [] then [] else EncodeInt32(vs[0]) + Int32Table(vs[1..])
  }

  /** The running offsets: each entry's block starts where the previous one ended. */
  function Offsets(es: seq<Entry>, start: nat): (r: seq<int32>)
    requires start + DataLength(es) <= MaxInt32
    ensures |r| == |es|
  {
    if es == [] then [] else [start as int32] + Offsets(es[1..], start + es[0].Size() + 4)
  }

  function Sizes(es: seq<Entry>): (r: seq<int32>)
    requires DataLength(es) <= MaxInt32
    ensures |r| == |es|
  {
    if es == [] then [] else [es[0].Size() as int32] + Sizes(es[1..])
  }

  function Zeros(n: nat): seq<byte>
  {
    seq(n, _ => 0)
  }

  /** The data region: each payload prefixed by its length, in order. */
  function DataRegion(es: seq<Entry>): (r: seq<byte>)
    requires DataLength(es) <= MaxInt32
    ensures |r| == DataLength(es)
  {
    if es == [] then [] else EncodeInt32(es[0].Size()) + es[0].data + DataRegion(es[1..])
  }

  /** ToBytes before the optional cipher (KairosoftArchive.cs:87-124): the dense layout of the entries. */
  function Serialize(es: seq<Entry>): seq<byte>
    requires Fits(es)
  {
    EncodeInt32(0) + EncodeInt32(DataLength(es)) + EncodeInt32(|es|)
    + NameTable(es) + Int32Table(Offsets(es, 0)) + Int32Table(Sizes(es))
    + Zeros(|es|) + DataRegion(es)
  }

  // ---- parsing ----

  /** The four parallel tables read ahead of the data region. */
  datatype Tables = Tables(names: seq<Name>, offsets: seq<int32>, sizes: seq<int32>, flags: seq<byte>)
  {
    predicate Parallel() { |offsets| == |names| && |sizes| == |names| }
  }

  /** The remaining count names, each an int32 length and then that many bytes. */
  function ReadNames(buf: seq<byte>, pos: nat, count: nat, acc: seq<Name>): (r: Result<Read<seq<Name>>>)
    ensures r.Ok? ==> |r.value.value| == |acc| + count
    decreases count
  {
    if count == 0 then Ok(Read(acc, pos))
    else
      var len :- ReadInt32At(buf, pos);
      var name :- ReadBytesAt(buf, len.pos, len.value);
      ReadNames(buf, name.pos, count - 1, acc + [name.value])
  }

  /** The remaining count int32 words of a table. */
  function ReadInt32s(buf: seq<byte>, pos: nat, count: nat, acc: seq<int32>): (r: Result<Read<seq<int32>>>)
    ensures r.Ok? ==> |r.value.value| == |acc| + count
    decreases count
  {
    if count == 0 then Ok(Read(acc, pos))
    else
      var w :- ReadInt32At(buf, pos);
      ReadInt32s(buf, w.pos, count - 1, acc + [w.value])
  }

  /** The four tables after the header: names, offsets, sizes and one flag byte per entry. */
  function ReadTables(buf: seq<byte>, pos: nat, count: nat): (r: Result<Read<Tables>>)
    ensures r.Ok? ==> r.value.value.Parallel() && |r.value.value.names| == count
  {
    var names :- ReadNames(buf, pos, count, []);
    var offsets :- ReadInt32s(buf, names.pos, count, []);
    var sizes :- ReadInt32s(buf, offsets.pos, count, []);
    var flags :- ReadBytesAt(buf, sizes.pos, count);
    Ok(Read(Tables(names.value, offsets.value, sizes.value, flags.value), flags.pos))
  }

  /**
   * Entry i of the loop (KairosoftArchive.cs:69-74), with the stream at pos
   * (inside or past the data region): its flag, its length prefix, which
   * must equal its listed size, and its payload slice; the position is
   * where the skip at :75 moves the stream. The slice start offsets[i] + 4
   * may exceed the int32 range in the source, where it wraps to a negative
   * start; both fail as out of range.
   */
  function ReadEntry(buf: seq<byte>, region: seq<byte>, t: Tables, i: nat, pos: nat): (r: Result<Read<Entry>>)
    requires t.Parallel() && i < |t.names|
  {
    if i >= |t.flags| then Err(IndexOutOfRange)
    else if t.flags[i] & 1 != 0 then Err(CompressionNotSupported)
    else
      var len :- ReadInt32At(buf, pos);
      var fileLength := len.value;
      if fileLength != t.sizes[i] then Err(SizeMismatch)
      else
        var start := t.offsets[i] as int + 4;
        if start < 0 || fileLength < 0 || start + fileLength > |region| then Err(ArgumentOutOfRange)
        else Ok(Read(Entry(t.names[i], region[start..start + fileLength]), len.pos + fileLength))
  }

  /**
   * The entry loop (KairosoftArchive.cs:67-76) from entry i on, with acc
   * the entries already added under distinct names: each pass reads its
   * entry, adds it under a new name, then moves the stream past the
   * payload, which MemoryStream refuses beyond int.MaxValue.
   */
  function ParseEntries(buf: seq<byte>, region: seq<byte>, t: Tables, i: nat, pos: nat, acc: seq<Entry>): Result<seq<Entry>>
    requires t.Parallel() && i <= |t.names|
    decreases |t.names| - i
  {
    if i == |t.names| then Ok(acc)
    else
      var e :- ReadEntry(buf, region, t, i, pos);
      if e.value.name in Names(acc) then Err(DuplicateKey)
      else if e.pos > MaxInt32 then Err(ArgumentOutOfRange)
      else ParseEntries(buf, region, t, i + 1, e.pos, acc + [e.value])
  }

  /** The entry loop over the whole table, starting at the data region with no entries yet. */
  function EntryLoop(buf: seq<byte>, region: seq<byte>, t: Tables, start: nat): Result<seq<Entry>>
    requires t.Parallel()
  {
    ParseEntries(buf, region, t, 0, start, [])
  }

  /** The three header words: reserved (ignored), the data length and the entry count. */
  datatype Header = Header(dataLength: int32, count: int32, pos: nat)

  function ReadHeader(buf: seq<byte>): Result<Header>
  {
    var reserved :- ReadInt32At(buf, 0);
    var dataLength :- ReadInt32At(buf, reserved.pos);
    var count :- ReadInt32At(buf, dataLength.pos);
    Ok(Header(dataLength.value, count.value, count.pos))
  }

  /** The parsing constructor (KairosoftArchive.cs:34-76) on an already de-obfuscated buffer. */
  function Parse(buf: seq<byte>): Result<seq<Entry>>
  {
    var h :- ReadHeader(buf);
    ParseBody(buf, h)
  }

  /** After the header: a negative count fails, otherwise the tables and then the data region. */
  function ParseBody(buf: seq<byte>, h: Header): Result<seq<Entry>>
  {
    if h.count < 0 then Err(Overflow)
    else
      var t :- ReadTables(buf, h.pos, h.count as nat);
      ParseRegion(buf, h.dataLength, t.value, t.pos)
  }

  /**
   * The data region of dataLength bytes from start, which must lie inside
   * the buffer (KairosoftArchive.cs:63), then the entry loop.
   */
  function ParseRegion(buf: seq<byte>, dataLength: int32, t: Tables, start: nat): Result<seq<Entry>>
    requires t.Parallel()
  {
    if dataLength < 0 || start + dataLength as int > |buf| then Err(ArgumentOutOfRange)
    else EntryLoop(buf, buf[start..start + dataLength as int], t, start)
  }
}
