/**
 * The archive's own loops over a BinaryWriter and a BinaryReader: the
 * table and data loops of ToBytes and the reading loops of the parsing
 * constructor. Each method is proved to do what the layout functions of
 * ArchiveFormat say, so the properties proved about those functions hold
 * of the loops as well.
 */
module ArchiveIO {
  import opened Wrappers
  import opened BigEndian
  import opened BinaryReaderBigEndian
  import opened BinaryWriterBigEndian
  import opened ArchiveFormat
  import opened ArchiveProperties

  // ---- ToBytes ----

  /** The name loop: each name's byte length, then its bytes. */
  method WriteNames(w: Writer, es: seq<Entry>)
    requires NamesFit(es)
    modifies w
    ensures w.bytes == old(w.bytes) + NameTable(es)
  {
    var i := 0;
    while i < |es|
      invariant 0 <= i <= |es| && NamesFit(es[..i])
      invariant w.bytes == old(w.bytes) + NameTable(es[..i])
    {
      var nameBytes := es[i].name;
      NameTableSnoc(es, i);
      w.WriteInt32BigEndian(|nameBytes|);
      w.Write(nameBytes);
      Assoc4(old(w.bytes), NameTable(es[..i]), EncodeInt32(|nameBytes|), nameBytes);
      i := i + 1;
    }
    assert es[..i] == es;
  }

  /** The offset loop: a running offset that starts at 0 and grows by size + 4 per entry. */
  method WriteOffsets(w: Writer, es: seq<Entry>)
    requires DataLength(es) <= MaxInt32
    modifies w
    ensures w.bytes == old(w.bytes) + Int32Table(Offsets(es, 0))
  {
    var offsets := Offsets(es, 0);
    var offset := 0;
    var i := 0;
    while i < |es|
      invariant 0 <= i <= |es| && offset == DataLength(es[..i])
      invariant w.bytes == old(w.bytes) + Int32Table(offsets[..i])
    {
      DataLengthPrefix(es, i);
      OffsetsAt(es, 0, i);
      Int32TableSnoc(offsets, i);
      w.WriteInt32BigEndian(offset);
      Assoc3(old(w.bytes), Int32Table(offsets[..i]), EncodeInt32(offset));
      DataLengthSnoc(es, i);
      offset := offset + es[i].Size() + 4;
      i := i + 1;
    }
    assert offsets[..i] == offsets;
  }

  /** The size loop: each payload's length. */
  method WriteSizes(w: Writer, es: seq<Entry>)
    requires DataLength(es) <= MaxInt32
    modifies w
    ensures w.bytes == old(w.bytes) + Int32Table(Sizes(es))
  {
    var sizes := Sizes(es);
    var i := 0;
    while i < |es|
      invariant 0 <= i <= |es|
      invariant w.bytes == old(w.bytes) + Int32Table(sizes[..i])
    {
      SizesAt(es, i);
      Int32TableSnoc(sizes, i);
      w.WriteInt32BigEndian(es[i].Size());
      Assoc3(old(w.bytes), Int32Table(sizes[..i]), EncodeInt32(es[i].Size()));
      i := i + 1;
    }
    assert sizes[..i] == sizes;
  }

  /** The data loop: each payload's length again, then the payload. */
  method WriteData(w: Writer, es: seq<Entry>)
    requires DataLength(es) <= MaxInt32
    modifies w
    ensures w.bytes == old(w.bytes) + DataRegion(es)
  {
    var i := 0;
    while i < |es|
      invariant 0 <= i <= |es| && DataLength(es[..i]) <= DataLength(es)
      invariant w.bytes == old(w.bytes) + DataRegion(es[..i])
    {
      DataRegionSnoc(es, i);
      w.WriteInt32BigEndian(es[i].Size());
      w.Write(es[i].data);
      Assoc4(old(w.bytes), DataRegion(es[..i]), EncodeInt32(es[i].Size()), es[i].data);
      i := i + 1;
    }
    assert es[..i] == es;
  }

  /** The header words: reserved 0, the data length and the entry count. */
  method WriteHeader(w: Writer, es: seq<Entry>)
    requires Fits(es)
    modifies w
    ensures w.bytes == old(w.bytes) + EncodeInt32(0) + EncodeInt32(DataLength(es)) + EncodeInt32(|es|)
  {
    w.WriteInt32BigEndian(0);
    w.WriteInt32BigEndian(DataLength(es));
    w.WriteInt32BigEndian(|es|);
  }

  /** The four tables: names, offsets, sizes and a zeroed flag byte per entry. */
  method WriteTables(w: Writer, es: seq<Entry>)
    requires Fits(es)
    modifies w
    ensures w.bytes == old(w.bytes) + NameTable(es) + Int32Table(Offsets(es, 0)) + Int32Table(Sizes(es)) + Zeros(|es|)
  {
    WriteNames(w, es);
    WriteOffsets(w, es);
    WriteSizes(w, es);
    var flags := new byte[|es|](_ => 0);
    assert flags[..] == Zeros(|es|);
    w.Write(flags[..]);
  }

  /** ToBytes up to the cipher: the header, the four tables and the data region, through one writer. */
  method WriteArchive(es: seq<Entry>) returns (bytes: seq<byte>)
    requires Fits(es)
    ensures bytes == Serialize(es)
  {
    var w := new Writer();
    WriteHeader(w, es);
    assert w.bytes == EncodeInt32(0) + EncodeInt32(DataLength(es)) + EncodeInt32(|es|);
    WriteTables(w, es);
    WriteData(w, es);
    bytes := w.bytes;
  }

  // ---- the parsing constructor ----

  /** The three header words, read from the start of the stream. */
  method ReadHeaderFrom(rdr: Reader) returns (r: Result<Header>)
    requires rdr.pos == 0
    modifies rdr
    ensures r == ReadHeader(rdr.buf)
    ensures r.Ok? ==> rdr.pos == r.value.pos
  {
    var reserved :- rdr.ReadInt32BigEndian();
    var dataLength :- rdr.ReadInt32BigEndian();
    var count :- rdr.ReadInt32BigEndian();
    r := Ok(Header(dataLength, count, rdr.pos));
  }

  /** A reader result agrees with a read spec: the same value and the same position, or the same error. */
  predicate Agrees<T(==)>(r: Result<T>, pos: nat, spec: Result<Read<T>>)
  {
    match spec
    case Ok(read) => r == Ok(read.value) && pos == read.pos
    case Err(e) => r == Err(e)
  }

  /** The name loop: filesLength names, each an int32 length and then ReadBytes of that length. */
  method ReadNameTable(rdr: Reader, count: nat) returns (r: Result<seq<Name>>)
    modifies rdr
    ensures Agrees(r, rdr.pos, ReadNames(rdr.buf, old(rdr.pos), count, []))
  {
    var names := new Name[count](_ => []);
    var i := 0;
    while i < count
      invariant 0 <= i <= count
      invariant ReadNames(rdr.buf, old(rdr.pos), count, []) == ReadNames(rdr.buf, rdr.pos, count - i, names[..i])
    {
      var strLength :- rdr.ReadInt32BigEndian();
      var name :- rdr.ReadBytes(strLength);
      ghost var before := names[..i];
      names[i] := name;
      assert names[..i + 1] == before + [name];
      i := i + 1;
    }
    assert names[..i] == names[..];
    r := Ok(names[..]);
  }

  /** An int32 table loop: count words in order. */
  method ReadInt32Table(rdr: Reader, count: nat) returns (r: Result<seq<int32>>)
    modifies rdr
    ensures Agrees(r, rdr.pos, ReadInt32s(rdr.buf, old(rdr.pos), count, []))
  {
    var words := new int32[count](_ => 0);
    var i := 0;
    while i < count
      invariant 0 <= i <= count
      invariant ReadInt32s(rdr.buf, old(rdr.pos), count, []) == ReadInt32s(rdr.buf, rdr.pos, count - i, words[..i])
    {
      var word :- rdr.ReadInt32BigEndian();
      ghost var before := words[..i];
      words[i] := word;
      assert words[..i + 1] == before + [word];
      i := i + 1;
    }
    assert words[..i] == words[..];
    r := Ok(words[..]);
  }

  /** The four tables after the header. */
  method ReadTablesFrom(rdr: Reader, count: nat) returns (r: Result<Tables>)
    modifies rdr
    ensures Agrees(r, rdr.pos, ReadTables(rdr.buf, old(rdr.pos), count))
  {
    var names :- ReadNameTable(rdr, count);
    var offsets :- ReadInt32Table(rdr, count);
    var sizes :- ReadInt32Table(rdr, count);
    var flags :- rdr.ReadBytes(count);
    r := Ok(Tables(names, offsets, sizes, flags));
  }

  /**
   * One pass of the entry loop up to the dictionary add: the flag check,
   * the length prefix read at the stream position, and the payload sliced
   * from the data region at the entry's offset. The stream is left after
   * the length prefix, the payload's length short of where ReadEntry says
   * the pass moves it.
   */
  method ReadEntryFrom(rdr: Reader, region: seq<byte>, t: Tables, i: nat) returns (r: Result<Entry>)
    requires t.Parallel() && i < |t.names|
    modifies rdr
    ensures var spec := ReadEntry(rdr.buf, region, t, i, old(rdr.pos));
            (r.Ok? <==> spec.Ok?) &&
            (r.Ok? ==> r.value == spec.value.value && rdr.pos + |r.value.data| == spec.value.pos) &&
            (r.Err? ==> r.error == spec.error)
  {
    if i >= |t.flags| {
      return Err(IndexOutOfRange);
    }
    if t.flags[i] & 1 != 0 {
      return Err(CompressionNotSupported);
    }
    var fileLength :- rdr.ReadInt32BigEndian();
    if fileLength != t.sizes[i] {
      return Err(SizeMismatch);
    }
    var start := t.offsets[i] as int + 4;
    if start < 0 || fileLength < 0 || start + fileLength > |region| {
      return Err(ArgumentOutOfRange);
    }
    r := Ok(Entry(t.names[i], region[start..start + fileLength]));
  }

  /**
   * The entry loop: each entry read in turn, added under its name, which
   * must not be present yet, and then skipped past.
   */
  method ReadEntries(rdr: Reader, region: seq<byte>, t: Tables) returns (r: Result<seq<Entry>>)
    requires t.Parallel()
    modifies rdr
    ensures r == EntryLoop(rdr.buf, region, t, old(rdr.pos))
  {
    var files: seq<Entry> := [];
    var i := 0;
    while i < |t.names|
      invariant 0 <= i <= |t.names|
      invariant EntryLoop(rdr.buf, region, t, old(rdr.pos)) == ParseEntries(rdr.buf, region, t, i, rdr.pos, files)
    {
      var entry :- ReadEntryFrom(rdr, region, t, i);
      if entry.name in Names(files) {
        return Err(DuplicateKey);
      }
      files := files + [entry];
      var skipped :- rdr.Skip(|entry.data|);
      i := i + 1;
    }
    r := Ok(files);
  }

  /** The data region span of dataLength bytes at the stream position, then the entry loop. */
  method ReadRegion(rdr: Reader, dataLength: int32, t: Tables) returns (r: Result<seq<Entry>>)
    requires t.Parallel()
    modifies rdr
    ensures r == ParseRegion(rdr.buf, dataLength, t, old(rdr.pos))
  {
    var start := rdr.pos;
    if dataLength < 0 || start + dataLength as int > |rdr.buf| {
      return Err(ArgumentOutOfRange);
    }
    var region := rdr.buf[start..start + dataLength as int];
    r := ReadEntries(rdr, region, t);
  }

  /** Everything after the header: the table arrays (a negative count cannot be allocated), then the region. */
  method ReadBody(rdr: Reader, h: Header) returns (r: Result<seq<Entry>>)
    requires rdr.pos == h.pos
    modifies rdr
    ensures r == ParseBody(rdr.buf, h)
  {
    if h.count < 0 {
      return Err(Overflow);
    }
    var t :- ReadTablesFrom(rdr, h.count as nat);
    r := ReadRegion(rdr, h.dataLength, t);
  }

  /** The parsing constructor after the cipher: the header, then the rest. */
  method ParseBuffer(buf: seq<byte>) returns (r: Result<seq<Entry>>)
    ensures r == Parse(buf)
  {
    var rdr := new Reader(buf);
    var h :- ReadHeaderFrom(rdr);
    r := ReadBody(rdr, h);
  }
}
