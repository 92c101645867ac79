# Kairosoft archive, modelled in Dafny

This project models the archive container of Kaizosoft. `KairosoftArchive` holds an ordered
dictionary of named entries. Each entry is a name and a byte payload. The archive can:

- parse a byte buffer into entries, after an optional XOR key step;
- write the entries back out, with the key step last;
- look an entry up by name or by position;
- add or replace an entry by name.

All integers in the layout are big-endian. The model also covers the `BinaryReader` and
`BinaryWriter` big-endian extensions that read and write those integers.

Layout written by `ToBytes` and read by the parsing constructor:

    reserved:int32  dataLength:int32  fileCount:int32
    fileCount x (nameLength:int32, name bytes)
    fileCount x offset:int32          (into the data region)
    fileCount x size:int32
    fileCount x flag byte             (bit 0 = compressed)
    data region: per entry, size:int32 then the payload

Files, in dependency order:

- `wrappers.dfy`: `Option`, `Result` and the error kinds. Each error kind stands for one .NET exception,
  except `SizeMismatch`. It stands for the failed `Debug.Assert` at KairosoftArchive.cs:72, which in a
  debug build ends the process rather than throwing.
- `big_endian.dfy`: big-endian encoding and decoding of the six integer widths, with round trips.
- `binary_reader.dfy`: a `Reader` class over a byte buffer with a position. It has the six
  `Read…BigEndian` methods, `ReadBytes` and a position skip. It also has the reads as
  functions on a position, which the layout functions use.
- `binary_writer.dfy`: a `Writer` class whose `bytes` grow with each `Write…`.
- `cipher.dfy`: the repeating-key XOR, both as a function and as the in-place loop `CryptBytes`.
- `archive_format.dfy`: the layout as functions. `Serialize` gives the bytes of a list of
  entries. `Parse` gives what the parsing constructor yields from a buffer, or the error it throws.
- `archive_properties.dfy`: lemmas about the layout. The main ones are:
  - `Parse(Serialize(es)) == Ok(es)`;
  - on any buffer, given the header and tables it starts with: a list of entries is the parse
    exactly when every check of the parsing constructor passes for it, the limit of int.MaxValue on
    the stream position included (`ParseExactly`);
  - the rejections that follow: a compressed entry, a length word that is not the listed size,
    a slice outside the data region, a data region past the end, a repeated name, a skip past
    int.MaxValue;
  - a parsed archive can be written back by `ToBytes` and loads to the same entries again;
  - the error cases of the header.
- `archive_io.dfy`: the constructor's and `ToBytes`'s own loops over a `Reader` and a
  `Writer`. Each is proved equal to the layout functions.
- `kairosoft_archive.dfy`: the key step, the two indexers, `AddFile` and the
  `KairosoftArchive` class itself.

## Model

| member | source | states |
|---|---|---|
| BigEndian.Int16RoundTrip | BinaryWriterBigEndianExtensions.cs:9-14 | decoding the two bytes written for a short gives the short back (two's complement) |
| BigEndian.UInt16RoundTrip | BinaryWriterBigEndianExtensions.cs:16-21 | decoding the two bytes written for a ushort gives it back |
| BigEndian.Int32RoundTrip | BinaryWriterBigEndianExtensions.cs:23-28 | decoding the four bytes written for an int gives it back, negative values included |
| BigEndian.UInt32RoundTrip | BinaryWriterBigEndianExtensions.cs:30-35 | decoding the four bytes written for a uint gives it back |
| BigEndian.Int64RoundTrip | BinaryWriterBigEndianExtensions.cs:37-42 | decoding the eight bytes written for a long gives it back |
| BigEndian.UInt64RoundTrip | BinaryWriterBigEndianExtensions.cs:44-49 | decoding the eight bytes written for a ulong gives it back |
| BigEndian.DecodeEncodeUnsigned | BinaryWriterBigEndianExtensions.cs:23-28 | an n-byte big-endian encoding of any value below 256^n decodes back to that value |
| BigEndian.EncodeDecodeUnsigned | BinaryReaderBigEndianExtensions.cs:15-16 | re-encoding a decoded byte string gives the same bytes: the encoding is onto |
| BigEndian.DecodeInt32Of | BinaryReaderBigEndianExtensions.cs:15-16 | an int read is the first byte as the most significant, and is negative when the top bit is set |
| BinaryWriterBigEndian.Int32UInt32SameBytes | BinaryWriterBigEndianExtensions.cs:23-35 | an int and the uint with the same bit pattern are written as the same four bytes |
| BinaryWriterBigEndian.Int16UInt16SameBytes | BinaryWriterBigEndianExtensions.cs:9-21 | a short and the ushort with the same bit pattern are written as the same two bytes |
| BinaryWriterBigEndian.Int64UInt64SameBytes | BinaryWriterBigEndianExtensions.cs:37-49 | a long and the ulong with the same bit pattern are written as the same eight bytes |
| BinaryWriterBigEndian.Writer.WriteInt16BigEndian | BinaryWriterBigEndianExtensions.cs:9-14 | the stream grows by exactly the two big-endian bytes of the value |
| BinaryWriterBigEndian.Writer.WriteUInt16BigEndian | BinaryWriterBigEndianExtensions.cs:16-21 | the stream grows by exactly the two big-endian bytes of the value |
| BinaryWriterBigEndian.Writer.WriteInt32BigEndian | BinaryWriterBigEndianExtensions.cs:23-28 | the stream grows by exactly the four big-endian bytes of the value |
| BinaryWriterBigEndian.Writer.WriteUInt32BigEndian | BinaryWriterBigEndianExtensions.cs:30-35 | the stream grows by exactly the four big-endian bytes of the value |
| BinaryWriterBigEndian.Writer.WriteInt64BigEndian | BinaryWriterBigEndianExtensions.cs:37-42 | the stream grows by exactly the eight big-endian bytes of the value |
| BinaryWriterBigEndian.Writer.WriteUInt64BigEndian | BinaryWriterBigEndianExtensions.cs:44-49 | the stream grows by exactly the eight big-endian bytes of the value |
| BinaryWriterBigEndian.Writer.Write | KairosoftArchive.cs:99 | the stream grows by exactly the given bytes |
| BinaryWriterBigEndian.WriteThenRead16 | BinaryReaderBigEndianExtensions.cs:9-13 | a short and a ushort written through a writer read back equal through a reader, consuming four bytes |
| BinaryWriterBigEndian.WriteThenRead32 | BinaryReaderBigEndianExtensions.cs:15-19 | an int and a uint written through a writer read back equal, consuming eight bytes |
| BinaryWriterBigEndian.WriteThenRead64 | BinaryReaderBigEndianExtensions.cs:21-25 | a long and a ulong written through a writer read back equal, consuming sixteen bytes |
| BinaryReaderBigEndian.Reader.ReadSpan | BinaryReaderBigEndianExtensions.cs:36-40 | succeeds exactly when n bytes remain, and returns them and advances by n; otherwise EndOfStream with the position at the end |
| BinaryReaderBigEndian.Reader.ReadInt16BigEndian | BinaryReaderBigEndianExtensions.cs:9-10 | succeeds exactly when two bytes remain; the value is their big-endian short; otherwise EndOfStream |
| BinaryReaderBigEndian.Reader.ReadUInt16BigEndian | BinaryReaderBigEndianExtensions.cs:12-13 | succeeds exactly when two bytes remain; the value is their big-endian ushort; otherwise EndOfStream |
| BinaryReaderBigEndian.Reader.ReadInt32BigEndian | BinaryReaderBigEndianExtensions.cs:15-16 | succeeds exactly when four bytes remain; the value is their big-endian int; otherwise EndOfStream |
| BinaryReaderBigEndian.Reader.ReadUInt32BigEndian | BinaryReaderBigEndianExtensions.cs:18-19 | succeeds exactly when four bytes remain; the value is their big-endian uint; otherwise EndOfStream |
| BinaryReaderBigEndian.Reader.ReadInt64BigEndian | BinaryReaderBigEndianExtensions.cs:21-22 | succeeds exactly when eight bytes remain; the value is their big-endian long; otherwise EndOfStream |
| BinaryReaderBigEndian.Reader.ReadUInt64BigEndian | BinaryReaderBigEndianExtensions.cs:24-25 | succeeds exactly when eight bytes remain; the value is their big-endian ulong; otherwise EndOfStream |
| BinaryReaderBigEndian.Reader.ReadBytes | KairosoftArchive.cs:49 | a negative count is ArgumentOutOfRange; otherwise up to count bytes from the position, fewer at the end of the buffer, with the position advanced past them |
| BinaryReaderBigEndian.Reader.Skip | KairosoftArchive.cs:75 | the position moves forward by n, which may pass the end of the buffer; a position past int.MaxValue fails with ArgumentOutOfRange and the position stays |
| BinaryReaderBigEndian.PosAfterShortRead | BinaryReaderBigEndianExtensions.cs:36-40 | after a short read the stream sits at its end, or stays where it was when already past the end |
| BinaryReaderBigEndian.ReadInt32Written | BinaryReaderBigEndianExtensions.cs:15-16 | an int whose four written bytes sit at a position is read back from there, and the position moves by four |
| BinaryReaderBigEndian.ReadBytesWritten | KairosoftArchive.cs:49 | bytes sitting at a position are read back whole by ReadBytes of their length |
| BinaryReaderBigEndian.ReadInt32ShortFails | BinaryReaderBigEndianExtensions.cs:15-16 | with fewer than four bytes left, an int read fails with EndOfStream |
| KeystreamCipher.CryptBytes | KairosoftArchive.cs:9-15 | in place, every byte i becomes itself XOR key[i mod key length], and the length is unchanged |
| KeystreamCipher.CryptInvolution | KairosoftArchive.cs:9-15 | applying the cipher twice with the same non-empty key gives back the input |
| KeystreamCipher.XorTwice | KairosoftArchive.cs:13 | XOR with the same key byte twice is the identity on a byte |
| ArchiveFormat.Int32Table | KairosoftArchive.cs:104-113 | a table of n int words is 4n bytes |
| ArchiveFormat.Offsets | KairosoftArchive.cs:102-108 | one offset per entry |
| ArchiveFormat.Sizes | KairosoftArchive.cs:110-113 | one size per entry |
| ArchiveFormat.DataRegion | KairosoftArchive.cs:88 | the data region is exactly dataLength bytes, the sum of size + 4 |
| ArchiveFormat.ReadNames | KairosoftArchive.cs:46-50 | a successful name loop yields exactly count names after those already read |
| ArchiveFormat.ReadInt32s | KairosoftArchive.cs:52-60 | a successful table loop yields exactly count words |
| ArchiveFormat.ReadTables | KairosoftArchive.cs:42-62 | successful table reads give parallel name, offset and size tables of filesLength elements each |
| ArchiveProperties.DataLengthAppend | KairosoftArchive.cs:88 | the data length of two lists of entries is the sum of their data lengths |
| ArchiveProperties.DataRegionAppend | KairosoftArchive.cs:118-122 | the data region of two lists of entries is one region followed by the other |
| ArchiveProperties.NameTableAppend | KairosoftArchive.cs:95-100 | the name table of two lists of entries is one table followed by the other |
| ArchiveProperties.Int32TableAppend | KairosoftArchive.cs:104-113 | an int table of two lists of words is one table followed by the other |
| ArchiveProperties.OffsetsAt | KairosoftArchive.cs:102-108 | offset i is the total size + 4 of the entries before entry i |
| ArchiveProperties.OffsetsRunningSum | KairosoftArchive.cs:102-108 | the first offset is 0 and each next offset is the previous one plus size + 4 |
| ArchiveProperties.SizesAt | KairosoftArchive.cs:110-113 | size i is the payload length of entry i |
| ArchiveProperties.DataSplitAt | KairosoftArchive.cs:118-122 | the data region is the blocks before entry i, then entry i's length and payload, then the blocks after it |
| ArchiveProperties.DataLengthSnoc | KairosoftArchive.cs:107 | adding an entry adds its size + 4 to the running offset |
| ArchiveProperties.DataLengthPrefix | KairosoftArchive.cs:102-108 | the offset of any entry is at most dataLength, so it fits in an int |
| ArchiveProperties.NameTableSnoc | KairosoftArchive.cs:95-100 | each pass of the name loop appends the name's length and bytes to the table so far |
| ArchiveProperties.Int32TableSnoc | KairosoftArchive.cs:104-113 | each pass of a word loop appends one big-endian word to the table so far |
| ArchiveProperties.DataRegionSnoc | KairosoftArchive.cs:118-122 | each pass of the data loop appends the entry's size word and payload to the region so far |
| ArchiveProperties.SerializedLayoutHeader | KairosoftArchive.cs:87-100 | the output starts with 0, dataLength and filesLength, followed by the name table at byte 12 |
| ArchiveProperties.SerializedLayoutTables | KairosoftArchive.cs:102-113 | the offset table and then the size table follow the name table |
| ArchiveProperties.SerializedLayoutData | KairosoftArchive.cs:115-122 | zeroed flags, then the data region, which ends the output |
| ArchiveProperties.NamesCons | KairosoftArchive.cs:46-50 | the names of a list are the first name followed by the names of the rest |
| ArchiveProperties.ReadNameStep | KairosoftArchive.cs:48-49 | one pass of the name loop over a written name record reads that name and moves past the record |
| ArchiveProperties.ReadNamesOfTable | KairosoftArchive.cs:46-50 | the name loop over a written name table reads back every name in order and stops at the table's end |
| ArchiveProperties.ReadInt32Step | KairosoftArchive.cs:54 | one pass of a word loop over a written word reads that word |
| ArchiveProperties.ReadInt32sOfTable | KairosoftArchive.cs:52-60 | a word loop over a written int table reads back every word in order |
| ArchiveProperties.NameTableReads | KairosoftArchive.cs:46-50 | the name loop from an empty list reads a written name table whole |
| ArchiveProperties.Int32TableReads | KairosoftArchive.cs:52-60 | a word loop from an empty list reads a written int table whole |
| ArchiveProperties.PrefixRead | KairosoftArchive.cs:71 | a length word written inside a larger block is read back where it was written |
| ArchiveProperties.BlockLengthRead | KairosoftArchive.cs:71-72 | at the stream position of entry i, the length word read is the entry's size |
| ArchiveProperties.BlockPayload | KairosoftArchive.cs:74 | the slice at offset + 4 of length size in the data region is exactly entry i's payload |
| ArchiveProperties.NameFresh | KairosoftArchive.cs:74 | with distinct names, entry i's name is not yet a key when it is added |
| ArchiveProperties.ReadEntryAccepts | KairosoftArchive.cs:69-75 | one pass of the entry loop reads an entry exactly when its flag exists and bit 0 is clear, the length word at the stream position is the listed size, the slice of that size at offset + 4 lies in the data region, and the skip past the length word and the payload stays within int.MaxValue; the entry is the listed name with that slice, and the stream moves to the end of the payload |
| ArchiveProperties.EntryOfRegion | KairosoftArchive.cs:67-76 | over a written data region, pass i yields entry i and moves the stream to the next block |
| ArchiveProperties.ParseEntriesFrom | KairosoftArchive.cs:67-76 | when every pass from i on reads its entry and each name is new, the entry loop from pass i completes the entry list |
| ArchiveProperties.EntriesOfRegion | KairosoftArchive.cs:67-76 | over a written data region, every pass reads its own entry, from the block start to the next block start, and each name is new |
| ArchiveProperties.EntriesFromStart | KairosoftArchive.cs:65-76 | from an empty dictionary at the start of a written data region, the entry loop yields every entry in order |
| ArchiveProperties.ParseEntriesOfRegion | KairosoftArchive.cs:63-76 | the entry loop over a written data region yields exactly the written entries, in order |
| ArchiveProperties.TablesOf | KairosoftArchive.cs:42-62 | the tables written for a list of entries are parallel, one element per entry |
| ArchiveProperties.HeaderOfLayout | KairosoftArchive.cs:37-40 | over written header words, the header read gives dataLength and filesLength |
| ArchiveProperties.TablesOfLayout | KairosoftArchive.cs:42-62 | over written tables, the table reads give back names, offsets, sizes and zero flags, ending at the data region |
| ArchiveProperties.HeaderOfSerialized | KairosoftArchive.cs:87-91 | the header of ToBytes's output reads back as dataLength, filesLength and position 12 |
| ArchiveProperties.TablesOfSerialized | KairosoftArchive.cs:93-116 | the tables of ToBytes's output read back as the entries' names, offsets, sizes and zero flags |
| ArchiveProperties.EntriesOfSerialized | KairosoftArchive.cs:118-122 | the entry loop over ToBytes's data region yields the entries |
| ArchiveProperties.ParseSerialize | KairosoftArchive.cs:82-129 | parsing what ToBytes writes, before the key, gives the same entries in the same order, for every output of at most int.MaxValue bytes |
| ArchiveProperties.DistinctSnoc | KairosoftArchive.cs:74 | adding an entry under a new name keeps the keys distinct |
| ArchiveProperties.ReadNamesBounded | KairosoftArchive.cs:48-49 | every name read is at most int.MaxValue bytes long |
| ArchiveProperties.ParseEntriesResult | KairosoftArchive.cs:67-76 | a successful entry loop leaves distinct keys, in name-table order |
| ArchiveProperties.ReadTablesBounded | KairosoftArchive.cs:42-62 | every name in successfully read tables is at most int.MaxValue bytes long |
| ArchiveProperties.RegionValid | KairosoftArchive.cs:63-76 | a successful region read gives distinct keys that are exactly the name table |
| ArchiveProperties.BodyValid | KairosoftArchive.cs:42-76 | a successful body gives distinct keys, int-length names and at most int.MaxValue entries |
| ArchiveProperties.ParseValid | KairosoftArchive.cs:34-76 | every successfully parsed archive has distinct keys, names and a count that ToBytes can write again; the header's count is the number of entries, the names are the name table at byte 12, in order, and the data length and the whole layout written back fit in an int |
| ArchiveProperties.ParseEntriesAccepts | KairosoftArchive.cs:67-76 | a successful entry loop yields one entry per listed name, and every pass accepts its entry at its block, whose position is the data region's start plus 4 + size for every earlier entry |
| ArchiveProperties.RegionSound | KairosoftArchive.cs:63-76 | a successful data region stage lies inside the buffer and passes every check for every entry, with distinct names in table order |
| ArchiveProperties.EntryLoopComplete | KairosoftArchive.cs:65-76 | entries that every pass accepts at its block, position limit included, under distinct names, are exactly what the entry loop yields from an empty dictionary |
| ArchiveProperties.RegionComplete | KairosoftArchive.cs:63-76 | entries that pass every check, position limit included, inside a data region that lies in the buffer are exactly what the data region stage yields |
| ArchiveProperties.ParseSound | KairosoftArchive.cs:34-76 | every successful parse of any buffer passes every check of the parsing constructor against the header and tables it read: flags clear, length words equal to the sizes, payloads equal to the slices at offset + 4, every skip within int.MaxValue, names distinct and in table order |
| ArchiveProperties.ParseComplete | KairosoftArchive.cs:34-76 | every list of entries that passes every check against the header and tables of a buffer, position limit included, is the parse of that buffer |
| ArchiveProperties.ParseExactly | KairosoftArchive.cs:34-76 | given the header and tables a buffer starts with, a list of entries is its parse if and only if it passes every check: flags, length words, slices, distinct names and the position limit |
| ArchiveProperties.ParseChecksPass | KairosoftArchive.cs:67-76 | if the parse succeeds, the data region lies in the buffer, the listed names are distinct and pass k accepts entry k |
| ArchiveProperties.ParseRejectsCompressed | KairosoftArchive.cs:69 | an entry whose flag has bit 0 set makes the parse fail |
| ArchiveProperties.ParseRejectsSizeMismatch | KairosoftArchive.cs:71-72 | a length word at an entry's block that is not its listed size makes the parse fail |
| ArchiveProperties.ParseRejectsSliceOutside | KairosoftArchive.cs:74 | an entry whose slice at offset + 4 does not lie inside the data region makes the parse fail |
| ArchiveProperties.ParseRejectsShortRegion | KairosoftArchive.cs:63 | a negative data length, or a data region past the end of the buffer, fails with ArgumentOutOfRange |
| ArchiveProperties.ParseRejectsDuplicate | KairosoftArchive.cs:74 | two listed entries with the same name make the parse fail |
| ArchiveProperties.ParseRejectsPastPositionCap | KairosoftArchive.cs:75 | a block whose skip would put the stream past int.MaxValue makes the parse fail, although the slices come from the offset table |
| ArchiveProperties.NameTableLengthOf | KairosoftArchive.cs:95-100 | the name table ToBytes writes takes a length word and the bytes of each name |
| ArchiveProperties.ReadNamesEnd | KairosoftArchive.cs:46-50 | the name loop keeps the names already read and moves the stream past a length word and the bytes of each name, however short the read |
| ArchiveProperties.ReadInt32sEnd | KairosoftArchive.cs:52-60 | a word loop moves the stream four bytes per word |
| ArchiveProperties.ReadTablesEnd | KairosoftArchive.cs:46-62 | the tables hold at most count flags, and with all of them they end past the name records, two words and one flag per entry |
| ArchiveProperties.DataLengthBlocks | KairosoftArchive.cs:75 | when each listed size is its entry's payload length, the skips of the first k passes add up to the data length of the first k entries |
| ArchiveProperties.ParsedBlocks | KairosoftArchive.cs:67-76 | entries that pass every check have the data length the entry loop skipped, which ends within int.MaxValue, and one flag each |
| ArchiveProperties.ParsedWritable | KairosoftArchive.cs:34-76 | what a successful parse yields has a data length and a whole layout of at most int.MaxValue bytes when written back |
| ArchiveProperties.ParseShortHeader | KairosoftArchive.cs:37-40 | a buffer of fewer than 12 bytes fails with EndOfStream |
| ArchiveProperties.ParseNegativeCount | KairosoftArchive.cs:42 | a negative filesLength fails with OverflowException, from allocating the table arrays |
| ArchiveIO.WriteNames | KairosoftArchive.cs:95-100 | the name loop appends exactly the name table |
| ArchiveIO.WriteOffsets | KairosoftArchive.cs:102-108 | the offset loop appends exactly the table of running offsets |
| ArchiveIO.WriteSizes | KairosoftArchive.cs:110-113 | the size loop appends exactly the size table |
| ArchiveIO.WriteData | KairosoftArchive.cs:118-122 | the data loop appends exactly the data region |
| ArchiveIO.WriteHeader | KairosoftArchive.cs:87-91 | the writer appends 0, dataLength and filesLength |
| ArchiveIO.WriteTables | KairosoftArchive.cs:93-116 | the writer appends the name, offset and size tables and the zeroed flags |
| ArchiveIO.WriteArchive | KairosoftArchive.cs:84-124 | the whole stream is the layout of the entries |
| ArchiveIO.ReadHeaderFrom | KairosoftArchive.cs:36-40 | the three header reads give the header function's result, and the stream is left after them |
| ArchiveIO.ReadNameTable | KairosoftArchive.cs:42-50 | the name loop into an array gives the same names, end position and errors as the name-table function |
| ArchiveIO.ReadInt32Table | KairosoftArchive.cs:52-60 | a word loop into an array gives the same words, end position and errors as the table function |
| ArchiveIO.ReadTablesFrom | KairosoftArchive.cs:42-62 | the four table reads agree with the table function |
| ArchiveIO.ReadEntryFrom | KairosoftArchive.cs:69-74 | one pass of the entry loop up to the dictionary add agrees with the entry function: flag check, length check and slice; the stream is left after the length word, the payload's length short of where the pass moves it |
| ArchiveIO.ReadEntries | KairosoftArchive.cs:65-76 | the entry loop, with the add and then the skip, gives the entry-loop function's result, DuplicateKey and the position limit included |
| ArchiveIO.ReadRegion | KairosoftArchive.cs:63-76 | the span of the data region, then the entry loop, agree with the region function |
| ArchiveIO.ReadBody | KairosoftArchive.cs:42-76 | everything after the header agrees with the body function |
| ArchiveIO.ParseBuffer | KairosoftArchive.cs:34-76 | the whole reader-driven parse gives exactly the parse function's result |
| Kairosoft.ApplyKeyInverse | KairosoftArchive.cs:29-32 | the key step keeps the length and undoes itself |
| Kairosoft.ApplyKeyInPlace | KairosoftArchive.cs:29-32 | no key leaves the buffer alone; a key XORs it in place; an empty key on a non-empty buffer fails with DivideByZero and leaves it unchanged |
| Kairosoft.ToBytesFails | KairosoftArchive.cs:82-129 | ToBytes fails exactly when dataLength overflows an int (OverflowException), the output passes int.MaxValue bytes (the MemoryStream's IOException) or the key is empty (DivideByZero), in that order |
| Kairosoft.LoadToBytes | KairosoftArchive.cs:22-129 | loading ToBytes's output with the same key gives back the same entries in the same order |
| Kairosoft.LoadValid | KairosoftArchive.cs:22-77 | every loaded archive has distinct keys, and its data length and whole layout fit in an int, so ToBytes can write it |
| Kairosoft.LoadWriteBack | KairosoftArchive.cs:22-129 | an archive loaded with a key is written by ToBytes with that key without failing, and the output loads to the same entries again |
| Kairosoft.IndexOf | KairosoftArchive.cs:79 | the first position holding the name, or the count when the name is absent |
| Kairosoft.IndexOfIs | KairosoftArchive.cs:79 | any first position holding the name is the position IndexOf returns |
| Kairosoft.Lookup | KairosoftArchive.cs:79 | succeeds exactly when the name is a key, with an entry of that name from the archive; otherwise KeyNotFound |
| Kairosoft.ElementAt | KairosoftArchive.cs:80 | succeeds exactly for 0 <= index < count, with the entry at that position; otherwise ArgumentOutOfRange |
| Kairosoft.LookupElementAt | KairosoftArchive.cs:79-80 | with distinct keys, the entry at a position is the entry under its own name |
| Kairosoft.UpsertReplace | KairosoftArchive.cs:133 | replacing an existing key keeps the keys distinct, maps the key to the new entry and leaves every other key alone |
| Kairosoft.UpsertAppend | KairosoftArchive.cs:133 | adding a new key keeps the keys distinct, maps it to the new entry and leaves every other key alone |
| Kairosoft.UpsertSpec | KairosoftArchive.cs:131-134 | after `files[name] = …` the name maps to the new entry and every other name to its old entry; an existing key keeps its position, and a new one goes last |
| Kairosoft.UpsertFits | KairosoftArchive.cs:131-134 | an upsert adds at most one entry and keeps names within int length |
| Kairosoft.KairosoftArchive.constructor | KairosoftArchive.cs:17-20 | a new archive is empty |
| Kairosoft.KairosoftArchive.Load | KairosoftArchive.cs:22-77 | the caller's buffer is changed in place by the key step; the archive holds exactly the parse result, or the parse's error is raised |
| Kairosoft.KairosoftArchive.ToBytes | KairosoftArchive.cs:82-129 | the result is the layout of the entries after the key step, or Overflow, StreamTooLong or DivideByZero |
| Kairosoft.KairosoftArchive.AddFile | KairosoftArchive.cs:131-134 | the name now maps to the new entry; every other name's lookup is unchanged; the archive stays valid |

## Left out

- Names are kept as the raw bytes they are stored as. The UTF-8 decoding at KairosoftArchive.cs:49 and the encoding at :97 are not modelled, because the model has no text encoding. As a result:
  - invalid UTF-8 in a name is not replaced with U+FFFD;
  - two byte strings that decode to the same string are not treated as the same key;
  - a name's byte length is taken to be its stored length.
- ReadHalfBigEndian, ReadSingleBigEndian and ReadDoubleBigEndian, and the Half, float and double overloads of WriteBigEndian, are not modelled, because the model has no floating point.
- Only one path of the reader extensions is modelled. The `MemoryStream.TryGetBuffer` path (`TryReadSpanUnsafe`) is left out. The archive's reader is a `MemoryStream` over a caller's array, whose buffer is not exposable, so `TryGetBuffer` fails there and every read goes through `ReadSpan`/`ReadExactly`.
- Streams, `using` disposal and `stream.ToArray()` are left out. The reader is a buffer and a position, and the writer is the byte sequence written so far.
- A null `data` argument (NullReferenceException at KairosoftArchive.cs:24-27) is not modelled: Dafny arrays are never null.
- The `Debug.Assert` at KairosoftArchive.cs:72 is modelled as the debug build behaves: a mismatch fails, here with `SizeMismatch`. A release build ignores the check and goes on to slice with the length read.
- ArchiveIO.ReadEntryFrom and ArchiveFormat.ReadEntry model `offsets[i] + 4` without 32-bit wrap-around. In C# an offset near int.MaxValue wraps to a negative slice start. Either way the slice is out of range and the result is ArgumentOutOfRange, so the outcome is the same.
- Kairosoft.KairosoftArchive.AddFile takes two platform limits as preconditions: a name of at most int.MaxValue bytes, and fewer than int.MaxValue entries when the name is new. .NET arrays and dictionaries cannot exceed these limits.
- Kairosoft.KairosoftArchive.Valid requires the same limits of the entries of an archive.
- Kairosoft.KairosoftArchive.ToBytes returns a value sequence, not a fresh byte[]. Entries hold their payloads as values, so aliasing between a caller's `byte[]` and an entry's `Data` is not captured.
- Kairosoft.ToBytesFails takes the output limit to be int.MaxValue bytes, where `MemoryStream` throws IOException. An output that fits in int.MaxValue bytes but not in the largest .NET array (0x7FFFFFC7 bytes) cannot be allocated in the source and fails with OutOfMemoryException; the model writes it.
- Kairosoft.KairosoftArchive.ToBytes has the same gap, since its result is ToBytesSpec. It also checks the limit on the finished bytes rather than at the write that passes it, which gives the same result.
- BinaryReaderBigEndian.Reader.ReadBytes does not model the OutOfMemoryException that `BinaryReader.ReadBytes` throws when it allocates its result array up front, for a count above the largest array length (0x7FFFFFC7). The model returns the bytes that remain instead. BinaryReaderBigEndian.ReadBytesAt has the same gap. Other allocation failures, such as the three table arrays for a huge count, are not modelled either.
- GetEnumerator (KairosoftArchive.cs:143-145) has no member of its own. It enumerates `files` in order, which is the `files` sequence itself.
- ToBytes after a load does not give back the original bytes exactly. The reserved first word is discarded on load and written as 0, and offsets that are not dense are rewritten dense. The round trip proved is on entries, not on bytes.
- Program.cs, the command-line tool around the archive, is not part of this model.
