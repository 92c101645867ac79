/** What the layout functions promise: table by table, and the round trip. */
module ArchiveProperties {
  import opened Wrappers
  import opened BigEndian
  import opened BinaryReaderBigEndian
  import opened ArchiveFormat

  lemma {:induction false} Assoc3<T>(a: seq<T>, b: seq<T>, c: seq<T>)
    ensures a + (b + c) == a + b + c
  {
  }

  lemma {:induction false} TakeSnoc<T>(s: seq<T>, i: nat)
    requires i < |s|
    ensures s[..i] + [s[i]] == s[..i + 1]
  {
  }

  /** A prefix that ends in e: the part before it and e itself. */
  lemma {:induction false} PrefixSnoc<T>(s: seq<T>, acc: seq<T>, e: T)
    requires |acc| < |s| && s[..|acc| + 1] == acc + [e]
    ensures s[..|acc|] == acc && s[|acc|] == e
  {
    assert s[..|acc|] == s[..|acc| + 1][..|acc|];
    assert s[|acc|] == s[..|acc| + 1][|acc|];
  }

  lemma {:induction false} Assoc4<T>(a: seq<T>, b: seq<T>, c: seq<T>, d: seq<T>)
    ensures a + (b + c + d) == a + b + c + d
  {
  }

  // ---- how the tables split over a concatenation of entry lists ----

  lemma {:induction false} DataLengthAppend(a: seq<Entry>, b: seq<Entry>)
    ensures DataLength(a + b) == DataLength(a) + DataLength(b)
  {
    if a == [] {
      assert a + b == b;
    } else {
      assert (a + b)[1..] == a[1..] + b;
      DataLengthAppend(a[1..], b);
    }
  }

  lemma {:induction false} DataRegionAppend(a: seq<Entry>, b: seq<Entry>)
    requires DataLength(a + b) <= MaxInt32
    ensures DataLength(a) <= MaxInt32 && DataLength(b) <= MaxInt32
    ensures DataRegion(a + b) == DataRegion(a) + DataRegion(b)
  {
    DataLengthAppend(a, b);
    if a == [] {
      assert a + b == b;
    } else {
      assert (a + b)[1..] == a[1..] + b;
      DataRegionAppend(a[1..], b);
    }
  }

  lemma {:induction false} NameTableAppend(a: seq<Entry>, b: seq<Entry>)
    requires NamesFit(a + b)
    ensures NamesFit(a) && NamesFit(b)
    ensures NameTable(a + b) == NameTable(a) + NameTable(b)
  {
    assert forall i :: 0 <= i < |a| ==> a[i] == (a + b)[i];
    assert forall i :: 0 <= i < |b| ==> b[i] == (a + b)[|a| + i];
    if a == [] {
      assert a + b == b;
    } else {
      assert (a + b)[1..] == a[1..] + b;
      NameTableAppend(a[1..], b);
    }
  }

  lemma {:induction false} Int32TableAppend(a: seq<int32>, b: seq<int32>)
    ensures Int32Table(a + b) == Int32Table(a) + Int32Table(b)
  {
    if a == [] {
      assert a + b == b;
    } else {
      assert (a + b)[1..] == a[1..] + b;
      Int32TableAppend(a[1..], b);
    }
  }

  // ---- what each table holds ----

  /** The offset of entry i is the start plus the size + 4 of every entry before it. */
  lemma {:induction false} OffsetsAt(es: seq<Entry>, start: nat, i: nat)
    requires start + DataLength(es) <= MaxInt32 && i < |es|
    ensures Offsets(es, start)[i] == start + DataLength(es[..i])
  {
    if i > 0 {
      OffsetsAt(es[1..], start + es[0].Size() + 4, i - 1);
      assert es[..i] == [es[0]] + es[1..][..i - 1];
      DataLengthAppend([es[0]], es[1..][..i - 1]);
    }
  }

  /** Serialised offsets are a running sum: 0 first, then growing by size + 4 per entry. */
  lemma {:induction false} OffsetsRunningSum(es: seq<Entry>, i: nat)
    requires DataLength(es) <= MaxInt32 && i + 1 < |es|
    ensures Offsets(es, 0)[0] == 0
    ensures Offsets(es, 0)[i + 1] == Offsets(es, 0)[i] + es[i].Size() + 4
  {
    OffsetsAt(es, 0, i);
    OffsetsAt(es, 0, i + 1);
    assert es[..i + 1] == es[..i] + [es[i]];
    DataLengthAppend(es[..i], [es[i]]);
  }

  /** The size table lists the payload lengths in entry order. */
  lemma {:induction false} SizesAt(es: seq<Entry>, i: nat)
    requires DataLength(es) <= MaxInt32 && i < |es|
    ensures Sizes(es)[i] == es[i].Size()
  {
    if i > 0 {
      SizesAt(es[1..], i - 1);
    }
  }

  lemma {:induction false} DataSplitAt(es: seq<Entry>, i: nat)
    requires DataLength(es) <= MaxInt32 && i < |es|
    ensures DataLength(es[..i]) + 4 + es[i].Size() + DataLength(es[i + 1..]) == DataLength(es)
    ensures DataRegion(es) == DataRegion(es[..i]) + EncodeInt32(es[i].Size()) + es[i].data + DataRegion(es[i + 1..])
  {
    var pre, rest := es[..i], es[i..];
    assert DataRegion(es) == DataRegion(pre) + DataRegion(rest) by {
      assert es == pre + rest;
      DataRegionAppend(pre, rest);
    }
    assert rest[0] == es[i] && rest[1..] == es[i + 1..];
    DataRegionCons(rest);
    Assoc4(DataRegion(pre), EncodeInt32(es[i].Size()), es[i].data, DataRegion(es[i + 1..]));
  }

  lemma {:induction false} DataLengthSnoc(es: seq<Entry>, i: nat)
    requires i < |es|
    ensures DataLength(es[..i + 1]) == DataLength(es[..i]) + es[i].Size() + 4
  {
    assert es[..i + 1] == es[..i] + [es[i]];
    DataLengthAppend(es[..i], [es[i]]);
    assert [es[i]][1..] == [];
  }

  lemma {:induction false} DataRegionCons(es: seq<Entry>)
    requires DataLength(es) <= MaxInt32 && es != []
    ensures DataLength(es) == es[0].Size() + 4 + DataLength(es[1..])
    ensures DataRegion(es) == EncodeInt32(es[0].Size()) + es[0].data + DataRegion(es[1..])
  {
  }

  // ---- the tables grown one entry at a time, as the writer loops do ----

  /** A prefix of the entries never has a longer data region than the whole list. */
  lemma {:induction false} DataLengthPrefix(es: seq<Entry>, i: nat)
    requires i <= |es|
    ensures DataLength(es[..i]) <= DataLength(es)
  {
    assert es == es[..i] + es[i..];
    DataLengthAppend(es[..i], es[i..]);
  }

  lemma {:induction false} NameTableSnoc(es: seq<Entry>, i: nat)
    requires NamesFit(es) && i < |es|
    ensures NamesFit(es[..i]) && NamesFit(es[..i + 1])
    ensures NameTable(es[..i + 1]) == NameTable(es[..i]) + EncodeInt32(|es[i].name|) + es[i].name
  {
    assert es[..i + 1] == es[..i] + [es[i]];
    assert forall k :: 0 <= k < i + 1 ==> es[..i + 1][k] == es[k];
    NameTableAppend(es[..i], [es[i]]);
    assert NameTable([es[i]]) == NameRecord(es[i]) + NameTable([]);
    Assoc3(NameTable(es[..i]), EncodeInt32(|es[i].name|), es[i].name);
  }

  lemma {:induction false} Int32TableSnoc(vs: seq<int32>, i: nat)
    requires i < |vs|
    ensures Int32Table(vs[..i + 1]) == Int32Table(vs[..i]) + EncodeInt32(vs[i])
  {
    assert vs[..i + 1] == vs[..i] + [vs[i]];
    Int32TableAppend(vs[..i], [vs[i]]);
    assert Int32Table([vs[i]]) == EncodeInt32(vs[i]) + Int32Table([]);
  }

  lemma {:induction false} DataRegionSnoc(es: seq<Entry>, i: nat)
    requires DataLength(es) <= MaxInt32 && i < |es|
    ensures DataLength(es[..i + 1]) <= DataLength(es)
    ensures DataLength(es[..i + 1]) == DataLength(es[..i]) + 4 + es[i].Size()
    ensures DataRegion(es[..i + 1]) == DataRegion(es[..i]) + EncodeInt32(es[i].Size()) + es[i].data
  {
    DataLengthPrefix(es, i + 1);
    DataLengthSnoc(es, i);
    assert es[..i + 1] == es[..i] + [es[i]];
    DataRegionAppend(es[..i], [es[i]]);
    DataRegionCons([es[i]]);
    assert [es[i]][1..] == [];
  }

  // ---- the serialised layout ----

  /** Where the tables and the data region start in the serialised bytes. */
  function OffsetsStart(es: seq<Entry>): nat
    requires NamesFit(es)
  {
    12 + |NameTable(es)|
  }

  function SizesStart(es: seq<Entry>): nat
    requires NamesFit(es)
  {
    OffsetsStart(es) + 4 * |es|
  }

  function FlagsStart(es: seq<Entry>): nat
    requires NamesFit(es)
  {
    SizesStart(es) + 4 * |es|
  }

  function DataStart(es: seq<Entry>): nat
    requires NamesFit(es)
  {
    FlagsStart(es) + |es|
  }

  /** Where the header words and the name table sit in the serialised bytes. */
  lemma {:induction false} SerializedLayoutHeader(es: seq<Entry>)
    requires Fits(es)
    ensures At(Serialize(es), 0, EncodeInt32(0))
    ensures At(Serialize(es), 4, EncodeInt32(DataLength(es)))
    ensures At(Serialize(es), 8, EncodeInt32(|es|))
    ensures At(Serialize(es), 12, NameTable(es))
  {
    var h0, h1, h2 := EncodeInt32(0), EncodeInt32(DataLength(es)), EncodeInt32(|es|);
    var nt, rest := NameTable(es), Int32Table(Offsets(es, 0)) + Int32Table(Sizes(es)) + Zeros(|es|) + DataRegion(es);
    assert Serialize(es) == h0 + h1 + h2 + nt + rest;
    AtWhole(Serialize(es));
    AtConcat(Serialize(es), 0, h0 + h1 + h2 + nt, rest);
    AtConcat(Serialize(es), 0, h0 + h1 + h2, nt);
    AtConcat(Serialize(es), 0, h0 + h1, h2);
    AtConcat(Serialize(es), 0, h0, h1);
  }

  /** Where the offset and size tables sit in the serialised bytes. */
  lemma {:induction false} SerializedLayoutTables(es: seq<Entry>)
    requires Fits(es)
    ensures At(Serialize(es), OffsetsStart(es), Int32Table(Offsets(es, 0)))
    ensures At(Serialize(es), SizesStart(es), Int32Table(Sizes(es)))
  {
    var h0, h1, h2 := EncodeInt32(0), EncodeInt32(DataLength(es)), EncodeInt32(|es|);
    var nt, ot, st, fl, dr := NameTable(es), Int32Table(Offsets(es, 0)), Int32Table(Sizes(es)), Zeros(|es|), DataRegion(es);
    var p4 := h0 + h1 + h2 + nt;
    assert |p4| == OffsetsStart(es);
    assert Serialize(es) == p4 + ot + st + fl + dr;
    AtSuffix(p4, ot);
    AtExtend(p4 + ot, |p4|, ot, st);
    AtExtend(p4 + ot + st, |p4|, ot, fl);
    AtExtend(p4 + ot + st + fl, |p4|, ot, dr);
    AtSuffix(p4 + ot, st);
    AtExtend(p4 + ot + st, |p4 + ot|, st, fl);
    AtExtend(p4 + ot + st + fl, |p4 + ot|, st, dr);
  }

  /** Where the flags and the data region sit, and the total length. */
  lemma {:induction false} SerializedLayoutData(es: seq<Entry>)
    requires Fits(es)
    ensures At(Serialize(es), FlagsStart(es), Zeros(|es|))
    ensures At(Serialize(es), DataStart(es), DataRegion(es))
    ensures |Serialize(es)| == DataStart(es) + DataLength(es)
  {
    var h0, h1, h2 := EncodeInt32(0), EncodeInt32(DataLength(es)), EncodeInt32(|es|);
    var nt, ot, st, fl, dr := NameTable(es), Int32Table(Offsets(es, 0)), Int32Table(Sizes(es)), Zeros(|es|), DataRegion(es);
    var l5 := h0 + h1 + h2 + nt + ot + st;
    assert |l5| == FlagsStart(es);
    assert Serialize(es) == l5 + fl + dr;
    AtSuffix(l5, fl);
    AtExtend(l5 + fl, |l5|, fl, dr);
    AtSuffix(l5 + fl, dr);
  }

  // ---- reading the tables back ----

  /** The names of a non-empty list: the first name, then the names of the rest. */
  lemma {:induction false} NamesCons(es: seq<Entry>)
    requires es != [] && NamesFit(es)
    ensures NamesFit(es[1..])
    ensures Names(es) == [es[0].name] + Names(es[1..])
  {
    assert forall i :: 0 <= i < |es[1..]| ==> es[1..][i] == es[i + 1];
  }

  /** One name record read off the front of the remaining names. */
  lemma {:induction false} ReadNameStep(buf: seq<byte>, pos: nat, e: Entry, count: nat, acc: seq<Name>)
    requires |e.name| <= MaxInt32 && At(buf, pos, NameRecord(e))
    ensures ReadNames(buf, pos, count + 1, acc) == ReadNames(buf, pos + 4 + |e.name|, count, acc + [e.name])
  {
    AtConcat(buf, pos, EncodeInt32(|e.name|), e.name);
    ReadInt32Written(buf, pos, |e.name|);
    ReadBytesWritten(buf, pos + 4, e.name);
  }

  lemma {:induction false} ReadNamesOfTable(buf: seq<byte>, pos: nat, es: seq<Entry>, acc: seq<Name>)
    requires NamesFit(es) && At(buf, pos, NameTable(es))
    ensures ReadNames(buf, pos, |es|, acc) == Ok(Read(acc + Names(es), pos + |NameTable(es)|))
    decreases |es|
  {
    if es == [] {
      assert acc + Names(es) == acc;
    } else {
      var e, rest := es[0], es[1..];
      NamesCons(es);
      AtConcat(buf, pos, NameRecord(e), NameTable(rest));
      ReadNameStep(buf, pos, e, |rest|, acc);
      ReadNamesOfTable(buf, pos + |NameRecord(e)|, rest, acc + [e.name]);
      assert acc + [e.name] + Names(rest) == acc + Names(es);
    }
  }

  /** One int32 word read off the front of the remaining words. */
  lemma {:induction false} ReadInt32Step(buf: seq<byte>, pos: nat, v: int32, count: nat, acc: seq<int32>)
    requires At(buf, pos, EncodeInt32(v))
    ensures ReadInt32s(buf, pos, count + 1, acc) == ReadInt32s(buf, pos + 4, count, acc + [v])
  {
    ReadInt32Written(buf, pos, v);
  }

  lemma {:induction false} ReadInt32sOfTable(buf: seq<byte>, pos: nat, vs: seq<int32>, acc: seq<int32>)
    requires At(buf, pos, Int32Table(vs))
    ensures ReadInt32s(buf, pos, |vs|, acc) == Ok(Read(acc + vs, pos + 4 * |vs|))
    decreases |vs|
  {
    if vs == [] {
      assert acc + vs == acc;
    } else {
      AtConcat(buf, pos, EncodeInt32(vs[0]), Int32Table(vs[1..]));
      ReadInt32Step(buf, pos, vs[0], |vs| - 1, acc);
      ReadInt32sOfTable(buf, pos + 4, vs[1..], acc + [vs[0]]);
      assert acc + [vs[0]] + vs[1..] == acc + vs;
    }
  }

  /** The name table of es, read from the start with nothing read yet. */
  lemma {:induction false} NameTableReads(buf: seq<byte>, pos: nat, es: seq<Entry>, count: nat, next: nat)
    requires NamesFit(es) && At(buf, pos, NameTable(es))
    requires count == |es| && next == pos + |NameTable(es)|
    ensures ReadNames(buf, pos, count, []) == Ok(Read(Names(es), next))
  {
    ReadNamesOfTable(buf, pos, es, []);
    assert [] + Names(es) == Names(es);
  }

  /** An int32 table, read from the start with nothing read yet. */
  lemma {:induction false} Int32TableReads(buf: seq<byte>, pos: nat, vs: seq<int32>, count: nat, next: nat)
    requires At(buf, pos, Int32Table(vs))
    requires count == |vs| && next == pos + 4 * count
    ensures ReadInt32s(buf, pos, count, []) == Ok(Read(vs, next))
  {
    ReadInt32sOfTable(buf, pos, vs, []);
    assert [] + vs == vs;
  }

  /** A length-prefixed block inside a buffer: its prefix reads back as the length. */
  lemma {:induction false} PrefixRead(buf: seq<byte>, base: nat, before: seq<byte>, n: int32, data: seq<byte>, after: seq<byte>, pos: nat)
    requires At(buf, base, before + EncodeInt32(n) + data + after) && pos == base + |before|
    ensures ReadInt32At(buf, pos) == Ok(Read(n, pos + 4))
  {
    var len := EncodeInt32(n);
    AtConcat(buf, base, before + len + data, after);
    AtConcat(buf, base, before + len, data);
    AtConcat(buf, base, before, len);
    ReadInt32Written(buf, pos, n);
  }

  /** Entry i's length prefix, read through the stream at its place in the region. */
  lemma {:induction false} BlockLengthRead(buf: seq<byte>, base: nat, es: seq<Entry>, i: nat, pos: nat)
    requires Fits(es) && i < |es| && At(buf, base, DataRegion(es))
    requires pos == base + DataLength(es[..i])
    ensures es[i].Size() <= MaxInt32
    ensures ReadInt32At(buf, pos) == Ok(Read(es[i].Size() as int32, pos + 4))
  {
    DataSplitAt(es, i);
    var n: int32 := es[i].Size();
    PrefixRead(buf, base, DataRegion(es[..i]), n, es[i].data, DataRegion(es[i + 1..]), pos);
  }

  /** Entry i's payload is the region slice after its offset and length prefix. */
  lemma {:induction false} BlockPayload(es: seq<Entry>, i: nat)
    requires Fits(es) && i < |es|
    ensures Offsets(es, 0)[i] as int == DataLength(es[..i])
    ensures Offsets(es, 0)[i] as int + 4 + es[i].Size() <= |DataRegion(es)|
    ensures DataRegion(es)[Offsets(es, 0)[i] as int + 4..Offsets(es, 0)[i] as int + 4 + es[i].Size()] == es[i].data
  {
    DataSplitAt(es, i);
    OffsetsAt(es, 0, i);
    var region := DataRegion(es);
    var before, len := DataRegion(es[..i]), EncodeInt32(es[i].Size());
    AtWhole(region);
    AtConcat(region, 0, before + len + es[i].data, DataRegion(es[i + 1..]));
    AtConcat(region, 0, before + len, es[i].data);
  }

  /** With distinct names, no entry's name occurs among those before it. */
  lemma {:induction false} NameFresh(es: seq<Entry>, i: nat)
    requires DistinctNames(es) && i < |es|
    ensures es[i].name !in Names(es[..i])
  {
    forall k | 0 <= k < i ensures Names(es[..i])[k] != es[i].name {
      assert Names(es[..i])[k] == es[k].name;
    }
  }

  /**
   * Pass i of the entry loop, with the stream at pos, accepts e: the flag
   * exists and is clear, the length word at pos is the listed size, e is
   * the listed name with the slice of that size at offset + 4 of the data
   * region, and the skip past the length word and the listed size keeps
   * the stream position within int.MaxValue.
   */
  predicate Accepts(buf: seq<byte>, region: seq<byte>, t: Tables, i: nat, pos: int, e: Entry)
    requires t.Parallel() && i < |t.names|
  {
    && i < |t.flags| && t.flags[i] & 1 == 0
    && 0 <= pos && ReadInt32At(buf, pos) == Ok(Read(t.sizes[i], pos + 4))
    && 0 <= t.sizes[i] && 0 <= t.offsets[i] as int + 4
    && t.offsets[i] as int + 4 + t.sizes[i] as int <= |region|
    && e == Entry(t.names[i], region[t.offsets[i] as int + 4..t.offsets[i] as int + 4 + t.sizes[i] as int])
    && pos + 4 + t.sizes[i] as int <= MaxInt32
  }

  /**
   * One pass of the entry loop reads e and its skip moves the stream to a
   * position next that MemoryStream allows, exactly when the pass accepts e
   * and next is just past the length word and the listed size.
   */
  lemma {:induction false} ReadEntryAccepts(buf: seq<byte>, region: seq<byte>, t: Tables, i: nat, pos: nat, e: Entry, next: nat)
    requires t.Parallel() && i < |t.names|
    ensures ReadEntry(buf, region, t, i, pos) == Ok(Read(e, next)) && next <= MaxInt32
        <==> Accepts(buf, region, t, i, pos, e) && next == pos + 4 + t.sizes[i] as int
  {
  }

  /** Entry i of a data region laid out by the serialiser, read back at its place. */
  lemma {:induction false} EntryOfRegion(buf: seq<byte>, base: nat, es: seq<Entry>, i: nat)
    requires Fits(es) && i < |es| && At(buf, base, DataRegion(es)) && base + DataLength(es) <= MaxInt32
    ensures ReadEntry(buf, DataRegion(es), TablesOf(es), i, base + DataLength(es[..i]))
         == Ok(Read(es[i], base + DataLength(es[..i + 1])))
    ensures base + DataLength(es[..i + 1]) <= MaxInt32
  {
    var t := TablesOf(es);
    DataLengthPrefix(es, i + 1);
    BlockLengthRead(buf, base, es, i, base + DataLength(es[..i]));
    BlockPayload(es, i);
    SizesAt(es, i);
    DataLengthSnoc(es, i);
    assert t.names[i] == es[i].name;
    assert t.flags[i] & 1 == 0;
    ReadEntryAccepts(buf, DataRegion(es), t, i, base + DataLength(es[..i]), es[i], base + DataLength(es[..i + 1]));
  }

  /**
   * From entry i on, the entry loop gives back the remaining entries when
   * pass k reads entry k between stream positions poss[k] and poss[k + 1],
   * each name is new, and no position passes int.MaxValue.
   */
  lemma {:induction false} ParseEntriesFrom(buf: seq<byte>, region: seq<byte>, t: Tables, es: seq<Entry>, poss: seq<nat>, i: nat)
    requires t.Parallel() && |t.names| == |es| && |poss| == |es| + 1 && i <= |es|
    requires forall k :: i <= k < |es| ==> ReadEntry(buf, region, t, k, poss[k]) == Ok(Read(es[k], poss[k + 1]))
    requires forall k :: i < k <= |es| ==> poss[k] <= MaxInt32
    requires forall k :: i <= k < |es| ==> es[k].name !in Names(es[..k])
    ensures ParseEntries(buf, region, t, i, poss[i], es[..i]) == Ok(es)
    decreases |es| - i
  {
    if i == |es| {
      assert es[..i] == es;
      ParseEntriesDone(buf, region, t, i, poss[i], es[..i]);
    } else {
      TakeSnoc(es, i);
      ParseEntriesStep(buf, region, t, i, poss[i], es[..i], es[i], poss[i + 1], es[..i + 1]);
      ParseEntriesFrom(buf, region, t, es, poss, i + 1);
    }
  }

  /** The entry loop stops after the last entry with the entries added so far. */
  lemma {:induction false} ParseEntriesDone(buf: seq<byte>, region: seq<byte>, t: Tables, i: nat, pos: nat, acc: seq<Entry>)
    requires t.Parallel() && i == |t.names|
    ensures ParseEntries(buf, region, t, i, pos, acc) == Ok(acc)
  {
  }

  /** One pass of the entry loop: a successful read under a new name, skipped within int.MaxValue, moves on to the next entry. */
  lemma {:induction false} ParseEntriesStep(buf: seq<byte>, region: seq<byte>, t: Tables, i: nat, pos: nat,
                                            acc: seq<Entry>, e: Entry, next: nat, acc': seq<Entry>)
    requires t.Parallel() && i < |t.names|
    requires ReadEntry(buf, region, t, i, pos) == Ok(Read(e, next)) && e.name !in Names(acc) && next <= MaxInt32
    requires acc' == acc + [e]
    ensures ParseEntries(buf, region, t, i, pos, acc) == ParseEntries(buf, region, t, i + 1, next, acc')
  {
  }

  /** The stream positions of the blocks of a serialised data region at base: where each block starts, and the end. */
  function BlockStarts(base: nat, es: seq<Entry>): (poss: seq<nat>)
    ensures |poss| == |es| + 1 && poss[0] == base
  {
    assert es[..0] == [];
    var poss := seq(|es| + 1, k requires 0 <= k <= |es| => base + DataLength(es[..k]));
    assert poss[0] == base + DataLength(es[..0]);
    poss
  }

  /**
   * Over a serialised data region that ends within int.MaxValue, every pass
   * of the entry loop reads its entry, under a new name, and skips to a
   * position MemoryStream allows.
   */
  lemma {:induction false} EntriesOfRegion(buf: seq<byte>, base: nat, es: seq<Entry>)
    requires Fits(es) && DistinctNames(es) && At(buf, base, DataRegion(es)) && base + DataLength(es) <= MaxInt32
    ensures forall k :: 0 <= k < |es| ==>
      ReadEntry(buf, DataRegion(es), TablesOf(es), k, BlockStarts(base, es)[k]) == Ok(Read(es[k], BlockStarts(base, es)[k + 1]))
    ensures forall k :: 0 < k <= |es| ==> BlockStarts(base, es)[k] <= MaxInt32
    ensures forall k :: 0 <= k < |es| ==> es[k].name !in Names(es[..k])
  {
    var poss := BlockStarts(base, es);
    BlockStartsCapped(base, es);
    forall k | 0 <= k < |es|
      ensures ReadEntry(buf, DataRegion(es), TablesOf(es), k, poss[k]) == Ok(Read(es[k], poss[k + 1]))
    {
      assert poss[k] == base + DataLength(es[..k]) && poss[k + 1] == base + DataLength(es[..k + 1]);
      EntryOfRegion(buf, base, es, k);
    }
    forall k | 0 <= k < |es| ensures es[k].name !in Names(es[..k]) {
      NameFresh(es, k);
    }
  }

  /** The blocks of a serialised data region that ends within int.MaxValue all end within it too. */
  lemma {:induction false} BlockStartsCapped(base: nat, es: seq<Entry>)
    requires base + DataLength(es) <= MaxInt32
    ensures forall k :: 0 < k <= |es| ==> BlockStarts(base, es)[k] <= MaxInt32
  {
    forall k | 0 < k <= |es| ensures BlockStarts(base, es)[k] <= MaxInt32 {
      DataLengthPrefix(es, k);
    }
  }

  /** The entry loop from the start of a serialised data region gives back every entry in order. */
  lemma {:induction false} EntriesFromStart(buf: seq<byte>, base: nat, es: seq<Entry>)
    requires Fits(es) && DistinctNames(es) && At(buf, base, DataRegion(es)) && base + DataLength(es) <= MaxInt32
    ensures ParseEntries(buf, DataRegion(es), TablesOf(es), 0, base, []) == Ok(es)
  {
    var poss := BlockStarts(base, es);
    EntriesOfRegion(buf, base, es);
    ParseEntriesFrom(buf, DataRegion(es), TablesOf(es), es, poss, 0);
    assert es[..0] == [];
  }

  /** The entry loop over a data region laid out by the serialiser gives back every entry in order. */
  lemma {:induction false} ParseEntriesOfRegion(buf: seq<byte>, base: nat, es: seq<Entry>)
    requires Fits(es) && DistinctNames(es)
    requires At(buf, base, DataRegion(es)) && base + DataLength(es) <= MaxInt32
    ensures base + DataLength(es) <= |buf|
    ensures EntryLoop(buf, buf[base..base + DataLength(es)], TablesOf(es), base) == Ok(es)
  {
    EntriesFromStart(buf, base, es);
    assert buf[base..base + DataLength(es)] == DataRegion(es);
  }

  /** The tables the serialiser writes for es. */
  function TablesOf(es: seq<Entry>): (t: Tables)
    requires Fits(es)
    ensures t.Parallel() && |t.names| == |es| && |t.flags| == |es|
  {
    Tables(Names(es), Offsets(es, 0), Sizes(es), Zeros(|es|))
  }

  /** Reading the header, given what its three words read back as. */
  lemma {:induction false} ReadHeaderOfParts(buf: seq<byte>, dataLength: int32, count: int32)
    requires ReadInt32At(buf, 0) == Ok(Read(0, 4))
    requires ReadInt32At(buf, 4) == Ok(Read(dataLength, 8))
    requires ReadInt32At(buf, 8) == Ok(Read(count, 12))
    ensures ReadHeader(buf) == Ok(Header(dataLength, count, 12))
  {
  }

  /** Reading the tables, given what each of the four table reads returns. */
  lemma {:induction false} ReadTablesOfParts(buf: seq<byte>, pos: nat, count: nat, names: seq<Name>, offsets: seq<int32>,
                                             sizes: seq<int32>, flags: seq<byte>, p1: nat, p2: nat, p3: nat, p4: nat)
    requires ReadNames(buf, pos, count, []) == Ok(Read(names, p1))
    requires ReadInt32s(buf, p1, count, []) == Ok(Read(offsets, p2))
    requires ReadInt32s(buf, p2, count, []) == Ok(Read(sizes, p3))
    requires ReadBytesAt(buf, p3, count) == Ok(Read(flags, p4))
    ensures ReadTables(buf, pos, count) == Ok(Read(Tables(names, offsets, sizes, flags), p4))
  {
  }

  /** The data region stage, given what the entry loop returns over the serialiser's region. */
  lemma {:induction false} ParseRegionOf(buf: seq<byte>, es: seq<Entry>)
    requires Fits(es)
    requires DataStart(es) + DataLength(es) <= |buf|
    requires EntryLoop(buf, buf[DataStart(es)..DataStart(es) + DataLength(es)], TablesOf(es), DataStart(es)) == Ok(es)
    ensures ParseRegion(buf, DataLength(es) as int32, TablesOf(es), DataStart(es)) == Ok(es)
  {
  }

  /** The stage after the header, given what the table reads and the region stage return. */
  lemma {:induction false} ParseBodyOf(buf: seq<byte>, es: seq<Entry>)
    requires Fits(es)
    requires ReadTables(buf, 12, |es|) == Ok(Read(TablesOf(es), DataStart(es)))
    requires ParseRegion(buf, DataLength(es) as int32, TablesOf(es), DataStart(es)) == Ok(es)
    ensures ParseBody(buf, Header(DataLength(es) as int32, |es| as int32, 12)) == Ok(es)
  {
  }

  /** Parse, given what the header read and the stage after it return. */
  lemma {:induction false} ParseOfParts(buf: seq<byte>, es: seq<Entry>)
    requires Fits(es)
    requires ReadHeader(buf) == Ok(Header(DataLength(es) as int32, |es| as int32, 12))
    requires ParseBody(buf, Header(DataLength(es) as int32, |es| as int32, 12)) == Ok(es)
    ensures Parse(buf) == Ok(es)
  {
  }

  /** The header of a buffer holding the serialiser's header words. */
  lemma {:induction false} HeaderOfLayout(buf: seq<byte>, es: seq<Entry>)
    requires Fits(es)
    requires At(buf, 0, EncodeInt32(0))
    requires At(buf, 4, EncodeInt32(DataLength(es)))
    requires At(buf, 8, EncodeInt32(|es|))
    ensures ReadHeader(buf) == Ok(Header(DataLength(es) as int32, |es| as int32, 12))
  {
    ReadInt32Written(buf, 0, 0);
    ReadInt32Written(buf, 4, DataLength(es));
    ReadInt32Written(buf, 8, |es|);
    ReadHeaderOfParts(buf, DataLength(es) as int32, |es| as int32);
  }

  /** The clear flags the serialiser writes read back whole. */
  lemma {:induction false} FlagsOfLayout(buf: seq<byte>, es: seq<Entry>)
    requires Fits(es) && At(buf, FlagsStart(es), Zeros(|es|))
    ensures ReadBytesAt(buf, FlagsStart(es), |es|) == Ok(Read(Zeros(|es|), DataStart(es)))
  {
    ReadBytesWritten(buf, FlagsStart(es), Zeros(|es|));
    assert |Zeros(|es|)| == |es|;
  }

  /** The tables of a buffer holding the serialiser's four tables at their places. */
  lemma {:induction false} TablesOfLayout(buf: seq<byte>, es: seq<Entry>)
    requires Fits(es)
    requires At(buf, 12, NameTable(es))
    requires At(buf, OffsetsStart(es), Int32Table(Offsets(es, 0)))
    requires At(buf, SizesStart(es), Int32Table(Sizes(es)))
    requires At(buf, FlagsStart(es), Zeros(|es|))
    ensures ReadTables(buf, 12, |es|) == Ok(Read(TablesOf(es), DataStart(es)))
  {
    NameTableReads(buf, 12, es, |es|, OffsetsStart(es));
    Int32TableReads(buf, OffsetsStart(es), Offsets(es, 0), |es|, SizesStart(es));
    Int32TableReads(buf, SizesStart(es), Sizes(es), |es|, FlagsStart(es));
    FlagsOfLayout(buf, es);
    ReadTablesOfParts(buf, 12, |es|, Names(es), Offsets(es, 0), Sizes(es), Zeros(|es|),
                      OffsetsStart(es), SizesStart(es), FlagsStart(es), DataStart(es));
  }

  /** The header the serialiser writes reads back as the data length and the entry count. */
  lemma {:induction false} HeaderOfSerialized(es: seq<Entry>)
    requires Fits(es)
    ensures ReadHeader(Serialize(es)) == Ok(Header(DataLength(es) as int32, |es| as int32, 12))
  {
    SerializedLayoutHeader(es);
    HeaderOfLayout(Serialize(es), es);
  }

  /** The tables the serialiser writes read back as names, offsets, sizes and clear flags. */
  lemma {:induction false} TablesOfSerialized(es: seq<Entry>)
    requires Fits(es)
    ensures ReadTables(Serialize(es), 12, |es|) == Ok(Read(TablesOf(es), DataStart(es)))
  {
    SerializedLayoutHeader(es);
    SerializedLayoutTables(es);
    SerializedLayoutData(es);
    TablesOfLayout(Serialize(es), es);
  }

  /** The entry loop over the data region the serialiser writes gives back the entries. */
  lemma {:induction false} EntriesOfSerialized(es: seq<Entry>)
    requires Fits(es) && DistinctNames(es) && |Serialize(es)| <= MaxInt32
    ensures DataStart(es) + DataLength(es) <= |Serialize(es)|
    ensures EntryLoop(Serialize(es), Serialize(es)[DataStart(es)..DataStart(es) + DataLength(es)], TablesOf(es), DataStart(es))
         == Ok(es)
  {
    SerializedLayoutData(es);
    ParseEntriesOfRegion(Serialize(es), DataStart(es), es);
  }

  /**
   * Parsing what the serialiser wrote gives back the same entries in the
   * same order, for any output that a MemoryStream can hold.
   */
  lemma {:induction false} ParseSerialize(es: seq<Entry>)
    requires Fits(es) && DistinctNames(es) && |Serialize(es)| <= MaxInt32
    ensures Parse(Serialize(es)) == Ok(es)
  {
    HeaderOfSerialized(es);
    TablesOfSerialized(es);
    EntriesOfSerialized(es);
    ParseRegionOf(Serialize(es), es);
    ParseBodyOf(Serialize(es), es);
    ParseOfParts(Serialize(es), es);
  }

  // ---- what any successful parse yields ----

  /** Adding an entry whose name is new keeps the names distinct. */
  lemma {:induction false} DistinctSnoc(acc: seq<Entry>, e: Entry)
    requires DistinctNames(acc) && e.name !in Names(acc)
    ensures DistinctNames(acc + [e])
    ensures Names(acc + [e]) == Names(acc) + [e.name]
  {
    forall i | 0 <= i < |acc| ensures acc[i].name != e.name {
      assert Names(acc)[i] == acc[i].name;
    }
  }

  /** Every name read is at most int32-long: it came from ReadBytes with an int32 count. */
  lemma {:induction false} ReadNamesBounded(buf: seq<byte>, pos: nat, count: nat, acc: seq<Name>)
    requires forall k :: 0 <= k < |acc| ==> |acc[k]| <= MaxInt32
    requires ReadNames(buf, pos, count, acc).Ok?
    ensures forall k :: 0 <= k < |ReadNames(buf, pos, count, acc).value.value| ==>
      |ReadNames(buf, pos, count, acc).value.value[k]| <= MaxInt32
    decreases count
  {
    if count > 0 {
      var len := ReadInt32At(buf, pos).value;
      var name := ReadBytesAt(buf, len.pos, len.value).value;
      assert |name.value| <= len.value;
      ReadNamesBounded(buf, name.pos, count - 1, acc + [name.value]);
    }
  }

  /**
   * The entry loop from entry i on, when it succeeds, lists the table's
   * remaining names in table order after those already added, all distinct.
   */
  lemma {:induction false} ParseEntriesResult(buf: seq<byte>, region: seq<byte>, t: Tables, i: nat, pos: nat,
                                              acc: seq<Entry>, es: seq<Entry>)
    requires t.Parallel() && i <= |t.names| && DistinctNames(acc)
    requires ParseEntries(buf, region, t, i, pos, acc) == Ok(es)
    ensures DistinctNames(es) && Names(es) == Names(acc) + t.names[i..]
    decreases |t.names| - i
  {
    if i == |t.names| {
      assert t.names[i..] == [];
    } else {
      var e := ReadEntry(buf, region, t, i, pos).value;
      assert e.value.name == t.names[i];
      DistinctSnoc(acc, e.value);
      ParseEntriesResult(buf, region, t, i + 1, e.pos, acc + [e.value], es);
      assert t.names[i..] == [t.names[i]] + t.names[i + 1..];
    }
  }

  /** The tables read successfully: names at most int32-long, one per entry. */
  lemma {:induction false} ReadTablesBounded(buf: seq<byte>, pos: nat, count: nat)
    requires ReadTables(buf, pos, count).Ok?
    ensures forall k :: 0 <= k < |ReadTables(buf, pos, count).value.value.names| ==>
      |ReadTables(buf, pos, count).value.value.names[k]| <= MaxInt32
  {
    ReadNamesBounded(buf, pos, count, []);
  }

  /** A successful data region stage lists the table's names in order, all distinct. */
  lemma {:induction false} RegionValid(buf: seq<byte>, dataLength: int32, t: Tables, start: nat, es: seq<Entry>)
    requires t.Parallel() && ParseRegion(buf, dataLength, t, start) == Ok(es)
    ensures DistinctNames(es) && Names(es) == t.names
  {
    var region := buf[start..start + dataLength as int];
    assert ParseEntries(buf, region, t, 0, start, []) == Ok(es);
    ParseEntriesResult(buf, region, t, 0, start, [], es);
    assert Names([]) + t.names[0..] == t.names;
  }

  /** A successful stage after the header: distinct names, each at most int32-long, at most int32 of them. */
  lemma {:induction false} BodyValid(buf: seq<byte>, h: Header, es: seq<Entry>)
    requires ParseBody(buf, h) == Ok(es)
    ensures DistinctNames(es) && NamesFit(es) && |es| <= MaxInt32
  {
    var t := ReadTables(buf, h.pos, h.count as nat).value;
    ReadTablesBounded(buf, h.pos, h.count as nat);
    RegionValid(buf, h.dataLength, t.value, t.pos, es);
    forall k | 0 <= k < |es| ensures |es[k].name| <= MaxInt32 {
      assert es[k].name == Names(es)[k];
    }
  }

  /**
   * A successful parse yields entries with distinct names, in the order of
   * the name table, no more than int32 of them, each name at most
   * int32-long, whose data length and whole serialised form fit in an
   * int: everything ToBytes needs to write them back.
   */
  lemma {:induction false} ParseValid(buf: seq<byte>, es: seq<Entry>)
    requires Parse(buf) == Ok(es)
    ensures DistinctNames(es) && NamesFit(es) && |es| <= MaxInt32
    ensures ReadHeader(buf).Ok? && ReadHeader(buf).value.count as int == |es| && ReadHeader(buf).value.pos == 12
    ensures ReadTables(buf, 12, |es|).Ok? && Names(es) == ReadTables(buf, 12, |es|).value.value.names
    ensures Fits(es) && |Serialize(es)| <= MaxInt32
  {
    var h := ReadHeader(buf).value;
    BodyValid(buf, h, es);
    var t := ReadTables(buf, h.pos, h.count as nat).value;
    ParseSound(buf, h, t.value, t.pos, es);
    ParsedWritable(buf, h, t.value, t.pos, es);
  }

  /** A buffer too short for the three header words fails with EndOfStream. */
  lemma {:induction false} ParseShortHeader(buf: seq<byte>)
    requires |buf| < 12
    ensures Parse(buf) == Err(EndOfStream)
  {
    if |buf| >= 8 {
      ReadInt32ShortFails(buf, 8);
    } else if |buf| >= 4 {
      ReadInt32ShortFails(buf, 4);
    } else {
      ReadInt32ShortFails(buf, 0);
    }
  }

  /** A header whose entry count is negative fails with Overflow, before any table is read. */
  lemma {:induction false} ParseNegativeCount(buf: seq<byte>)
    requires ReadHeader(buf).Ok? && ReadHeader(buf).value.count < 0
    ensures Parse(buf) == Err(Overflow)
  {
  }

  // ---- exactly what the parsing constructor accepts, on any buffer ----

  /**
   * Where block k starts, counted from the start of the data region: every
   * earlier pass moved the stream past a length word and its listed size.
   */
  function BlockOffset(t: Tables, k: nat): int
    requires t.Parallel() && k <= |t.names|
  {
    if k == 0 then 0 else BlockOffset(t, k - 1) + 4 + t.sizes[k - 1] as int
  }

  lemma {:induction false} BlockOffsetNonNegative(t: Tables, k: nat)
    requires t.Parallel() && k <= |t.names|
    requires forall j :: 0 <= j < k ==> 0 <= t.sizes[j]
    ensures 0 <= BlockOffset(t, k)
  {
    if k > 0 {
      BlockOffsetNonNegative(t, k - 1);
    }
  }

  /**
   * The entry loop from pass i on, with the stream at block i and the first
   * i entries added, succeeds only when every remaining pass k accepts its
   * entry at block k; the entries come after those already added.
   */
  lemma {:induction false} ParseEntriesAccepts(buf: seq<byte>, region: seq<byte>, t: Tables, start: nat, i: nat, pos: nat,
                                               acc: seq<Entry>, es: seq<Entry>)
    requires t.Parallel() && i <= |t.names| && pos as int == start + BlockOffset(t, i) && |acc| == i
    requires ParseEntries(buf, region, t, i, pos, acc) == Ok(es)
    ensures |es| == |t.names| && es[..i] == acc
    ensures AcceptedFrom(buf, region, t, start, es, i)
    decreases |t.names| - i
  {
    if i < |t.names| {
      var r := ReadEntry(buf, region, t, i, pos).value;
      ReadEntryAccepts(buf, region, t, i, pos, r.value, r.pos);
      assert r.pos as int == start + BlockOffset(t, i + 1);
      ParseEntriesAccepts(buf, region, t, start, i + 1, r.pos, acc + [r.value], es);
      PrefixSnoc(es, acc, r.value);
      AcceptedFromStep(buf, region, t, start, es, i);
    }
  }

  /** Pass i accepting its entry extends what the passes after it accept. */
  lemma {:induction false} AcceptedFromStep(buf: seq<byte>, region: seq<byte>, t: Tables, start: nat, es: seq<Entry>, i: nat)
    requires t.Parallel() && |es| == |t.names| && i < |es|
    requires Accepts(buf, region, t, i, start + BlockOffset(t, i), es[i])
    requires AcceptedFrom(buf, region, t, start, es, i + 1)
    ensures AcceptedFrom(buf, region, t, start, es, i)
  {
  }

  /** What the passes from i on accept, for one pass k. */
  lemma {:induction false} AcceptedAt(buf: seq<byte>, region: seq<byte>, t: Tables, start: nat, es: seq<Entry>, i: nat, k: nat)
    requires t.Parallel() && |es| == |t.names| && i <= k < |es|
    requires AcceptedFrom(buf, region, t, start, es, i)
    ensures Accepts(buf, region, t, k, start + BlockOffset(t, k), es[k])
  {
  }

  /**
   * What the parsing constructor checks, given the data length of the header
   * and the tables t that end at start: the data region lies inside the
   * buffer, there is one entry per listed name, the names are distinct, and
   * every pass k accepts entry k at block k.
   */
  predicate Parsed(buf: seq<byte>, dataLength: int32, t: Tables, start: nat, es: seq<Entry>)
    requires t.Parallel()
  {
    && 0 <= dataLength && start + dataLength as int <= |buf|
    && |es| == |t.names| && DistinctNames(es)
    && AcceptedFrom(buf, buf[start..start + dataLength as int], t, start, es, 0)
  }

  /** Every pass from i on accepts its entry at its block, with the region starting at stream position start. */
  predicate AcceptedFrom(buf: seq<byte>, region: seq<byte>, t: Tables, start: nat, es: seq<Entry>, i: nat)
    requires t.Parallel() && |es| == |t.names|
  {
    forall k :: i <= k < |es| ==> Accepts(buf, region, t, k, start + BlockOffset(t, k), es[k])
  }

  /** Once the header and the tables are read, the parse is the region stage over them. */
  lemma {:induction false} ParseAfterTables(buf: seq<byte>, h: Header, t: Tables, start: nat)
    requires ReadHeader(buf) == Ok(h) && 0 <= h.count
    requires ReadTables(buf, h.pos, h.count as nat) == Ok(Read(t, start))
    ensures t.Parallel() && |t.names| == h.count as int
    ensures Parse(buf) == ParseRegion(buf, h.dataLength, t, start)
  {
  }

  /** A successful region stage passes every check, with the names in table order. */
  lemma {:induction false} RegionSound(buf: seq<byte>, dataLength: int32, t: Tables, start: nat, es: seq<Entry>)
    requires t.Parallel() && ParseRegion(buf, dataLength, t, start) == Ok(es)
    ensures Parsed(buf, dataLength, t, start, es) && Names(es) == t.names
  {
    assert 0 <= dataLength && start + dataLength as int <= |buf|;
    var region := buf[start..start + dataLength as int];
    var none: seq<Entry> := [];
    assert ParseEntries(buf, region, t, 0, start, none) == Ok(es);
    ParseEntriesAccepts(buf, region, t, start, 0, start, none, es);
    ParseEntriesResult(buf, region, t, 0, start, none, es);
    assert Names(none) + t.names[0..] == t.names;
  }

  /** Entries that every pass accepts at its block, under distinct names, are what the entry loop yields. */
  lemma {:induction false} EntryLoopComplete(buf: seq<byte>, region: seq<byte>, t: Tables, start: nat, es: seq<Entry>)
    requires t.Parallel() && |es| == |t.names| && DistinctNames(es)
    requires AcceptedFrom(buf, region, t, start, es, 0)
    ensures ParseEntries(buf, region, t, 0, start, []) == Ok(es)
  {
    forall j | 0 <= j < |es| ensures 0 <= t.sizes[j] {
      AcceptedAt(buf, region, t, start, es, 0, j);
    }
    forall k | 0 <= k <= |es| ensures 0 <= BlockOffset(t, k) {
      BlockOffsetNonNegative(t, k);
    }
    var poss := seq(|es| + 1, k requires 0 <= k <= |es| => (start + BlockOffset(t, k)) as nat);
    AcceptedReads(buf, region, t, start, es, poss);
    forall k | 0 <= k < |es| ensures es[k].name !in Names(es[..k]) {
      NameFresh(es, k);
    }
    ParseEntriesFrom(buf, region, t, es, poss, 0);
    assert es[..0] == [];
  }

  /**
   * With poss the block positions, every pass of an accepted entry list
   * reads its entry from its block to the next, and no block ends past
   * int.MaxValue.
   */
  lemma {:induction false} AcceptedReads(buf: seq<byte>, region: seq<byte>, t: Tables, start: nat, es: seq<Entry>, poss: seq<nat>)
    requires t.Parallel() && |es| == |t.names| && AcceptedFrom(buf, region, t, start, es, 0)
    requires |poss| == |es| + 1 && forall k :: 0 <= k <= |es| ==> poss[k] == start + BlockOffset(t, k)
    ensures forall k :: 0 <= k < |es| ==> ReadEntry(buf, region, t, k, poss[k]) == Ok(Read(es[k], poss[k + 1]))
    ensures forall k :: 0 < k <= |es| ==> poss[k] <= MaxInt32
  {
    forall k | 0 <= k < |es|
      ensures ReadEntry(buf, region, t, k, poss[k]) == Ok(Read(es[k], poss[k + 1]))
    {
      AcceptedAt(buf, region, t, start, es, 0, k);
      ReadEntryAccepts(buf, region, t, k, poss[k], es[k], poss[k + 1]);
    }
    forall k | 0 < k <= |es| ensures poss[k] <= MaxInt32 {
      AcceptedAt(buf, region, t, start, es, 0, k - 1);
    }
  }

  /** An entry list that passes every check is what the region stage yields. */
  lemma {:induction false} RegionComplete(buf: seq<byte>, dataLength: int32, t: Tables, start: nat, es: seq<Entry>)
    requires t.Parallel() && Parsed(buf, dataLength, t, start, es)
    ensures ParseRegion(buf, dataLength, t, start) == Ok(es)
  {
    EntryLoopComplete(buf, buf[start..start + dataLength as int], t, start, es);
  }

  /** Every successful parse passes every check of the parsing constructor, and lists the names in table order. */
  lemma {:induction false} ParseSound(buf: seq<byte>, h: Header, t: Tables, start: nat, es: seq<Entry>)
    requires ReadHeader(buf) == Ok(h) && 0 <= h.count
    requires ReadTables(buf, h.pos, h.count as nat) == Ok(Read(t, start))
    requires Parse(buf) == Ok(es)
    ensures t.Parallel() && Parsed(buf, h.dataLength, t, start, es) && Names(es) == t.names
  {
    ParseAfterTables(buf, h, t, start);
    RegionSound(buf, h.dataLength, t, start, es);
  }

  /** Every entry list that passes every check of the parsing constructor is what it yields. */
  lemma {:induction false} ParseComplete(buf: seq<byte>, h: Header, t: Tables, start: nat, es: seq<Entry>)
    requires ReadHeader(buf) == Ok(h) && 0 <= h.count
    requires ReadTables(buf, h.pos, h.count as nat) == Ok(Read(t, start))
    requires t.Parallel() && Parsed(buf, h.dataLength, t, start, es)
    ensures Parse(buf) == Ok(es)
  {
    ParseAfterTables(buf, h, t, start);
    RegionComplete(buf, h.dataLength, t, start, es);
  }

  /**
   * Given the header and the tables a buffer starts with, an entry list is
   * the parse of the buffer exactly when it passes every check of the
   * parsing constructor.
   */
  lemma {:induction false} ParseExactly(buf: seq<byte>, h: Header, t: Tables, start: nat, es: seq<Entry>)
    requires ReadHeader(buf) == Ok(h) && 0 <= h.count
    requires ReadTables(buf, h.pos, h.count as nat) == Ok(Read(t, start))
    ensures t.Parallel()
    ensures Parse(buf) == Ok(es) <==> Parsed(buf, h.dataLength, t, start, es)
  {
    ParseAfterTables(buf, h, t, start);
    if Parse(buf) == Ok(es) {
      ParseSound(buf, h, t, start, es);
    }
    if Parsed(buf, h.dataLength, t, start, es) {
      ParseComplete(buf, h, t, start, es);
    }
  }

  /** What a successful parse says about pass k, stated so that a failing check can be read off. */
  lemma {:induction false} ParseChecksPass(buf: seq<byte>, h: Header, t: Tables, start: nat, k: nat)
    requires ReadHeader(buf) == Ok(h) && 0 <= h.count
    requires ReadTables(buf, h.pos, h.count as nat) == Ok(Read(t, start))
    requires k < |t.names|
    ensures Parse(buf).Ok? ==>
      && 0 <= h.dataLength && start + h.dataLength as int <= |buf|
      && |Parse(buf).value| == |t.names| && Names(Parse(buf).value) == t.names
      && (forall i, j :: 0 <= i < j < |t.names| ==> t.names[i] != t.names[j])
      && Accepts(buf, buf[start..start + h.dataLength as int], t, k, start + BlockOffset(t, k), Parse(buf).value[k])
  {
    if Parse(buf).Ok? {
      var es := Parse(buf).value;
      ParseSound(buf, h, t, start, es);
      AcceptedAt(buf, buf[start..start + h.dataLength as int], t, start, es, 0, k);
      forall i, j | 0 <= i < j < |t.names| ensures t.names[i] != t.names[j] {
        assert Names(es)[i] == es[i].name && Names(es)[j] == es[j].name;
      }
    }
  }

  /** An entry whose flag has bit 0 set (compressed) makes the parse fail. */
  lemma {:induction false} ParseRejectsCompressed(buf: seq<byte>, h: Header, t: Tables, start: nat, k: nat)
    requires ReadHeader(buf) == Ok(h) && 0 <= h.count
    requires ReadTables(buf, h.pos, h.count as nat) == Ok(Read(t, start))
    requires k < |t.names| && k < |t.flags| && t.flags[k] & 1 != 0
    ensures Parse(buf).Err?
  {
    ParseChecksPass(buf, h, t, start, k);
  }

  /** A length word at block k that is not the listed size of entry k makes the parse fail. */
  lemma {:induction false} ParseRejectsSizeMismatch(buf: seq<byte>, h: Header, t: Tables, start: nat, k: nat)
    requires ReadHeader(buf) == Ok(h) && 0 <= h.count
    requires ReadTables(buf, h.pos, h.count as nat) == Ok(Read(t, start))
    requires k < |t.names| && 0 <= start + BlockOffset(t, k)
    requires ReadInt32At(buf, start + BlockOffset(t, k)) != Ok(Read(t.sizes[k], start + BlockOffset(t, k) + 4))
    ensures Parse(buf).Err?
  {
    ParseChecksPass(buf, h, t, start, k);
  }

  /** A slice for entry k that does not lie inside the data region makes the parse fail. */
  lemma {:induction false} ParseRejectsSliceOutside(buf: seq<byte>, h: Header, t: Tables, start: nat, k: nat)
    requires ReadHeader(buf) == Ok(h) && 0 <= h.count
    requires ReadTables(buf, h.pos, h.count as nat) == Ok(Read(t, start))
    requires k < |t.names|
    requires t.offsets[k] as int + 4 < 0 || t.sizes[k] < 0 || t.offsets[k] as int + 4 + t.sizes[k] as int > h.dataLength as int
    ensures Parse(buf).Err?
  {
    ParseChecksPass(buf, h, t, start, k);
  }

  /** A data region with a negative length, or one that runs past the end of the buffer, makes the parse fail. */
  lemma {:induction false} ParseRejectsShortRegion(buf: seq<byte>, h: Header, t: Tables, start: nat)
    requires ReadHeader(buf) == Ok(h) && 0 <= h.count
    requires ReadTables(buf, h.pos, h.count as nat) == Ok(Read(t, start))
    requires h.dataLength < 0 || start + h.dataLength as int > |buf|
    ensures Parse(buf) == Err(ArgumentOutOfRange)
  {
    ParseAfterTables(buf, h, t, start);
  }

  /** Two listed entries with the same name make the parse fail. */
  lemma {:induction false} ParseRejectsDuplicate(buf: seq<byte>, h: Header, t: Tables, start: nat, j: nat, k: nat)
    requires ReadHeader(buf) == Ok(h) && 0 <= h.count
    requires ReadTables(buf, h.pos, h.count as nat) == Ok(Read(t, start))
    requires j < k < |t.names| && t.names[j] == t.names[k]
    ensures Parse(buf).Err?
  {
    ParseChecksPass(buf, h, t, start, k);
  }

  /**
   * A block k whose skip would move the stream past int.MaxValue makes the
   * parse fail, even though the data slices come from the offset table.
   */
  lemma {:induction false} ParseRejectsPastPositionCap(buf: seq<byte>, h: Header, t: Tables, start: nat, k: nat)
    requires ReadHeader(buf) == Ok(h) && 0 <= h.count
    requires ReadTables(buf, h.pos, h.count as nat) == Ok(Read(t, start))
    requires k < |t.names| && start + BlockOffset(t, k + 1) > MaxInt32
    ensures Parse(buf).Err?
  {
    ParseChecksPass(buf, h, t, start, k);
  }

  // ---- a parsed archive can be written back ----

  /** The byte length of a name table holding the names ns: a length word and the bytes of each. */
  function NameTableLength(ns: seq<Name>): nat
  {
    if ns == [] then 0 else 4 + |ns[0]| + NameTableLength(ns[1..])
  }

  /** The serialiser's name table has the length of its names' records. */
  lemma {:induction false} NameTableLengthOf(es: seq<Entry>)
    requires NamesFit(es)
    ensures |NameTable(es)| == NameTableLength(Names(es))
    decreases |es|
  {
    if es != [] {
      NamesCons(es);
      NameTableLengthOf(es[1..]);
      assert Names(es)[1..] == Names(es[1..]);
    }
  }

  /**
   * The name loop keeps the names already read and moves the stream past a
   * length word and the bytes of each name it reads, however short.
   */
  lemma {:induction false} ReadNamesEnd(buf: seq<byte>, pos: nat, count: nat, acc: seq<Name>)
    requires ReadNames(buf, pos, count, acc).Ok?
    ensures |acc| <= |ReadNames(buf, pos, count, acc).value.value|
    ensures ReadNames(buf, pos, count, acc).value.value[..|acc|] == acc
    ensures ReadNames(buf, pos, count, acc).value.pos
         == pos + NameTableLength(ReadNames(buf, pos, count, acc).value.value[|acc|..])
    decreases count
  {
    var r := ReadNames(buf, pos, count, acc).value;
    if count == 0 {
      assert r.value[|acc|..] == [];
    } else {
      var len := ReadInt32At(buf, pos).value;
      var name := ReadBytesAt(buf, len.pos, len.value).value;
      assert name.pos == pos + 4 + |name.value|;
      ReadNamesEnd(buf, name.pos, count - 1, acc + [name.value]);
      PrefixSnoc(r.value, acc, name.value);
      assert r.value[|acc|..][1..] == r.value[|acc| + 1..];
    }
  }

  /** The word loop moves the stream four bytes per word. */
  lemma {:induction false} ReadInt32sEnd(buf: seq<byte>, pos: nat, count: nat, acc: seq<int32>)
    requires ReadInt32s(buf, pos, count, acc).Ok?
    ensures ReadInt32s(buf, pos, count, acc).value.pos == pos + 4 * count
    decreases count
  {
    if count > 0 {
      var w := ReadInt32At(buf, pos).value;
      ReadInt32sEnd(buf, w.pos, count - 1, acc + [w.value]);
    }
  }

  /**
   * The four tables read hold at most count flags; with all count of them,
   * they end past the name records, two words and one flag per entry.
   */
  lemma {:induction false} ReadTablesEnd(buf: seq<byte>, pos: nat, count: nat)
    requires ReadTables(buf, pos, count).Ok?
    ensures |ReadTables(buf, pos, count).value.value.flags| <= count
    ensures |ReadTables(buf, pos, count).value.value.flags| == count ==>
      ReadTables(buf, pos, count).value.pos == pos + NameTableLength(ReadTables(buf, pos, count).value.value.names) + 9 * count
  {
    var names := ReadNames(buf, pos, count, []).value;
    ReadNamesEnd(buf, pos, count, []);
    assert names.value[0..] == names.value;
    var offsets := ReadInt32s(buf, names.pos, count, []).value;
    ReadInt32sEnd(buf, names.pos, count, []);
    var sizes := ReadInt32s(buf, offsets.pos, count, []).value;
    ReadInt32sEnd(buf, offsets.pos, count, []);
  }

  /** When each listed size is its entry's, block k starts where the first k entries' blocks end. */
  lemma {:induction false} DataLengthBlocks(t: Tables, es: seq<Entry>, k: nat)
    requires t.Parallel() && |es| == |t.names| && k <= |es|
    requires forall j :: 0 <= j < k ==> es[j].Size() == t.sizes[j] as int
    ensures DataLength(es[..k]) == BlockOffset(t, k)
  {
    if k == 0 {
      assert es[..0] == [];
    } else {
      DataLengthBlocks(t, es, k - 1);
      DataLengthSnoc(es, k - 1);
    }
  }

  /**
   * Entries that pass every check have the data length of the blocks the
   * entry loop skipped, which end within int.MaxValue, and one flag each.
   */
  lemma {:induction false} ParsedBlocks(buf: seq<byte>, dataLength: int32, t: Tables, start: nat, es: seq<Entry>)
    requires t.Parallel() && Parsed(buf, dataLength, t, start, es)
    ensures DataLength(es) == BlockOffset(t, |es|)
    ensures |es| <= |t.flags| && (|es| > 0 ==> start + BlockOffset(t, |es|) <= MaxInt32)
  {
    var region := buf[start..start + dataLength as int];
    var n := |es|;
    forall j | 0 <= j < n ensures es[j].Size() == t.sizes[j] as int {
      AcceptedAt(buf, region, t, start, es, 0, j);
    }
    DataLengthBlocks(t, es, n);
    assert es[..n] == es;
    if n > 0 {
      AcceptedAt(buf, region, t, start, es, 0, n - 1);
    }
  }

  /**
   * What a successful parse yields, written back by the serialiser, stays
   * within int.MaxValue bytes: the tables take what they took in the
   * buffer, and the blocks end where the last skip left the stream.
   */
  lemma {:induction false} ParsedWritable(buf: seq<byte>, h: Header, t: Tables, start: nat, es: seq<Entry>)
    requires ReadHeader(buf) == Ok(h) && 0 <= h.count
    requires ReadTables(buf, h.pos, h.count as nat) == Ok(Read(t, start))
    requires Parse(buf) == Ok(es)
    ensures Fits(es) && |Serialize(es)| <= MaxInt32
  {
    var n := |es|;
    BodyValid(buf, h, es);
    ParseSound(buf, h, t, start, es);
    ParsedBlocks(buf, h.dataLength, t, start, es);
    assert Fits(es);
    ReadTablesEnd(buf, h.pos, n);
    assert start == 12 + NameTableLength(t.names) + 9 * n;
    NameTableLengthOf(es);
    assert DataStart(es) == start;
    SerializedLayoutData(es);
  }
}
