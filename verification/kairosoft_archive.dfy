/**
 * KairosoftArchive: an ordered dictionary of named entries that is read
 * from and written to the archive layout, optionally obfuscated with a
 * repeating XOR key.
 */
module Kairosoft {
  import opened Wrappers
  import opened BigEndian
  import opened KeystreamCipher
  import opened ArchiveFormat
  import opened ArchiveProperties
  import opened ArchiveIO

  // ---- the optional key ----

  /**
   * The key step of both directions (KairosoftArchive.cs:29-32 and :126):
   * no key leaves the bytes alone, a key XORs them, and an empty key fails
   * with DivideByZero on the first byte (i % 0), so only when there is a byte.
   */
  function ApplyKey(data: seq<byte>, key: Option<seq<byte>>): Result<seq<byte>>
  {
    match key
    case None => Ok(data)
    case Some(k) =>
      if |k| > 0 then Ok(Crypt(data, k))
      else if |data| == 0 then Ok(data)
      else Err(DivideByZero)
  }

  /** The key step undoes itself: applied to its own output it gives back the input. */
  lemma ApplyKeyInverse(data: seq<byte>, key: Option<seq<byte>>)
    requires ApplyKey(data, key).Ok?
    ensures |ApplyKey(data, key).value| == |data|
    ensures ApplyKey(ApplyKey(data, key).value, key) == Ok(data)
  {
    if key.Some? && |key.value| > 0 {
      CryptInvolution(data, key.value);
    }
  }

  /** `if (key != null) CryptBytes(data, key)` on a buffer that is changed in place. */
  method ApplyKeyInPlace(data: array<byte>, key: Option<seq<byte>>) returns (r: Result<()>)
    modifies data
    ensures r.Ok? <==> ApplyKey(old(data[..]), key).Ok?
    ensures r.Ok? ==> data[..] == ApplyKey(old(data[..]), key).value
    ensures r.Err? ==> r.error == ApplyKey(old(data[..]), key).error && data[..] == old(data[..])
  {
    r := Ok(());
    match key {
      case None =>
      case Some(k) =>
        if |k| > 0 {
          CryptBytes(data, k);
        } else if data.Length > 0 {
          r := Err(DivideByZero);
        }
    }
  }

  // ---- the two directions as functions ----

  /** The parsing constructor: the key step on the buffer, then the parse. */
  function LoadSpec(data: seq<byte>, key: Option<seq<byte>>): Result<seq<Entry>>
  {
    var plain :- ApplyKey(data, key);
    Parse(plain)
  }

  /**
   * ToBytes (KairosoftArchive.cs:82-129): the data length is a checked int
   * sum, so a total past int.MaxValue fails with Overflow; a layout longer
   * than a MemoryStream can hold fails with StreamTooLong; otherwise the
   * layout, then the key step.
   */
  function ToBytesSpec(es: seq<Entry>, key: Option<seq<byte>>): Result<seq<byte>>
    requires NamesFit(es) && |es| <= MaxInt32
  {
    if DataLength(es) > MaxInt32 then Err(Overflow)
    else if |Serialize(es)| > MaxInt32 then Err(StreamTooLong)
    else ApplyKey(Serialize(es), key)
  }

  /**
   * ToBytes fails exactly on an overflowing data length, an output past
   * int.MaxValue bytes, or an empty key (the output is never empty), and
   * in that order of precedence.
   */
  lemma ToBytesFails(es: seq<Entry>, key: Option<seq<byte>>)
    requires NamesFit(es) && |es| <= MaxInt32
    ensures ToBytesSpec(es, key).Err? <==> DataLength(es) > MaxInt32 || |Serialize(es)| > MaxInt32 || key == Some([])
    ensures ToBytesSpec(es, key).Err? ==>
      ToBytesSpec(es, key).error
      == (if DataLength(es) > MaxInt32 then Overflow else if |Serialize(es)| > MaxInt32 then StreamTooLong else DivideByZero)
  {
    if DataLength(es) <= MaxInt32 {
      assert |Serialize(es)| >= 12;
    }
  }

  /**
   * What ToBytes writes, loaded with the same key, gives back the same
   * entries in the same order.
   */
  lemma LoadToBytes(es: seq<Entry>, key: Option<seq<byte>>)
    requires DistinctNames(es) && NamesFit(es) && |es| <= MaxInt32
    requires ToBytesSpec(es, key).Ok?
    ensures LoadSpec(ToBytesSpec(es, key).value, key) == Ok(es)
  {
    ApplyKeyInverse(Serialize(es), key);
    ParseSerialize(es);
  }

  /**
   * A successful load yields distinct names, and entries whose data length
   * and whole layout fit in an int, so that ToBytes can write them back.
   */
  lemma LoadValid(data: seq<byte>, key: Option<seq<byte>>)
    requires LoadSpec(data, key).Ok?
    ensures DistinctNames(LoadSpec(data, key).value)
    ensures Fits(LoadSpec(data, key).value) && |Serialize(LoadSpec(data, key).value)| <= MaxInt32
  {
    ParseValid(ApplyKey(data, key).value, LoadSpec(data, key).value);
  }

  /**
   * An archive loaded with a key is written back by ToBytes with the same
   * key, and that output loads to the same entries again.
   */
  lemma {:induction false} LoadWriteBack(data: seq<byte>, key: Option<seq<byte>>)
    requires LoadSpec(data, key).Ok?
    ensures NamesFit(LoadSpec(data, key).value) && |LoadSpec(data, key).value| <= MaxInt32
    ensures ToBytesSpec(LoadSpec(data, key).value, key).Ok?
    ensures LoadSpec(ToBytesSpec(LoadSpec(data, key).value, key).value, key) == LoadSpec(data, key)
  {
    var es := LoadSpec(data, key).value;
    LoadValid(data, key);
    if key == Some([]) {
      ParseShortHeader([]);
      assert false;
    }
    ToBytesFails(es, key);
    LoadToBytes(es, key);
  }

  // ---- the ordered dictionary ----

  /** The position of name in es, or |es| when it is absent. */
  function IndexOf(es: seq<Entry>, name: Name): (i: nat)
    ensures i <= |es|
    ensures i < |es| ==> es[i].name == name
    ensures forall k :: 0 <= k < i ==> es[k].name != name
    decreases |es|
  {
    if es == [] then 0
    else if es[0].name == name then 0
    else 1 + IndexOf(es[1..], name)
  }

  /** IndexOf is the first position holding name: any such position is the one it returns. */
  lemma {:induction false} IndexOfIs(es: seq<Entry>, name: Name, i: nat)
    requires i <= |es| && (i < |es| ==> es[i].name == name)
    requires forall k :: 0 <= k < i ==> es[k].name != name
    ensures IndexOf(es, name) == i
  {
  }

  /** `this[string name]`: the entry under name, or KeyNotFound. */
  function Lookup(es: seq<Entry>, name: Name): (r: Result<Entry>)
    ensures r.Ok? <==> name in Names(es)
    ensures r.Ok? ==> r.value.name == name && r.value in es
    ensures r.Err? ==> r.error == KeyNotFound
  {
    var i := IndexOf(es, name);
    if i < |es| then
      assert Names(es)[i] == name;
      Ok(es[i])
    else
      assert forall k :: 0 <= k < |es| ==> Names(es)[k] != name;
      Err(KeyNotFound)
  }

  /** `this[int index]`: the entry at a position, or ArgumentOutOfRange. */
  function ElementAt(es: seq<Entry>, index: int): (r: Result<Entry>)
    ensures r.Ok? <==> 0 <= index < |es|
    ensures r.Ok? ==> r.value == es[index]
    ensures r.Err? ==> r.error == ArgumentOutOfRange
  {
    if 0 <= index < |es| then Ok(es[index]) else Err(ArgumentOutOfRange)
  }

  /** With distinct names the two indexers agree: the entry at a position is the entry under its name. */
  lemma {:induction false} LookupElementAt(es: seq<Entry>, index: int)
    requires DistinctNames(es) && 0 <= index < |es|
    ensures Lookup(es, es[index].name) == ElementAt(es, index)
  {
    IndexOfIs(es, es[index].name, index);
  }

  /** `files[name] = entry` (KairosoftArchive.cs:133): replace in place when the name is present, otherwise append. */
  function Upsert(es: seq<Entry>, name: Name, data: seq<byte>): seq<Entry>
  {
    var i := IndexOf(es, name);
    if i < |es| then es[i := Entry(name, data)] else es + [Entry(name, data)]
  }

  /** Replacing the entry at the position of its own name changes no key and no other entry. */
  lemma {:induction false} UpsertReplace(es: seq<Entry>, name: Name, data: seq<byte>)
    requires DistinctNames(es) && IndexOf(es, name) < |es|
    ensures name in Names(es)
    ensures DistinctNames(Upsert(es, name, data))
    ensures Lookup(Upsert(es, name, data), name) == Ok(Entry(name, data))
    ensures forall n :: n != name ==> Lookup(Upsert(es, name, data), n) == Lookup(es, n)
  {
    var u := Upsert(es, name, data);
    var i := IndexOf(es, name);
    assert Names(es)[i] == name;
    assert forall k :: 0 <= k < |es| ==> u[k].name == es[k].name;
    IndexOfIs(u, name, i);
    forall n | n != name ensures Lookup(u, n) == Lookup(es, n) {
      IndexOfIs(u, n, IndexOf(es, n));
    }
  }

  /** Appending an entry under a new name keeps every other lookup. */
  lemma {:induction false} UpsertAppend(es: seq<Entry>, name: Name, data: seq<byte>)
    requires DistinctNames(es) && IndexOf(es, name) == |es|
    ensures name !in Names(es)
    ensures DistinctNames(Upsert(es, name, data))
    ensures Lookup(Upsert(es, name, data), name) == Ok(Entry(name, data))
    ensures forall n :: n != name ==> Lookup(Upsert(es, name, data), n) == Lookup(es, n)
  {
    var e := Entry(name, data);
    var u := es + [e];
    assert forall k :: 0 <= k < |es| ==> Names(es)[k] != name;
    DistinctSnoc(es, e);
    IndexOfIs(u, name, |es|);
    forall n | n != name ensures Lookup(u, n) == Lookup(es, n) {
      var j := IndexOf(es, n);
      if j < |es| {
        IndexOfIs(u, n, j);
      } else {
        IndexOfIs(u, n, |es| + 1);
      }
    }
  }

  /**
   * After an upsert, name maps to the new entry, every other name maps to
   * what it did before, the names stay distinct, an existing name keeps
   * its position and a new one goes last.
   */
  lemma {:induction false} UpsertSpec(es: seq<Entry>, name: Name, data: seq<byte>)
    requires DistinctNames(es)
    ensures DistinctNames(Upsert(es, name, data))
    ensures Lookup(Upsert(es, name, data), name) == Ok(Entry(name, data))
    ensures forall n :: n != name ==> Lookup(Upsert(es, name, data), n) == Lookup(es, n)
    ensures name in Names(es) ==> Upsert(es, name, data) == es[IndexOf(es, name) := Entry(name, data)]
    ensures name !in Names(es) ==> Upsert(es, name, data) == es + [Entry(name, data)]
  {
    if IndexOf(es, name) < |es| {
      UpsertReplace(es, name, data);
    } else {
      UpsertAppend(es, name, data);
    }
  }

  /** An upsert of a name that fits keeps every name within int32 and adds at most one entry. */
  lemma {:induction false} UpsertFits(es: seq<Entry>, name: Name, data: seq<byte>)
    requires NamesFit(es) && |name| <= MaxInt32
    ensures NamesFit(Upsert(es, name, data))
    ensures |Upsert(es, name, data)| == if IndexOf(es, name) < |es| then |es| else |es| + 1
  {
    var u := Upsert(es, name, data);
    forall k | 0 <= k < |u| ensures |u[k].name| <= MaxInt32 {
      if k < |es| && u[k] != Entry(name, data) {
        assert u[k] == es[k];
      }
    }
  }

  // ---- the class ----

  class KairosoftArchive {
    /** The ordered dictionary: entries in insertion order, keyed by name. */
    var files: seq<Entry>

    /** Distinct keys, and names and a count that ToBytes can write as int32 values. */
    ghost predicate Valid()
      reads this
    {
      DistinctNames(files) && NamesFit(files) && |files| <= MaxInt32
    }

    /** The empty archive. */
    constructor ()
      ensures files == [] && Valid()
    {
      files := [];
    }

    /**
     * The parsing constructor: the key step changes the caller's buffer in
     * place, then the buffer is parsed into the entries.
     */
    static method Load(data: array<byte>, key: Option<seq<byte>>) returns (r: Result<KairosoftArchive>)
      modifies data
      ensures ApplyKey(old(data[..]), key).Ok? ==> data[..] == ApplyKey(old(data[..]), key).value
      ensures ApplyKey(old(data[..]), key).Err? ==> data[..] == old(data[..])
      ensures r.Ok? <==> LoadSpec(old(data[..]), key).Ok?
      ensures r.Ok? ==> fresh(r.value) && r.value.Valid() && r.value.files == LoadSpec(old(data[..]), key).value
      ensures r.Err? ==> r.error == LoadSpec(old(data[..]), key).error
    {
      var keyed := ApplyKeyInPlace(data, key);
      if keyed.Err? {
        return Err(keyed.error);
      }
      var es :- ParseBuffer(data[..]);
      ParseValid(data[..], es);
      var archive := new KairosoftArchive();
      archive.files := es;
      r := Ok(archive);
    }

    /** `this[string name]`. */
    function ByName(name: Name): Result<Entry>
      reads this
    {
      Lookup(files, name)
    }

    /** `this[int index]`. */
    function GetAt(index: int): Result<Entry>
      reads this
    {
      ElementAt(files, index)
    }

    /** The layout of the entries, then the key step on a fresh buffer. */
    method ToBytes(key: Option<seq<byte>>) returns (r: Result<seq<byte>>)
      requires Valid()
      ensures r == ToBytesSpec(files, key)
    {
      if DataLength(files) > MaxInt32 {
        return Err(Overflow);
      }
      var bytes := WriteArchive(files);
      if |bytes| > MaxInt32 {
        return Err(StreamTooLong);
      }
      var result := new byte[|bytes|](i requires 0 <= i < |bytes| => bytes[i]);
      assert result[..] == bytes;
      var keyed := ApplyKeyInPlace(result, key);
      if keyed.Err? {
        return Err(keyed.error);
      }
      r := Ok(result[..]);
    }

    /** `files[name] = new ArchiveEntry(name, data)`. */
    method AddFile(name: Name, data: seq<byte>)
      requires Valid() && |name| <= MaxInt32
      requires name in Names(files) || |files| < MaxInt32
      modifies this
      ensures files == Upsert(old(files), name, data) && Valid()
      ensures ByName(name) == Ok(Entry(name, data))
      ensures forall n :: n != name ==> ByName(n) == old(ByName(n))
    {
      UpsertSpec(files, name, data);
      UpsertFits(files, name, data);
      files := Upsert(files, name, data);
    }
  }
}
