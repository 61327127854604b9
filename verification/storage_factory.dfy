/**
 * `StorageFactory`: the in-memory store of records, keyed by primary key,
 * and its snapshot to and from a byte stream.
 *
 * The file behind the snapshot is a parameter: `None` stands for a file that
 * cannot be opened, `Some(bytes)` for its contents.
 */
module StorageFactory {
  import opened Wrappers
  import opened Records

  function NoRecordError(primaryKey: string): string {
    "No record for PRIMARY_KEY=" + primaryKey
  }

  function DuplicateError(primaryKey: string): string {
    "Record for PRIMARY_KEY=" + primaryKey + " already exists"
  }

  /** Every entry is filed under its own record's primary key. */
  ghost predicate KeyedByPrimaryKey(m: map<string, Record>) {
    forall k :: k in m ==> m[k].primaryKey == k
  }

  // ---------------------------------------------------------------------------
  // Lists of records and the maps they make
  // ---------------------------------------------------------------------------

  /** No primary key occurs twice in `rs`. */
  ghost predicate DistinctKeys(rs: seq<Record>) {
    forall i, j :: 0 <= i < j < |rs| ==> rs[i].primaryKey != rs[j].primaryKey
  }

  /** The primary keys occurring in `rs`. */
  ghost function KeysOf(rs: seq<Record>): set<string> {
    set i | 0 <= i < |rs| :: rs[i].primaryKey
  }

  lemma KeysOfCons(rs: seq<Record>)
    requires rs != []
    ensures KeysOf(rs) == {rs[0].primaryKey} + KeysOf(rs[1..])
  {
    var tail := rs[1..];
    forall k | k in KeysOf(rs) ensures k in {rs[0].primaryKey} + KeysOf(tail) {
      var i :| 0 <= i < |rs| && rs[i].primaryKey == k;
      if i > 0 {
        assert tail[i - 1] == rs[i];
      }
    }
    forall k | k in KeysOf(tail) ensures k in KeysOf(rs) {
      var i :| 0 <= i < |tail| && tail[i].primaryKey == k;
      assert rs[i + 1] == tail[i];
    }
  }

  /** Files each record of `rs`, in order, under its primary key, on top of `m`. */
  ghost function AddAll(m: map<string, Record>, rs: seq<Record>): map<string, Record>
    decreases |rs|
  {
    if rs == [] then m else AddAll(m[rs[0].primaryKey := rs[0]], rs[1..])
  }

  lemma {:induction false} AddAllSnoc(m: map<string, Record>, rs: seq<Record>, r: Record)
    ensures AddAll(m, rs + [r]) == AddAll(m, rs)[r.primaryKey := r]
    decreases |rs|
  {
    if rs != [] {
      assert (rs + [r])[1..] == rs[1..] + [r];
      AddAllSnoc(m[rs[0].primaryKey := rs[0]], rs[1..], r);
    }
  }

  /**
   * With distinct keys, `AddAll` files exactly the keys of `m` and of `rs`,
   * each key of `rs` holding its own record, every other key keeping its
   * entry of `m`.
   */
  lemma {:induction false} AddAllContents(m: map<string, Record>, rs: seq<Record>)
    requires DistinctKeys(rs)
    ensures AddAll(m, rs).Keys == m.Keys + KeysOf(rs)
    ensures forall i :: 0 <= i < |rs| ==> AddAll(m, rs)[rs[i].primaryKey] == rs[i]
    ensures forall k :: k in m && k !in KeysOf(rs) ==> AddAll(m, rs)[k] == m[k]
    decreases |rs|
  {
    if rs != [] {
      var m' := m[rs[0].primaryKey := rs[0]];
      var tail := rs[1..];
      AddAllContents(m', tail);
      KeysOfCons(rs);
      forall i | 0 <= i < |rs| ensures AddAll(m, rs)[rs[i].primaryKey] == rs[i] {
        if i > 0 {
          assert tail[i - 1] == rs[i];
        }
      }
    }
  }

  /** A list with distinct keys has as many records as the map it makes has entries. */
  lemma {:induction false} AddAllSize(rs: seq<Record>)
    requires DistinctKeys(rs)
    ensures |AddAll(map[], rs)| == |rs|
    decreases |rs|
  {
    if rs != [] {
      var last := rs[|rs| - 1];
      var init := rs[..|rs| - 1];
      assert rs == init + [last];
      AddAllSnoc(map[], init, last);
      AddAllSize(init);
      AddAllContents(map[], init);
      assert last.primaryKey !in KeysOf(init);
    }
  }

  /**
   * A list with distinct keys that makes `m` lists every record of `m`
   * exactly once: it has one element per entry and each element is the
   * record filed under its own key.
   */
  lemma ListsEachOnce(rs: seq<Record>, m: map<string, Record>)
    requires DistinctKeys(rs) && AddAll(map[], rs) == m
    ensures |rs| == |m|
    ensures forall i :: 0 <= i < |rs| ==> rs[i].primaryKey in m && m[rs[i].primaryKey] == rs[i]
    ensures forall k :: k in m ==> k in KeysOf(rs)
  {
    AddAllSize(rs);
    AddAllContents(map[], rs);
  }

  // ---------------------------------------------------------------------------
  // The store
  // ---------------------------------------------------------------------------

  /** `SimpleStorage`: no duplicates and no updates; a record, once saved, stays until deleted. */
  class SimpleStorage {
    var records: map<string, Record>

    ghost predicate Valid()
      reads this
    {
      KeyedByPrimaryKey(records)
    }

    constructor ()
      ensures Valid() && records == map[]
    {
      records := map[];
    }

    /** `findByPrimaryKey`: the stored record, or an error naming the key; changes nothing. */
    method FindByPrimaryKey(primaryKey: string) returns (r: Result<Record, string>)
      ensures primaryKey in records ==> r == Success(records[primaryKey])
      ensures primaryKey !in records ==> r == Failure(NoRecordError(primaryKey))
    {
      if primaryKey in records {
        r := Success(records[primaryKey]);
      } else {
        r := Failure(NoRecordError(primaryKey));
      }
    }

    /**
     * `delete`: removes the entry under the argument's primary key and
     * returns the record that was stored there, not the argument.
     */
    method Delete(recordToDelete: Record) returns (r: Result<Record, string>)
      requires Valid()
      modifies this
      ensures Valid()
      ensures records == old(records) - {recordToDelete.primaryKey}
      ensures recordToDelete.primaryKey in old(records) ==> r == Success(old(records)[recordToDelete.primaryKey])
      ensures recordToDelete.primaryKey !in old(records) ==> r == Failure(NoRecordError(recordToDelete.primaryKey))
    {
      var primaryKey := recordToDelete.primaryKey;
      if primaryKey in records {
        r := Success(records[primaryKey]);
        records := records - {primaryKey};
      } else {
        r := Failure(NoRecordError(primaryKey));
      }
    }

    /** `save`: inserts when the key is absent; a present key is an error and the stored record is kept. */
    method Save(recordToStore: Record) returns (o: Outcome<string>)
      requires Valid()
      modifies this
      ensures Valid()
      ensures recordToStore.primaryKey !in old(records) ==>
                o == Pass && records == old(records)[recordToStore.primaryKey := recordToStore]
      ensures recordToStore.primaryKey in old(records) ==>
                o == Fail(DuplicateError(recordToStore.primaryKey)) && records == old(records)
    {
      var primaryKey := recordToStore.primaryKey;
      if primaryKey !in records {
        records := records[primaryKey := recordToStore];
        o := Pass;
      } else {
        o := Fail(DuplicateError(primaryKey));
      }
    }

    /** `getAllRecords`: the stored records; each is the one filed under its own key. */
    function GetAllRecords(): (values: set<Record>)
      reads this
      requires Valid()
      ensures forall r :: r in values <==> r.primaryKey in records && records[r.primaryKey] == r
    {
      records.Values
    }
  }

  // ---------------------------------------------------------------------------
  // The snapshot
  // ---------------------------------------------------------------------------

  /** Every record of `rs` can be written. */
  predicate AllEncodable(rs: seq<Record>) {
    forall i :: 0 <= i < |rs| ==> EncodableRecord(rs[i])
  }

  /** The records of `rs` written one after the other with `writeObject`. */
  function EncodeAll(rs: seq<Record>): seq<byte>
    requires AllEncodable(rs)
    decreases |rs|
  {
    if rs == [] then [] else EncodeRecord(rs[0]) + EncodeAll(rs[1..])
  }

  lemma AllEncodableSnoc(rs: seq<Record>, r: Record)
    requires AllEncodable(rs) && EncodableRecord(r)
    ensures AllEncodable(rs + [r])
  {
    var longer := rs + [r];
    forall i | 0 <= i < |longer| ensures EncodableRecord(longer[i]) {
      if i < |rs| {
        assert longer[i] == rs[i];
      }
    }
  }

  /** Concatenation of bytes regroups freely; stated once so proofs need not look inside the parts. */
  lemma BytesAssoc(a: seq<byte>, b: seq<byte>, c: seq<byte>)
    ensures a + (b + c) == (a + b) + c
  {
  }

  lemma BytesUnit(a: seq<byte>)
    ensures a + [] == a && [] + a == a
  {
  }

  lemma {:induction false} EncodeAllSnoc(rs: seq<Record>, r: Record)
    requires AllEncodable(rs) && EncodableRecord(r)
    ensures AllEncodable(rs + [r])
    ensures EncodeAll(rs + [r]) == EncodeAll(rs) + EncodeRecord(r)
    decreases |rs|
  {
    AllEncodableSnoc(rs, r);
    var longer := rs + [r];
    var e := EncodeRecord(r);
    if rs == [] {
      assert longer == [r] && longer[1..] == [];
      BytesUnit(e);
    } else {
      var rest := rs[1..];
      assert longer[0] == rs[0] && longer[1..] == rest + [r];
      EncodeAllSnoc(rest, r);
      BytesAssoc(EncodeRecord(rs[0]), EncodeAll(rest), e);
    }
  }

  /**
   * The `loadStorage` loop from the store `m` on: decode a record and save
   * it, until the bytes do not decode (the end of the file included) or the
   * record's key is already stored; either ends the loading and keeps what
   * was saved so far.
   */
  ghost function Replay(bytes: seq<byte>, m: map<string, Record>): map<string, Record>
    decreases |bytes|
  {
    match DecodeRecord(bytes)
    case Failure(_) => m
    case Success((record, rest)) =>
      if record.primaryKey in m then m else Replay(rest, m[record.primaryKey := record])
  }

  /** The store `loadStorage` builds from a file. */
  ghost function Loaded(file: Option<seq<byte>>): map<string, Record> {
    if file.None? then map[] else Replay(file.value, map[])
  }

  /** Loading only adds entries, never changes one, and files each under its key. */
  lemma {:induction false} ReplayKeepsEntries(bytes: seq<byte>, m: map<string, Record>)
    requires KeyedByPrimaryKey(m)
    ensures KeyedByPrimaryKey(Replay(bytes, m))
    ensures forall k :: k in m ==> k in Replay(bytes, m) && Replay(bytes, m)[k] == m[k]
    decreases |bytes|
  {
    match DecodeRecord(bytes)
    case Failure(_) =>
    case Success((record, rest)) =>
      if record.primaryKey !in m {
        ReplayKeepsEntries(rest, m[record.primaryKey := record]);
      }
  }

  /**
   * Replaying encoded records with distinct keys, none of them already
   * stored, files them all and goes on with whatever follows.
   */
  lemma {:induction false} ReplayEncoded(rs: seq<Record>, tail: seq<byte>, m: map<string, Record>)
    requires DistinctKeys(rs) && AllEncodable(rs)
    requires forall i :: 0 <= i < |rs| ==> rs[i].primaryKey !in m
    ensures Replay(EncodeAll(rs) + tail, m) == Replay(tail, AddAll(m, rs))
    decreases |rs|
  {
    if rs == [] {
      assert EncodeAll(rs) + tail == tail;
    } else {
      var r := rs[0];
      var rest := rs[1..];
      assert EncodeAll(rs) + tail == EncodeRecord(r) + (EncodeAll(rest) + tail);
      ReplayOne(r, EncodeAll(rest) + tail, m);
      RestStillNew(rs, m);
      ReplayEncoded(rest, tail, m[r.primaryKey := r]);
    }
  }

  /** After filing the first record of a key-distinct list, the others' keys are still new. */
  lemma RestStillNew(rs: seq<Record>, m: map<string, Record>)
    requires rs != [] && DistinctKeys(rs) && AllEncodable(rs)
    requires forall i :: 0 <= i < |rs| ==> rs[i].primaryKey !in m
    ensures DistinctKeys(rs[1..]) && AllEncodable(rs[1..])
    ensures forall i :: 0 <= i < |rs| - 1 ==> rs[1..][i].primaryKey !in m[rs[0].primaryKey := rs[0]]
  {
    var rest := rs[1..];
    forall i | 0 <= i < |rest| ensures EncodableRecord(rest[i]) && rest[i].primaryKey !in m[rs[0].primaryKey := rs[0]] {
      assert rest[i] == rs[i + 1];
    }
  }

  /** Replaying one written record with a new key saves it and goes on with what follows. */
  lemma ReplayOne(r: Record, tail: seq<byte>, m: map<string, Record>)
    requires EncodableRecord(r) && r.primaryKey !in m
    ensures Replay(EncodeRecord(r) + tail, m) == Replay(tail, m[r.primaryKey := r])
  {
    DecodeEncodeRecord(r, tail);
  }

  /**
   * Round trip: loading what `closeStorage` wrote, for any order in which the
   * records were listed, gives back the same key-to-record map.
   */
  lemma LoadAfterClose(m: map<string, Record>, order: seq<Record>)
    requires DistinctKeys(order) && AddAll(map[], order) == m
    requires forall k :: k in m ==> EncodableRecord(m[k])
    ensures AllEncodable(order) && Loaded(Some(EncodeAll(order))) == m
  {
    ListsEachOnce(order, m);
    ReplayEncoded(order, [], map[]);
    assert EncodeAll(order) + [] == EncodeAll(order);
    assert DecodeRecord([]).Failure?;
  }

  /** A missing file or an empty one gives an empty store. */
  lemma LoadMissingOrEmpty(file: Option<seq<byte>>)
    requires file.None? || file.value == []
    ensures Loaded(file) == map[]
  {
    if file.Some? {
      assert DecodeRecord([]).Failure?;
    }
  }

  /**
   * A record whose key was already loaded ends the loading there: the
   * records before it are kept and nothing after it is read.
   */
  lemma LoadStopsAtDuplicate(rs: seq<Record>, duplicate: Record, after: seq<byte>)
    requires DistinctKeys(rs) && AllEncodable(rs)
    requires EncodableRecord(duplicate) && duplicate.primaryKey in KeysOf(rs)
    ensures Loaded(Some(EncodeAll(rs) + EncodeRecord(duplicate) + after)) == AddAll(map[], rs)
  {
    assert EncodeAll(rs) + EncodeRecord(duplicate) + after == EncodeAll(rs) + (EncodeRecord(duplicate) + after);
    ReplayEncoded(rs, EncodeRecord(duplicate) + after, map[]);
    DecodeEncodeRecord(duplicate, after);
    AddAllContents(map[], rs);
  }

  /** Bytes that do not decode into a record end the loading; the records before them are kept. */
  lemma LoadStopsAtBadData(rs: seq<Record>, after: seq<byte>)
    requires DistinctKeys(rs) && AllEncodable(rs)
    requires DecodeRecord(after).Failure?
    ensures Loaded(Some(EncodeAll(rs) + after)) == AddAll(map[], rs)
  {
    ReplayEncoded(rs, after, map[]);
  }

  /** `loadStorage`: a fresh store, into which the file's records are saved in stream order. */
  method LoadStorage(file: Option<seq<byte>>) returns (s: SimpleStorage)
    ensures fresh(s) && s.Valid()
    ensures s.records == Loaded(file)
  {
    s := new SimpleStorage();
    if file.None? {
      return;
    }
    var input := new ObjectInput(file.value);
    while true
      invariant input.Valid() && s.Valid()
      invariant Replay(input.Remaining(), s.records) == Replay(file.value, map[])
      invariant fresh(s)
      decreases |input.Remaining()|
    {
      var record := ReadRecord(input);
      if record.Failure? {
        return;
      }
      var saved := s.Save(record.value);
      if saved.Fail? {
        return;
      }
    }
  }

  /**
   * While `closeStorage` runs: `order` lists, once each, exactly the stored
   * records no longer in `left`, and each of them could be written.
   */
  ghost predicate WrittenSoFar(m: map<string, Record>, left: set<Record>, order: seq<Record>) {
    && DistinctKeys(order)
    && AllEncodable(order)
    && (forall k :: k in AddAll(map[], order) <==> k in m && m[k] !in left)
    && (forall k :: k in AddAll(map[], order) ==> AddAll(map[], order)[k] == m[k])
  }

  lemma WrittenSoFarStep(m: map<string, Record>, left: set<Record>, order: seq<Record>, record: Record)
    requires KeyedByPrimaryKey(m) && left <= m.Values && record in left && EncodableRecord(record)
    requires WrittenSoFar(m, left, order)
    ensures WrittenSoFar(m, left - {record}, order + [record])
  {
    AddAllSnoc(map[], order, record);
    AllEncodableSnoc(order, record);
    var k := record.primaryKey;
    assert k in m && m[k] == record;
    DistinctKeysSnoc(order, record);
  }

  /** Appending a record whose key the list has not filed keeps the keys distinct. */
  lemma DistinctKeysSnoc(rs: seq<Record>, r: Record)
    requires DistinctKeys(rs) && r.primaryKey !in AddAll(map[], rs)
    ensures DistinctKeys(rs + [r])
  {
    AddAllContents(map[], rs);
    var longer := rs + [r];
    forall i, j | 0 <= i < j < |longer| ensures longer[i].primaryKey != longer[j].primaryKey {
      assert longer[i] == rs[i];
      if j < |rs| {
        assert longer[j] == rs[j];
      } else {
        assert rs[i].primaryKey in AddAll(map[], rs);
      }
    }
  }

  /** The records written so far are the stored ones under their keys. */
  lemma WrittenAreStored(m: map<string, Record>, left: set<Record>, order: seq<Record>)
    requires WrittenSoFar(m, left, order)
    ensures forall i :: 0 <= i < |order| ==> order[i].primaryKey in m && m[order[i].primaryKey] == order[i]
  {
    AddAllContents(map[], order);
  }

  /** While a stored record is still left, fewer records are written than are stored. */
  lemma WrittenFewer(m: map<string, Record>, left: set<Record>, order: seq<Record>, record: Record)
    requires KeyedByPrimaryKey(m) && left <= m.Values && record in left
    requires WrittenSoFar(m, left, order)
    ensures |order| < |m|
  {
    AddAllSize(order);
    var written := AddAll(map[], order).Keys;
    var rest := m.Keys - written;
    assert record.primaryKey in rest;
    assert m.Keys == written + rest;
    assert written * rest == {};
  }

  lemma WrittenSoFarDone(m: map<string, Record>, order: seq<Record>)
    requires WrittenSoFar(m, {}, order)
    ensures AddAll(map[], order) == m
  {
  }

  /** Once nothing is left, every stored record is written, each once. */
  lemma WrittenAll(m: map<string, Record>, order: seq<Record>)
    requires WrittenSoFar(m, {}, order)
    ensures AddAll(map[], order) == m
    ensures forall k :: k in m ==> EncodableRecord(m[k])
    ensures forall i :: 0 <= i < |order| ==> order[i].primaryKey in m && m[order[i].primaryKey] == order[i]
  {
    WrittenSoFarDone(m, order);
    ListsEachOnce(order, m);
    forall k | k in m ensures EncodableRecord(m[k]) {
      var i :| 0 <= i < |order| && order[i].primaryKey == k;
    }
  }

  /**
   * `closeStorage`: writes every stored record, in the order the collection
   * of values yields them (`order`). A record too long to write ends the
   * writing with an error, leaving what was written before it.
   */
  method CloseStorage(store: SimpleStorage) returns (data: seq<byte>, ok: bool, ghost order: seq<Record>)
    requires store.Valid()
    ensures ok <==> forall k :: k in store.records ==> EncodableRecord(store.records[k])
    ensures AllEncodable(order) && DistinctKeys(order)
    ensures forall i :: 0 <= i < |order| ==>
              order[i].primaryKey in store.records && store.records[order[i].primaryKey] == order[i]
    ensures ok ==> AddAll(map[], order) == store.records && data == EncodeAll(order)
    ensures !ok ==> EncodeAll(order) <= data && |order| < |store.records|
  {
    var out := new ObjectOutput();
    var left := store.GetAllRecords();
    order := [];
    while left != {}
      invariant left <= store.records.Values
      invariant WrittenSoFar(store.records, left, order)
      invariant out.written == EncodeAll(order)
      decreases left
    {
      var record :| record in left;
      var written := WriteRecord(out, record);
      if !written {
        assert record == store.records[record.primaryKey];
        WrittenAreStored(store.records, left, order);
        WrittenFewer(store.records, left, order, record);
        return out.written, false, order;
      }
      WrittenSoFarStep(store.records, left, order, record);
      EncodeAllSnoc(order, record);
      order := order + [record];
      left := left - {record};
    }
    WrittenAll(store.records, order);
    data, ok := out.written, true;
  }
}
