/**
 * `FrontController`: what the `upload`, `delete` and `get` routes do with the
 * store, with the HTTP request and response reduced to a key or the lines of
 * the uploaded file in, and an outcome out.
 */
module FrontController {
  import opened Wrappers
  import opened Records
  import opened RecordsUploader
  import opened StorageFactory

  /** What a route answers: a successful body or an error message. */
  datatype Response<+T> = Ok(body: T) | Error(message: string)

  const UploadedWithDuplicates: string := "Uploaded, duplicates eliminated"
  const UploadedCleanly: string := "Uploaded successfully and clearly"

  function DeletedMessage(primaryKey: string): string {
    "Record deleted for PRIMARY_KEY=" + primaryKey
  }

  // ---------------------------------------------------------------------------
  // The batch of an upload
  // ---------------------------------------------------------------------------

  /**
   * Saving the records of `rs` in order into the store `m`: the new store,
   * and whether some `save` failed because the key was already stored.
   */
  function SaveBatch(m: map<string, Record>, rs: seq<Record>): (map<string, Record>, bool)
    decreases |rs|
  {
    if rs == [] then (m, false)
    else
      var key := rs[0].primaryKey;
      var (m', duplicate) := if key in m then (m, true) else (m[key := rs[0]], false);
      var (result, duplicates) := SaveBatch(m', rs[1..]);
      (result, duplicate || duplicates)
  }

  /** Saving `rs` from index `next` on is saving `rs[next]`, then the rest. */
  lemma SaveBatchStep(m: map<string, Record>, rs: seq<Record>, next: nat)
    requires next < |rs|
    ensures var key := rs[next].primaryKey;
            var m' := if key in m then m else m[key := rs[next]];
            var after := SaveBatch(m', rs[next + 1..]);
            SaveBatch(m, rs[next..]) == (after.0, key in m || after.1)
  {
    assert rs[next..][1..] == rs[next + 1..];
  }

  /** The batch adds exactly the keys of `rs` to those already stored. */
  lemma {:induction false} SaveBatchKeys(m: map<string, Record>, rs: seq<Record>)
    ensures SaveBatch(m, rs).0.Keys == m.Keys + KeysOf(rs)
    decreases |rs|
  {
    if rs != [] {
      var key := rs[0].primaryKey;
      SaveBatchKeys(if key in m then m else m[key := rs[0]], rs[1..]);
      KeysOfCons(rs);
    }
  }

  /** The batch never replaces a record already stored. */
  lemma {:induction false} SaveBatchKeepsStored(m: map<string, Record>, rs: seq<Record>, k: string)
    requires k in m
    ensures k in SaveBatch(m, rs).0 && SaveBatch(m, rs).0[k] == m[k]
    decreases |rs|
  {
    if rs != [] {
      var key := rs[0].primaryKey;
      SaveBatchKeepsStored(if key in m then m else m[key := rs[0]], rs[1..], k);
    }
  }

  /** A key new to the store is filed under its first record in `rs`. */
  lemma {:induction false} SaveBatchFirstRecord(m: map<string, Record>, rs: seq<Record>, i: nat)
    requires i < |rs| && rs[i].primaryKey !in m
    requires forall j :: 0 <= j < i ==> rs[j].primaryKey != rs[i].primaryKey
    ensures rs[i].primaryKey in SaveBatch(m, rs).0 && SaveBatch(m, rs).0[rs[i].primaryKey] == rs[i]
    decreases |rs|
  {
    var key := rs[0].primaryKey;
    var m' := if key in m then m else m[key := rs[0]];
    var tail := rs[1..];
    if i == 0 {
      SaveBatchKeepsStored(m', tail, key);
    } else {
      assert tail[i - 1] == rs[i];
      forall j | 0 <= j < i - 1 ensures tail[j].primaryKey != tail[i - 1].primaryKey {
        assert tail[j] == rs[j + 1];
      }
      SaveBatchFirstRecord(m', tail, i - 1);
    }
  }

  /**
   * The batch adds exactly the keys of `rs`, keeps every record already
   * stored, and files each new key under its FIRST record in `rs`.
   */
  lemma SaveBatchContents(m: map<string, Record>, rs: seq<Record>)
    ensures var result := SaveBatch(m, rs).0;
            && result.Keys == m.Keys + KeysOf(rs)
            && (forall k :: k in m ==> result[k] == m[k])
            && (forall i ::
                  (0 <= i < |rs| && rs[i].primaryKey !in m
                   && forall j :: 0 <= j < i ==> rs[j].primaryKey != rs[i].primaryKey) ==>
                  result[rs[i].primaryKey] == rs[i])
  {
    SaveBatchKeys(m, rs);
    forall k | k in m ensures SaveBatch(m, rs).0[k] == m[k] {
      SaveBatchKeepsStored(m, rs, k);
    }
    forall i | 0 <= i < |rs| && rs[i].primaryKey !in m
               && (forall j :: 0 <= j < i ==> rs[j].primaryKey != rs[i].primaryKey)
      ensures SaveBatch(m, rs).0[rs[i].primaryKey] == rs[i]
    {
      SaveBatchFirstRecord(m, rs, i);
    }
  }

  /**
   * `duplicatesFound` ends up true exactly when some record's key was
   * already stored, or already occurred earlier in the batch.
   */
  lemma {:induction false} SaveBatchDuplicates(m: map<string, Record>, rs: seq<Record>)
    ensures !SaveBatch(m, rs).1 <==>
              && (forall i :: 0 <= i < |rs| ==> rs[i].primaryKey !in m)
              && (forall i, j :: 0 <= i < j < |rs| ==> rs[i].primaryKey != rs[j].primaryKey)
    decreases |rs|
  {
    if rs != [] {
      var key := rs[0].primaryKey;
      var m' := if key in m then m else m[key := rs[0]];
      var tail := rs[1..];
      SaveBatchDuplicates(m', tail);
      if !SaveBatch(m, rs).1 {
        forall i, j | 0 <= i < j < |rs| ensures rs[i].primaryKey != rs[j].primaryKey {
          assert rs[j] == tail[j - 1];
          if i > 0 {
            assert rs[i] == tail[i - 1];
          }
        }
        forall i | 0 <= i < |rs| ensures rs[i].primaryKey !in m {
          if i > 0 {
            assert rs[i] == tail[i - 1];
          }
        }
      }
      if && (forall i :: 0 <= i < |rs| ==> rs[i].primaryKey !in m)
         && (forall i, j :: 0 <= i < j < |rs| ==> rs[i].primaryKey != rs[j].primaryKey)
      {
        forall i | 0 <= i < |tail| ensures tail[i].primaryKey !in m' {
          assert tail[i] == rs[i + 1];
        }
        forall i, j | 0 <= i < j < |tail| ensures tail[i].primaryKey != tail[j].primaryKey {
          assert tail[i] == rs[i + 1] && tail[j] == rs[j + 1];
        }
      }
    }
  }

  /** A batch without duplicates simply adds its records, each under its own key. */
  lemma {:induction false} SaveBatchWithoutDuplicates(m: map<string, Record>, rs: seq<Record>)
    requires !SaveBatch(m, rs).1
    ensures SaveBatch(m, rs).0 == AddAll(m, rs)
    decreases |rs|
  {
    if rs != [] {
      SaveBatchWithoutDuplicates(m[rs[0].primaryKey := rs[0]], rs[1..]);
    }
  }

  /** Saving a batch keeps every entry filed under its own key. */
  lemma {:induction false} SaveBatchKeyed(m: map<string, Record>, rs: seq<Record>)
    requires KeyedByPrimaryKey(m)
    ensures KeyedByPrimaryKey(SaveBatch(m, rs).0)
    decreases |rs|
  {
    if rs != [] {
      var key := rs[0].primaryKey;
      SaveBatchKeyed(if key in m then m else m[key := rs[0]], rs[1..]);
    }
  }

  // ---------------------------------------------------------------------------
  // The routes
  // ---------------------------------------------------------------------------

  /**
   * `upload`: parses the file; a parse error is answered as is and saves
   * nothing; otherwise the records are saved in order, duplicates skipped,
   * and the answer says whether any were.
   */
  method Upload(store: SimpleStorage, lines: seq<string>) returns (o: Response<string>)
    requires store.Valid()
    modifies store
    ensures store.Valid()
    ensures Parse(lines).Failure? ==> o == Error(Parse(lines).error) && store.records == old(store.records)
    ensures Parse(lines).Success? ==>
              var (result, duplicatesFound) := SaveBatch(old(store.records), Parse(lines).value);
              && store.records == result
              && o == (if duplicatesFound then Error(UploadedWithDuplicates) else Ok(UploadedCleanly))
  {
    var parsed := TryRetrieveRecords(lines);
    if parsed.Failure? {
      return Error(parsed.error);
    }
    var records := parsed.value;
    ghost var batch := SaveBatch(store.records, records);
    var duplicatesFound := false;
    var next := 0;
    assert records[0..] == records;
    while next < |records|
      invariant 0 <= next <= |records|
      invariant store.Valid()
      invariant batch == (SaveBatch(store.records, records[next..]).0,
                          duplicatesFound || SaveBatch(store.records, records[next..]).1)
    {
      SaveBatchStep(store.records, records, next);
      var saved := store.Save(records[next]);
      if saved.Fail? {
        duplicatesFound := true;
      }
      next := next + 1;
    }
    if duplicatesFound {
      o := Error(UploadedWithDuplicates);
    } else {
      o := Ok(UploadedCleanly);
    }
  }

  /** `delete`: finds the record, then deletes it; an absent key is an error and changes nothing. */
  method Delete(store: SimpleStorage, primaryKey: string) returns (o: Response<string>)
    requires store.Valid()
    modifies store
    ensures store.Valid()
    ensures primaryKey in old(store.records) ==>
              o == Ok(DeletedMessage(primaryKey)) && store.records == old(store.records) - {primaryKey}
    ensures primaryKey !in old(store.records) ==>
              o == Error(NoRecordError(primaryKey)) && store.records == old(store.records)
  {
    var found := store.FindByPrimaryKey(primaryKey);
    if found.Failure? {
      return Error(found.error);
    }
    var _ := store.Delete(found.value);
    o := Ok(DeletedMessage(primaryKey));
  }

  /** `get`: the stored record, or an error when the key is absent; changes nothing. */
  method Get(store: SimpleStorage, primaryKey: string) returns (o: Response<Record>)
    requires store.Valid()
    ensures primaryKey in store.records ==> o == Ok(store.records[primaryKey])
    ensures primaryKey !in store.records ==> o == Error(NoRecordError(primaryKey))
  {
    var found := store.FindByPrimaryKey(primaryKey);
    match found
    case Success(record) => o := Ok(record);
    case Failure(e) => o := Error(e);
  }
}
