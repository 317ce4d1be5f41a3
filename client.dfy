/**
 * `AWSClient` (dune_aws/aws.py:104-274) over an abstract object store. The store
 * keeps a log of the calls issued on it and decides which of them fail; the key
 * listing that `existing_files` reads from the bucket is passed in as a snapshot.
 */
module Client {
  import opened Wrappers
  import opened Errors
  import opened Strings
  import opened Codec
  import opened Directory

  /** One row of a data set (a `dict[str, Any]`); its JSON encoding is not modelled. */
  type Row

  /** A call issued on the object store. */
  datatype Op =
    | Delete(bucket: string, key: string)
    | Put(bucket: string, key: string, rows: seq<Row>)

  function OutcomeOf(rejection: Option<Exception>): (o: Outcome<Exception>)
    ensures o.Pass? <==> rejection.None?
    ensures o.Fail? ==> o.error == rejection.value
  {
    match rejection
    case None => Pass
    case Some(e) => Fail(e)
  }

  /**
   * The object store as this code sees it: every call issued on it, in order, and
   * the exception each call raises (`None` when it succeeds). A call that fails
   * during role assumption counts as a rejected call.
   */
  class ObjectStore {
    var log: seq<Op>
    const reject: Op -> Option<Exception>

    constructor (reject: Op -> Option<Exception>)
      ensures log == [] && this.reject == reject
    {
      log := [];
      this.reject := reject;
    }

    method Issue(op: Op) returns (o: Outcome<Exception>)
      modifies this
      ensures log == old(log) + [op]
      ensures o == OutcomeOf(reject(op))
    {
      log := log + [op];
      o := OutcomeOf(reject(op));
    }
  }

  /** Index of the first call of `ops` that the store rejects, or `|ops|`. */
  function FirstRejected(ops: seq<Op>, reject: Op -> Option<Exception>): (i: nat)
    ensures i <= |ops|
    ensures i < |ops| ==> reject(ops[i]).Some?
    ensures forall k :: 0 <= k < i ==> reject(ops[k]).None?
  {
    if ops == [] then 0
    else if reject(ops[0]).Some? then 0
    else 1 + FirstRejected(ops[1..], reject)
  }

  /** The calls of `ops` that are issued when each one raises out of the sequence: up to the first failure. */
  function Issued(ops: seq<Op>, reject: Op -> Option<Exception>): seq<Op>
  {
    var i := FirstRejected(ops, reject);
    if i < |ops| then ops[..i + 1] else ops
  }

  /** The exception that ends `ops`, if any. */
  function Settled(ops: seq<Op>, reject: Op -> Option<Exception>): Outcome<Exception>
  {
    var i := FirstRejected(ops, reject);
    if i < |ops| then OutcomeOf(reject(ops[i])) else Pass
  }

  lemma FirstRejectedIs(ops: seq<Op>, reject: Op -> Option<Exception>, j: nat)
    requires j <= |ops|
    requires j < |ops| ==> reject(ops[j]).Some?
    requires forall k :: 0 <= k < j ==> reject(ops[k]).None?
    ensures FirstRejected(ops, reject) == j
  {
  }

  /** The keys under which a sequence of records is stored. */
  function ObjectKeys(files: seq<BucketFileObject>): (keys: seq<string>)
    ensures |keys| == |files|
  {
    seq(|files|, k requires 0 <= k < |files| => files[k].ObjectKey())
  }

  /** A delete call for each of `keys`, in order. */
  function DeletesOf(bucket: string, keys: seq<string>): (ops: seq<Op>)
    ensures |ops| == |keys|
  {
    seq(|keys|, k requires 0 <= k < |keys| => Delete(bucket, keys[k]))
  }

  /** The `delete_file` calls `delete_all` issues: one per record, by its re-encoded key. */
  function DeletePlan(bucket: string, files: seq<BucketFileObject>): (ops: seq<Op>)
    ensures |ops| == |files|
  {
    DeletesOf(bucket, ObjectKeys(files))
  }

  /** The records whose index counts for `last_sync_block`: Python-truthy ones. */
  predicate HasTruthy(files: seq<BucketFileObject>)
  {
    exists k :: 0 <= k < |files| && Truthy(files[k].index)
  }

  /** `b` is the largest truthy index of `files`. */
  predicate IsMaxTruthy(files: seq<BucketFileObject>, b: int)
  {
    && (exists k :: 0 <= k < |files| && Truthy(files[k].index) && files[k].index.value == b)
    && (forall k :: 0 <= k < |files| && Truthy(files[k].index) ==> files[k].index.value <= b)
  }

  /** `max(f.index for f in files if f.index)`, `None` where `max` raises on an empty generator. */
  function MaxIndex(files: seq<BucketFileObject>): (m: Option<int>)
    ensures m.None? <==> !HasTruthy(files)
    ensures m.Some? ==> IsMaxTruthy(files, m.value) && m.value != 0
  {
    if files == [] then None
    else
      var rest := MaxIndex(files[1..]);
      assert forall k :: 1 <= k < |files| ==> files[k] == files[1..][k - 1];
      if !Truthy(files[0].index) then rest
      else if rest.None? || rest.value < files[0].index.value then Some(files[0].index.value)
      else rest
  }

  class AWSClient {
    const internalRole: string
    const externalRole: string
    const externalId: string
    const bucket: string
    const store: ObjectStore

    constructor (internalRole: string, externalRole: string, externalId: string, bucket: string, store: ObjectStore)
      ensures this.internalRole == internalRole && this.externalRole == externalRole
      ensures this.externalId == externalId && this.bucket == bucket && this.store == store
    {
      this.internalRole := internalRole;
      this.externalRole := externalRole;
      this.externalId := externalId;
      this.bucket := bucket;
      this.store := store;
    }

    /** `delete_file`: one delete call on the configured bucket; returns, or raises what the store raises. */
    method DeleteFile(objectKey: string) returns (o: Outcome<Exception>)
      modifies store
      ensures store.log == old(store.log) + [Delete(bucket, objectKey)]
      ensures o == OutcomeOf(store.reject(Delete(bucket, objectKey)))
    {
      o := store.Issue(Delete(bucket, objectKey));
    }

    /** `put_object`: one upload of the rows, unchanged, to the key on the configured bucket. */
    method PutObject(dataSet: seq<Row>, objectKey: string) returns (o: Outcome<Exception>)
      modifies store
      ensures store.log == old(store.log) + [Put(bucket, objectKey, dataSet)]
      ensures o == OutcomeOf(store.reject(Put(bucket, objectKey, dataSet)))
    {
      o := store.Issue(Put(bucket, objectKey, dataSet));
    }

    /**
     * `last_sync_block`: the largest truthy index among the table's records. Every
     * `ValueError` inside the `try` (a malformed key anywhere in the listing, or
     * `max` of nothing) becomes `FileNotFoundError`.
     */
    method LastSyncBlock(listing: seq<string>, table: string) returns (r: Result<int, Exception>)
      ensures r.Failure? ==> r.error == FileNotFoundError
      ensures r.Failure? <==> !AllWellFormed(listing) || !HasTruthy(Records(listing, table))
      ensures r.Success? ==> IsMaxTruthy(Records(listing, table), r.value) && r.value != 0
    {
      var snapshot := FromBucketCollection(listing);
      if snapshot.Failure? {
        return Failure(FileNotFoundError);
      }
      var files := snapshot.value.Get(table);
      GetIsRecords(listing, table);
      var block := MaxIndex(files);
      if block.None? {
        return Failure(FileNotFoundError);
      }
      return Success(block.value);
    }

    /**
     * `delete_all`: one `delete_file` per record of the table, in listing order,
     * by the record's re-encoded key; the first failure propagates and ends the
     * loop. A malformed key in the listing raises `ValueError` before any delete.
     */
    method DeleteAll(listing: seq<string>, table: string) returns (o: Outcome<Exception>)
      modifies store
      ensures !AllWellFormed(listing) ==> o == Fail(ValueError) && store.log == old(store.log)
      ensures AllWellFormed(listing) ==>
        var plan := DeletePlan(bucket, Records(listing, table));
        && store.log == old(store.log) + Issued(plan, store.reject)
        && o == Settled(plan, store.reject)
      ensures AllWellFormed(listing) && table !in Tables(listing) ==>
        store.log == old(store.log) && o == Pass
    {
      var snapshot := FromBucketCollection(listing);
      if snapshot.Failure? {
        return Fail(snapshot.error);
      }
      var files := snapshot.value.Get(table);
      GetIsRecords(listing, table);
      RecordsEmptyIff(listing, table);
      o := DeleteFiles(files);
    }

    /** The loop of `delete_all`: one `delete_file` per record, in order, up to the first failure. */
    method DeleteFiles(files: seq<BucketFileObject>) returns (o: Outcome<Exception>)
      modifies store
      ensures var plan := DeletePlan(bucket, files);
        && store.log == old(store.log) + Issued(plan, store.reject)
        && o == Settled(plan, store.reject)
    {
      ghost var plan := DeletePlan(bucket, files);
      for i := 0 to |files|
        invariant store.log == old(store.log) + plan[..i]
        invariant forall k :: 0 <= k < i ==> store.reject(plan[k]).None?
      {
        assert plan[i] == Delete(bucket, files[i].ObjectKey());
        o := DeleteFile(files[i].ObjectKey());
        assert plan[..i + 1] == plan[..i] + [plan[i]];
        if o.Fail? {
          IssuedStopsAt(plan, store.reject, i);
          return;
        }
      }
      IssuedAll(plan, store.reject);
      o := Pass;
    }
  }

  /** A sequence of calls whose first failure is at `i` issues the calls up to `i` and ends with that failure. */
  lemma IssuedStopsAt(ops: seq<Op>, reject: Op -> Option<Exception>, i: nat)
    requires i < |ops| && reject(ops[i]).Some?
    requires forall k :: 0 <= k < i ==> reject(ops[k]).None?
    ensures Issued(ops, reject) == ops[..i + 1]
    ensures Settled(ops, reject) == OutcomeOf(reject(ops[i]))
  {
    FirstRejectedIs(ops, reject, i);
  }

  /** A sequence of calls none of which fails is issued whole and passes. */
  lemma IssuedAll(ops: seq<Op>, reject: Op -> Option<Exception>)
    requires forall k :: 0 <= k < |ops| ==> reject(ops[k]).None?
    ensures Issued(ops, reject) == ops[..|ops|]
    ensures Settled(ops, reject) == Pass
  {
    FirstRejectedIs(ops, reject, |ops|);
  }

  /**
   * `delete_all` never touches another table: every key it deletes is on the
   * client's bucket and decodes to a record of `table`.
   */
  lemma DeletePlanStaysInTable(bucket: string, listing: seq<string>, table: string)
    requires AllWellFormed(listing)
    ensures forall op :: op in DeletePlan(bucket, Records(listing, table)) ==>
      && op.Delete? && op.bucket == bucket
      && FromKey(op.key).Success? && FromKey(op.key).value.path == table
  {
    var files := Records(listing, table);
    RecordsHavePath(listing, table);
    forall op | op in DeletePlan(bucket, files)
      ensures op.Delete? && op.bucket == bucket && FromKey(op.key).Success? && FromKey(op.key).value.path == table
    {
      var k :| 0 <= k < |files| && op == DeletePlan(bucket, files)[k];
      ObjectKeyKeepsPath(files[k]);
    }
  }

  /** The keys of a listing whose path is `table`, in listing order. */
  function KeysOf(keys: seq<string>, table: string): seq<string>
    requires AllWellFormed(keys)
  {
    if keys == [] then []
    else
      var last := keys[|keys| - 1];
      KeysOf(keys[..|keys| - 1], table) + (if Decode(last).path == table then [last] else [])
  }

  /**
   * When no key of the table carries an index, `delete_all` deletes exactly the
   * table's listed keys, in listing order (the round trip of unindexed keys).
   */
  lemma {:induction false} DeletePlanIsListedKeys(bucket: string, listing: seq<string>, table: string)
    requires AllWellFormed(listing)
    requires forall i :: 0 <= i < |listing| && Decode(listing[i]).path == table ==> Decode(listing[i]).index.None?
    ensures DeletePlan(bucket, Records(listing, table)) == DeletesOf(bucket, KeysOf(listing, table))
  {
    if listing != [] {
      var init, last := listing[..|listing| - 1], listing[|listing| - 1];
      assert forall i :: 0 <= i < |init| ==> init[i] == listing[i];
      DeletePlanIsListedKeys(bucket, init, table);
      var file := Decode(last);
      RecordsLast(listing, table);
      assert KeysOf(listing, table) == KeysOf(init, table) + (if file.path == table then [last] else []);
      if file.path == table {
        RoundTripUnindexed(last);
        DeletesSnoc(bucket, Records(init, table), KeysOf(init, table), file, last);
      } else {
        assert Records(listing, table) == Records(init, table);
        assert KeysOf(listing, table) == KeysOf(init, table);
      }
    }
  }

  /**
   * On the files this system writes (names ending in `.json`) the two quirks of
   * the key codec cancel: `delete_all` deletes exactly the table's listed keys.
   */
  lemma DeletePlanOfJsonKeys(bucket: string, listing: seq<string>, table: string)
    requires AllWellFormed(listing)
    requires forall i :: 0 <= i < |listing| ==> EndsWith(listing[i], ".json")
    ensures DeletePlan(bucket, Records(listing, table)) == DeletesOf(bucket, KeysOf(listing, table))
  {
    forall i | 0 <= i < |listing| ensures Decode(listing[i]).index.None? {
      JsonKeyHasNoIndex(listing[i]);
    }
    DeletePlanIsListedKeys(bucket, listing, table);
  }

  lemma DeletesSnoc(bucket: string, files: seq<BucketFileObject>, keys: seq<string>, file: BucketFileObject, key: string)
    requires DeletePlan(bucket, files) == DeletesOf(bucket, keys)
    requires file.ObjectKey() == key
    ensures DeletePlan(bucket, files + [file]) == DeletesOf(bucket, keys + [key])
  {
    assert DeletePlan(bucket, files + [file]) == DeletePlan(bucket, files) + [Delete(bucket, key)];
    assert DeletesOf(bucket, keys + [key]) == DeletesOf(bucket, keys) + [Delete(bucket, key)];
  }

  /** A record this system writes: a `/`-free table and prefix, and a block index. */
  predicate WrittenRecord(r: BucketFileObject)
  {
    '/' !in r.path && '/' !in r.prefix && Truthy(r.index)
  }

  /**
   * As written, `last_sync_block` never finds a block in a bucket that holds only
   * files this system wrote: it raises `FileNotFoundError` whatever they are.
   */
  lemma {:induction false} WrittenBlocksInvisible(written: seq<BucketFileObject>, table: string)
    requires forall k :: 0 <= k < |written| ==> WrittenRecord(written[k])
    ensures AllWellFormed(ObjectKeys(written))
    ensures !HasTruthy(Records(ObjectKeys(written), table))
  {
    var keys := ObjectKeys(written);
    forall i | 0 <= i < |keys| ensures FromKey(keys[i]) == Success(BucketFileObject(written[i].path, written[i].ContentFilename(), None)) {
      WrittenKeyLosesIndex(written[i]);
    }
    NoIndexNoTruthy(keys, table);
  }

  lemma {:induction false} NoIndexNoTruthy(keys: seq<string>, table: string)
    requires forall i :: 0 <= i < |keys| ==> FromKey(keys[i]).Success? && FromKey(keys[i]).value.index.None?
    ensures AllWellFormed(keys)
    ensures !HasTruthy(Records(keys, table))
  {
    if keys != [] {
      NoIndexNoTruthy(keys[..|keys| - 1], table);
      RecordsLast(keys, table);
    }
  }

  /** The records of a listing under the intended decoding (`Codec.FromKeyIntended`), in listing order. */
  function IntendedDecoded(keys: seq<string>): (files: seq<BucketFileObject>)
    requires AllWellFormed(keys)
    ensures |files| == |keys|
  {
    seq(|keys|, k requires 0 <= k < |keys| => FromKeyIntended(keys[k]).value)
  }

  /** The records of a table under the intended decoding, in listing order. */
  function IntendedRecords(keys: seq<string>, table: string): seq<BucketFileObject>
    requires AllWellFormed(keys)
  {
    InTable(IntendedDecoded(keys), table)
  }

  /**
   * With the intended decoding, the snapshot of the files this system wrote gives
   * back those very records, so the last sync block is the largest block written
   * to the table.
   */
  lemma {:induction false} IntendedLastSyncBlock(written: seq<BucketFileObject>, table: string)
    requires forall k :: 0 <= k < |written| ==> WrittenRecord(written[k])
    ensures AllWellFormed(ObjectKeys(written))
    ensures IntendedRecords(ObjectKeys(written), table) == InTable(written, table)
    ensures MaxIndex(IntendedRecords(ObjectKeys(written), table)) == MaxIndex(InTable(written, table))
  {
    var keys := ObjectKeys(written);
    forall i | 0 <= i < |keys| ensures FromKeyIntended(keys[i]) == Success(written[i]) {
      IntendedRoundTrip(written[i]);
    }
    assert IntendedDecoded(keys) == written;
  }
}
