/**
 * The bucket's directory structure: the decoded keys of one listing, grouped by
 * table in listing order (`BucketStructure`, dune_aws/aws.py:72-101).
 */
module Directory {
  import opened Wrappers
  import opened Errors
  import opened Strings
  import opened Codec

  datatype BucketStructure = BucketStructure(files: map<string, seq<BucketFileObject>>)
  {
    /** `get`: the records of `table`, or an empty list when the table is absent. */
    function Get(table: string): (r: seq<BucketFileObject>)
      ensures table !in files ==> r == []
      ensures table in files ==> r == files[table]
    {
      if table in files then files[table] else []
    }
  }

  predicate AllWellFormed(keys: seq<string>)
  {
    forall i :: 0 <= i < |keys| ==> WellFormedKey(keys[i])
  }

  /** The record of a key that `from_key` accepts. */
  function Decode(key: string): BucketFileObject
    requires WellFormedKey(key)
  {
    FromKey(key).value
  }

  /** The records of `table` among `files`, in order. */
  function InTable(files: seq<BucketFileObject>, table: string): seq<BucketFileObject>
  {
    if files == [] then []
    else InTable(files[..|files| - 1], table) + (if files[|files| - 1].path == table then [files[|files| - 1]] else [])
  }

  /** The decoded records of a listing, in listing order. */
  function Decoded(keys: seq<string>): (files: seq<BucketFileObject>)
    requires AllWellFormed(keys)
    ensures |files| == |keys|
  {
    seq(|keys|, k requires 0 <= k < |keys| => Decode(keys[k]))
  }

  /** The decoded records of the keys whose path is `table`, in listing order. */
  function Records(keys: seq<string>, table: string): seq<BucketFileObject>
    requires AllWellFormed(keys)
  {
    InTable(Decoded(keys), table)
  }

  /** The tables that occur in a listing. */
  function Tables(keys: seq<string>): set<string>
    requires AllWellFormed(keys)
  {
    if keys == [] then {} else Tables(keys[..|keys| - 1]) + {Decode(keys[|keys| - 1]).path}
  }

  /** The grouping `from_bucket_collection` builds: one entry per table that occurs. */
  function Grouped(keys: seq<string>): map<string, seq<BucketFileObject>>
    requires AllWellFormed(keys)
  {
    map t | t in Tables(keys) :: Records(keys, t)
  }

  /**
   * `from_bucket_collection`: appends each decoded key to the list of its table,
   * and raises `ValueError` at the first key that is not `path/name`.
   */
  method FromBucketCollection(keys: seq<string>) returns (r: Result<BucketStructure, Exception>)
    ensures r.Failure? <==> !AllWellFormed(keys)
    ensures r.Failure? ==> r.error == ValueError
    ensures r.Success? ==> r.value == BucketStructure(Grouped(keys))
  {
    var grouped: map<string, seq<BucketFileObject>> := map[];
    for i := 0 to |keys|
      invariant AllWellFormed(keys[..i])
      invariant grouped == Grouped(keys[..i])
    {
      var key := keys[i];
      SplitCount(key, '/');
      if |Split(key, '/')| != 2 {
        return Failure(ValueError);
      }
      var file := FromKey(key).value;
      var existing := if file.path in grouped then grouped[file.path] else [];
      grouped := grouped[file.path := existing + [file]];
      assert keys[..i + 1] == keys[..i] + [key];
      GroupedStep(keys[..i], key);
    }
    assert keys[..|keys|] == keys;
    return Success(BucketStructure(grouped));
  }

  /** Appending a key to the listing appends its record to its table's list. */
  lemma GroupedStep(keys: seq<string>, key: string)
    requires AllWellFormed(keys) && WellFormedKey(key)
    ensures AllWellFormed(keys + [key])
    ensures var file := Decode(key); var g := Grouped(keys);
      Grouped(keys + [key]) == g[file.path := (if file.path in g then g[file.path] else []) + [file]]
  {
    var all := keys + [key];
    var file := Decode(key);
    var g := Grouped(keys);
    assert all[..|all| - 1] == keys;
    assert Tables(all) == Tables(keys) + {file.path};
    if file.path !in g {
      RecordsEmptyIff(keys, file.path);
    }
    var g2 := g[file.path := (if file.path in g then g[file.path] else []) + [file]];
    assert Grouped(all).Keys == g2.Keys;
    forall t | t in g2 ensures Grouped(all)[t] == g2[t] {
      RecordsSnoc(keys, key, t);
    }
  }

  /** Every record listed under a table has that table as its path, and neither its path nor its prefix holds a `/`. */
  lemma {:induction false} RecordsHavePath(keys: seq<string>, table: string)
    requires AllWellFormed(keys)
    ensures forall k :: 0 <= k < |Records(keys, table)| ==> Records(keys, table)[k].path == table
    ensures forall k :: 0 <= k < |Records(keys, table)| ==>
      '/' !in Records(keys, table)[k].path && '/' !in Records(keys, table)[k].prefix
  {
    if keys != [] {
      RecordsHavePath(keys[..|keys| - 1], table);
      RecordsLast(keys, table);
    }
  }

  /** Listing order is kept: the records of two listings in a row are the records of each, in a row. */
  lemma {:induction false} RecordsAppend(keys1: seq<string>, keys2: seq<string>, table: string)
    requires AllWellFormed(keys1) && AllWellFormed(keys2)
    ensures AllWellFormed(keys1 + keys2)
    ensures Records(keys1 + keys2, table) == Records(keys1, table) + Records(keys2, table)
    decreases |keys2|
  {
    if keys2 == [] {
      assert keys1 + keys2 == keys1;
    } else {
      var init, key := keys2[..|keys2| - 1], keys2[|keys2| - 1];
      assert keys2 == init + [key];
      assert keys1 + keys2 == (keys1 + init) + [key];
      RecordsAppend(keys1, init, table);
      RecordsSnoc(keys1 + init, key, table);
      RecordsSnoc(init, key, table);
    }
  }

  /** One more key appends its record to its table's records, and to no other table's. */
  lemma RecordsSnoc(keys: seq<string>, key: string, table: string)
    requires AllWellFormed(keys) && WellFormedKey(key)
    ensures AllWellFormed(keys + [key])
    ensures Records(keys + [key], table)
      == Records(keys, table) + (if Decode(key).path == table then [Decode(key)] else [])
  {
    var all := keys + [key];
    assert Decoded(all)[..|keys|] == Decoded(keys);
  }

  /** `Records` unfolded at the last key of a non-empty listing. */
  lemma RecordsLast(keys: seq<string>, table: string)
    requires AllWellFormed(keys) && keys != []
    ensures var last := Decode(keys[|keys| - 1]);
      Records(keys, table) == Records(keys[..|keys| - 1], table) + (if last.path == table then [last] else [])
  {
    assert keys == keys[..|keys| - 1] + [keys[|keys| - 1]];
    RecordsSnoc(keys[..|keys| - 1], keys[|keys| - 1], table);
  }

  /** A table has records exactly when some key of the listing has it as its path. */
  lemma {:induction false} RecordsEmptyIff(keys: seq<string>, table: string)
    requires AllWellFormed(keys)
    ensures Records(keys, table) == [] <==> table !in Tables(keys)
  {
    if keys != [] {
      RecordsEmptyIff(keys[..|keys| - 1], table);
      RecordsLast(keys, table);
    }
  }

  /**
   * `get` on the snapshot of a listing returns the table's records in listing
   * order, and the empty list for a table that no key names.
   */
  lemma GetIsRecords(keys: seq<string>, table: string)
    requires AllWellFormed(keys)
    ensures BucketStructure(Grouped(keys)).Get(table) == Records(keys, table)
    ensures table !in Tables(keys) ==> BucketStructure(Grouped(keys)).Get(table) == []
  {
    RecordsEmptyIff(keys, table);
  }

  predicate Distinct(ts: seq<string>)
  {
    forall i, j :: 0 <= i < j < |ts| ==> ts[i] != ts[j]
  }

  /** The number of records listed under the tables `ts`. */
  function RecordCount(keys: seq<string>, ts: seq<string>): nat
    requires AllWellFormed(keys)
  {
    if ts == [] then 0 else |Records(keys, ts[0])| + RecordCount(keys, ts[1..])
  }

  /**
   * No key is lost or counted twice: over all tables of the listing, the
   * snapshot holds exactly one record per key.
   */
  lemma {:induction false} RecordCountIsKeyCount(keys: seq<string>, ts: seq<string>)
    requires AllWellFormed(keys) && Distinct(ts)
    requires forall t :: t in Tables(keys) ==> t in ts
    ensures RecordCount(keys, ts) == |keys|
    decreases |keys|
  {
    if keys == [] {
      RecordCountNone(keys, ts);
    } else {
      var init, key := keys[..|keys| - 1], keys[|keys| - 1];
      assert keys == init + [key];
      RecordCountIsKeyCount(init, ts);
      RecordCountStep(init, key, ts);
    }
  }

  lemma {:induction false} RecordCountNone(keys: seq<string>, ts: seq<string>)
    requires keys == []
    ensures RecordCount(keys, ts) == 0
  {
    if ts != [] {
      RecordCountNone(keys, ts[1..]);
    }
  }

  lemma {:induction false} RecordCountStep(keys: seq<string>, key: string, ts: seq<string>)
    requires AllWellFormed(keys) && WellFormedKey(key) && Distinct(ts)
    ensures AllWellFormed(keys + [key])
    ensures RecordCount(keys + [key], ts) == RecordCount(keys, ts) + (if Decode(key).path in ts then 1 else 0)
  {
    var all := keys + [key];
    assert all[..|all| - 1] == keys;
    if ts != [] {
      RecordCountStep(keys, key, ts[1..]);
      RecordsSnoc(keys, key, ts[0]);
      if Decode(key).path == ts[0] {
        assert Decode(key).path !in ts[1..];
      }
    }
  }
}
