/**
 * `RecordHandler` (dune_aws/record_handler.py:16-73): a batch of rows bound for
 * one block file, and the protocol that uploads it.
 */
module RecordHandling {
  import opened Wrappers
  import opened Errors
  import opened Strings
  import opened Codec
  import opened Client

  /** How `upload_content` ends: it returns after skipping or writing, exits, or lets an exception through. */
  datatype UploadOutcome =
    | Skipped                  // no rows: nothing is sent
    | Written                  // the rows were put
    | Exited(code: int)        // `sys.exit(code)` after an `S3UploadFailedError`
    | Raised(error: Exception) // any other exception propagates

  /** How a failed call of the protocol ends it: an upload failure exits, anything else propagates. */
  function Settle(rejection: Option<Exception>): (o: UploadOutcome)
    ensures rejection.None? <==> o == Written
    ensures rejection == Some(S3UploadFailedError) <==> o == Exited(1)
    ensures o.Raised? ==> rejection == Some(o.error) && o.error != S3UploadFailedError
    ensures rejection.Some? && rejection.value != S3UploadFailedError ==> o == Raised(rejection.value)
  {
    match rejection
    case None => Written
    case Some(S3UploadFailedError) => Exited(1)
    case Some(e) => Raised(e)
  }

  datatype RecordHandler = RecordHandler(fileIndex: int, filePrefix: string, table: string, dataSet: seq<Row>)
  {
    /** `num_records`: the number of rows to handle. */
    function NumRecords(): (n: nat)
      ensures n == 0 <==> dataSet == []
    {
      |dataSet|
    }

    /**
     * `content_filename`: `{file_prefix}_{file_index}.json`, always with the index,
     * even 0; for a non-zero index it is the file name of the matching record.
     */
    function ContentFilename(): (name: string)
      ensures EndsWith(name, ".json")
      ensures '/' !in filePrefix ==> '/' !in name
      ensures fileIndex != 0 ==> name == BucketFileObject(table, filePrefix, Some(fileIndex)).ContentFilename()
    {
      IntToStringChars(fileIndex);
      filePrefix + "_" + IntToString(fileIndex) + ".json"
    }

    /**
     * `object_key`: `{table}/{content_filename}`; a key `from_key` accepts when the
     * table and prefix hold no `/`, and for a non-zero index the key of the matching record.
     */
    function ObjectKey(): (key: string)
      ensures '/' !in table && '/' !in filePrefix ==> WellFormedKey(key)
      ensures fileIndex != 0 ==> key == BucketFileObject(table, filePrefix, Some(fileIndex)).ObjectKey()
    {
      CountAppend(table + "/", ContentFilename(), '/');
      CountAppend(table, "/", '/');
      table + "/" + ContentFilename()
    }

    /**
     * `upload_content`: nothing is sent for an empty batch; otherwise the key is
     * optionally deleted first, then the rows are put under it. The first call that
     * fails ends the protocol: an `S3UploadFailedError` exits with status 1, any
     * other exception propagates, and no put follows a failed delete.
     */
    method UploadContent(aws: AWSClient, deleteFirst: bool) returns (o: UploadOutcome)
      modifies aws.store
      ensures dataSet == [] ==> o == Skipped && aws.store.log == old(aws.store.log)
      ensures dataSet != [] && !deleteFirst ==>
        var put := Put(aws.bucket, ObjectKey(), dataSet);
        aws.store.log == old(aws.store.log) + [put] && o == Settle(aws.store.reject(put))
      ensures dataSet != [] && deleteFirst ==>
        var del, put := Delete(aws.bucket, ObjectKey()), Put(aws.bucket, ObjectKey(), dataSet);
        if aws.store.reject(del).Some? then
          aws.store.log == old(aws.store.log) + [del] && o == Settle(aws.store.reject(del))
        else
          aws.store.log == old(aws.store.log) + [del, put] && o == Settle(aws.store.reject(put))
    {
      var count := NumRecords();
      if count > 0 {
        if deleteFirst {
          var deleted := aws.DeleteFile(ObjectKey());
          if deleted.Fail? {
            return Settle(Some(deleted.error));
          }
        }
        var put := aws.PutObject(dataSet, ObjectKey());
        if put.Fail? {
          return Settle(Some(put.error));
        }
        return Written;
      } else {
        return Skipped;
      }
    }
  }

  /**
   * The handler's key names the same file as a `BucketFileObject` of its table,
   * prefix and index exactly when the index is non-zero: for index 0 the record
   * encodes to the bare prefix.
   */
  lemma HandlerKeyMatchesRecord(h: RecordHandler)
    ensures BucketFileObject(h.table, h.filePrefix, Some(h.fileIndex)).ObjectKey() == h.ObjectKey()
        <==> h.fileIndex != 0
  {
    var r := BucketFileObject(h.table, h.filePrefix, Some(h.fileIndex));
    if h.fileIndex == 0 {
      assert |r.ObjectKey()| < |h.ObjectKey()|;
    }
  }

  /**
   * For a table and prefix without `/`, the handler's key decodes with no index
   * (its name ends in `.json`) and re-encodes to the same key.
   */
  lemma HandlerKeyRoundTrip(h: RecordHandler)
    requires '/' !in h.table && '/' !in h.filePrefix
    ensures FromKey(h.ObjectKey()) == Success(BucketFileObject(h.table, h.ContentFilename(), None))
    ensures FromKey(h.ObjectKey()).value.ObjectKey() == h.ObjectKey()
  {
    IntToStringChars(h.fileIndex);
    assert '/' !in h.ContentFilename();
    JsonNameKeepsSuffix(h.table, h.ContentFilename());
  }

  /**
   * With the intended decoding, the handler's key gives back its table, prefix
   * and index whenever the index is non-zero.
   */
  lemma HandlerKeyIntendedRoundTrip(h: RecordHandler)
    requires '/' !in h.table && '/' !in h.filePrefix && h.fileIndex != 0
    ensures FromKeyIntended(h.ObjectKey()) == Success(BucketFileObject(h.table, h.filePrefix, Some(h.fileIndex)))
  {
    HandlerKeyMatchesRecord(h);
    IntendedRoundTrip(BucketFileObject(h.table, h.filePrefix, Some(h.fileIndex)));
  }
}
