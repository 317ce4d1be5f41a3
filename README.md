# dune-aws key naming and sync protocol, in Dafny

This project models the core of `dune_aws`. That core keeps an append-style, block-indexed file log in an S3 bucket:

- Each table is a directory-like prefix.
- Each file in a table is named `{prefix}_{block}.json`.
- The sync state is recovered from the file names alone.

The model covers five parts:

- **The key codec, `BucketFileObject` (module `Codec`).** It decodes `table/name` into a path, a prefix and an optional block index, and re-encodes a record into a key.
- **The directory snapshot, `BucketStructure` (module `Directory`).** It groups the decoded keys of one bucket listing by table, in listing order.
- **`AWSClient` (module `Client`).** This covers `delete_file` and `put_object`, plus `last_sync_block` and `delete_all`, which are built on the snapshot.
  - The store is an `ObjectStore` object that logs every call issued on it (`Delete`, `Put`).
  - A fixed function `reject` gives the exception each call raises.
  - The listing that `existing_files` reads from the bucket is passed in as a sequence of keys.
- **`RecordHandler` (module `RecordHandling`).** It holds the key formatting `{table}/{prefix}_{index}.json` and the upload protocol `upload_content`: skip an empty batch, optionally delete first, then put. An upload failure becomes an `Exited(1)` outcome.
- **Python string built-ins (module `Strings`).** This covers `str.split` with one separator character, `str.join`, `int(s)` and `str(n)`.

The model follows the code as written, including its quirks. In places the code does not do what its own docstrings and comments promise; there the model follows the code:

- The `BucketFileObject` docstring (dune_aws/aws.py:24-26) says files are `table_name/prefix_N.json`. The `from_key` docstring (dune_aws/aws.py:37-38) says a key is split into parts "from which it can be reconstructed". The code calls `name.replace(".json", "")` and drops the result. As a result, a name ending in `.json` never yields an index, and the parts of `t/cow_7.json` do not rebuild the key `t/cow_7.json` as an indexed file (see Findings).
- The `put_object` and `delete_file` docstrings (dune_aws/aws.py:191-192 and 213-214) name the keys `{table_name}/cow_{latest_block_number}.json`. The `last_sync_block` docstring (dune_aws/aws.py:252-253) says the last sync block is determined from the file names. On the listing `t/cow_3.json`, `t/cow_7.json`, `t/cow_1.json` the code raises `FileNotFoundError` instead of giving 7 (`Client.WrittenBlocksInvisible`).
- In `upload_content` (dune_aws/record_handler.py:58-70) the pre-emptive delete and the put sit in the same `try`. So an `S3UploadFailedError` from either call ends in `sys.exit(1)`, and any other exception propagates.
- `delete_all` (dune_aws/aws.py:264-274) reads the table with `.get`, which returns the empty list for an absent table and never raises `KeyError`. An absent table therefore deletes nothing.

## Model

| member | source | states |
|---|---|---|
| Codec.FromKey | dune_aws/aws.py:34-54 | raises `ValueError` exactly when the key does not have exactly one `/` (the unpack of `split("/")`); a decoded path and prefix hold no `/` |
| Codec.FromKeyFields | dune_aws/aws.py:40-53 | decoding read off the key by position: the path is the text before the `/`. If the text after the name's last `_` parses as an integer, that is the index and the text before that `_` is the prefix (empty when there is no `_`). Otherwise the prefix is the whole name and there is no index |
| Codec.JsonNameKeepsSuffix | dune_aws/aws.py:42-53 | a name ending in `.json` decodes with no index and keeps its full name, `.json` included, as the prefix |
| Codec.JsonKeyHasNoIndex | dune_aws/aws.py:40-53 | every well-formed key ending in `.json` decodes with no index |
| Codec.DecodeIndexed | dune_aws/aws.py:43-46 | a name `{p}_{d}` whose last piece `d` parses as `n` decodes to prefix `p` and index `n` |
| Codec.RoundTripUnindexed | dune_aws/aws.py:50-69 | whenever decoding finds no index, the record's `object_key` is the original key |
| Codec.BucketFileObject.ContentFilename | dune_aws/aws.py:64-69 | the bare prefix when the index is `None` or `0`; otherwise a name that starts with `{prefix}_` and ends in `.json` |
| Codec.BucketFileObject.ObjectKey | dune_aws/aws.py:56-62 | the key `{path}/{content_filename}`. Its meaning is stated by the lemmas beside it: a key that decodes with no index re-encodes to itself (`Codec.RoundTripUnindexed`); the key of a record with `/`-free path and prefix decodes back to that path (`Codec.ObjectKeyKeepsPath`); with the corrected decoding the key of every indexed record gives back that record (`Codec.IntendedRoundTrip`), and every key decoded gives back the key (`Codec.FromKeyIntended`) |
| Codec.ObjectKeyKeepsPath | dune_aws/aws.py:56-62 | the `object_key` of a record with `/`-free path and prefix decodes back to the same path |
| Codec.IndexedKeyWithoutJsonMoves | dune_aws/aws.py:43-69 | a key `{path}/{p}_{n}` with `n` non-zero decodes to index `n`, but re-encodes to `{path}/{p}_{n}.json`, a different key |
| Codec.WrittenKeyLosesIndex | dune_aws/aws.py:42 | as written, the key of every record with a truthy index decodes with no index: its file name becomes the prefix |
| Codec.FromKeyIntended | dune_aws/aws.py:34-54 | the corrected decoding. It fails exactly when the key does not have exactly one `/`, as `from_key` does. Every key it decodes re-encodes to itself, the reconstruction the `from_key` docstring (dune_aws/aws.py:36-38) promises |
| Codec.IntendedRoundTrip | dune_aws/aws.py:36-38 | with the corrected decoding, every record with `/`-free path and prefix and a truthy index is recovered from its own key |
| Codec.IntendedIndexZeroKept | dune_aws/aws.py:64-69 | with the corrected decoding, the key `{path}/{p}_0.json` (the key `RecordHandler` writes for index 0) is kept whole, with no index, because index 0 is falsy and would not re-encode to that name |
| Directory.BucketStructure.Get | dune_aws/aws.py:96-101 | the empty list for an absent table, the table's list otherwise |
| Directory.FromBucketCollection | dune_aws/aws.py:78-94 | raises `ValueError` exactly when some key of the listing is malformed. Otherwise the result is the grouping of the listing: one entry per table that occurs, holding that table's decoded records in listing order |
| Directory.GroupedStep | dune_aws/aws.py:87-90 | appending a key to the listing appends its decoded record to its table's list and changes no other table |
| Directory.RecordsHavePath | dune_aws/aws.py:87-90 | every record listed under table `T` has path `T` |
| Directory.RecordsAppend | dune_aws/aws.py:87-90 | listing order is kept: the records of a listing `k1 + k2` are those of `k1` followed by those of `k2` |
| Directory.RecordsEmptyIff | dune_aws/aws.py:84-90 | a table has records exactly when some key of the listing has it as its path |
| Directory.GetIsRecords | dune_aws/aws.py:96-101 | `get(T)` on a snapshot returns `T`'s records in listing order, and `[]` for a table no key names |
| Directory.RecordCountIsKeyCount | dune_aws/aws.py:87-90 | summed over the tables of the listing, the snapshot holds exactly one record per key |
| Client.MaxIndex | dune_aws/aws.py:257 | `None` exactly when no record has a truthy index. Otherwise the result is a truthy index of some record, and no truthy index is larger |
| Client.AWSClient.constructor | dune_aws/aws.py:109-115 | the client keeps the two roles, the external id and the bucket it is given |
| Client.AWSClient.DeleteFile | dune_aws/aws.py:210-223 | exactly one delete call is issued, on the client's bucket for the given key; it returns, or raises what the store raises |
| Client.AWSClient.PutObject | dune_aws/aws.py:187-208 | exactly one put call is issued, on the client's bucket with the given key and the rows unchanged; it returns, or raises what the store raises |
| Client.AWSClient.LastSyncBlock | dune_aws/aws.py:250-262 | for a given listing, returns the largest truthy index of the table's records. It raises `FileNotFoundError` exactly when the listing holds a malformed key or no record of the table has a truthy index |
| Client.AWSClient.DeleteAll | dune_aws/aws.py:264-274 | on a malformed listing it raises `ValueError` with no call issued. Otherwise it issues one delete per record of the table, in order, by the record's `object_key`, up to and including the first failing call, and raises that call's exception. An absent table issues no call |
| Client.AWSClient.DeleteFiles | dune_aws/aws.py:270-272 | the loop of `delete_all`: the delete calls of the records, in order, issued up to and including the first that fails; the result is that call's exception, or success when none fails |
| Client.DeletePlanStaysInTable | dune_aws/aws.py:268-272 | every key `delete_all` deletes is on the client's bucket and decodes to a record of the table being emptied |
| Client.DeletePlanIsListedKeys | dune_aws/aws.py:268-272 | when no key of the table carries an index, the deleted keys are exactly the table's listed keys, in listing order |
| Client.DeletePlanOfJsonKeys | dune_aws/aws.py:268-272 | on a listing of `.json` keys, the deleted keys are exactly the table's listed keys, in listing order |
| Client.WrittenBlocksInvisible | dune_aws/aws.py:250-262 | as written, on a listing made only of keys of records with truthy indices, no record of any table has a truthy index, so `last_sync_block` raises |
| Client.IntendedLastSyncBlock | dune_aws/aws.py:250-257 | with the corrected decoding, the snapshot of the written keys gives back the written records of the table, so the maximum is the largest block written |
| RecordHandling.RecordHandler.NumRecords | dune_aws/record_handler.py:35-37 | the number of rows; zero exactly for an empty data set |
| RecordHandling.Settle | dune_aws/record_handler.py:58-70 | a call that succeeds counts as written; an `S3UploadFailedError` is exit status 1; any other exception is raised again unchanged |
| RecordHandling.RecordHandler.UploadContent | dune_aws/record_handler.py:49-73 | no call on an empty data set. Otherwise one `Put` of the data set under the handler's key, preceded by a `Delete` of the same key when `delete_first` is set. A failed delete ends the protocol with no put. The outcome is settled by the first failing call |
| RecordHandling.RecordHandler.ContentFilename | dune_aws/record_handler.py:39-42 | a name ending in `.json`, with no `/` when the prefix has none. For a non-zero index it is the `content_filename` of the `BucketFileObject` with the same table, prefix and index |
| RecordHandling.RecordHandler.ObjectKey | dune_aws/record_handler.py:44-47 | a key with exactly one `/` when table and prefix have none, so `from_key` accepts it. For a non-zero index it is the `object_key` of the `BucketFileObject` with the same table, prefix and index; `RecordHandling.HandlerKeyRoundTrip` and `RecordHandling.HandlerKeyIntendedRoundTrip` state what it decodes to |
| RecordHandling.HandlerKeyMatchesRecord | dune_aws/record_handler.py:39-47 | the handler's key equals the `object_key` of the `BucketFileObject` with the same table, prefix and index exactly when the index is non-zero |
| RecordHandling.HandlerKeyRoundTrip | dune_aws/record_handler.py:44-47 | for a `/`-free table and prefix, the handler's key decodes with no index, its file name as the prefix, and re-encodes to the same key |
| RecordHandling.HandlerKeyIntendedRoundTrip | dune_aws/record_handler.py:39-47 | with the corrected decoding, the handler's key gives back its table, prefix and non-zero index |
| Strings.SplitCount | dune_aws/aws.py:40 | `s.split(c)` has one more piece than `s` has occurrences of `c`, so the two-name unpack needs exactly one `/` |
| Strings.SplitLast | dune_aws/aws.py:44-46 | the last piece of `s.split(c)` is the text after the last `c`, and the other pieces joined by `c` are the text before it |
| Strings.ParseIntToString | dune_aws/aws.py:45 | `int(str(n)) == n` for every integer |

## Findings

| source | as written | input that shows it | evidently intended | confidence | as-written member | corrected member |
|---|---|---|---|---|---|---|
| dune_aws/aws.py:42 | `name.replace(".json", "")` discards its result, so the last `_` piece of a `.json` name never parses | `t/cow_7.json`, the key `RecordHandler(7, "cow", "t", rows)` writes, decodes to prefix `cow_7.json` and no index | the extension is removed before parsing, so the key decodes to prefix `cow`, index 7 and re-encodes to itself | not executed; high | `Codec.WrittenKeyLosesIndex` | `Codec.IntendedRoundTrip` |
| dune_aws/aws.py:250-262 | because of the row above, `last_sync_block` finds no indexed file among the files the system writes | listing `t/cow_3.json`, `t/cow_7.json`, `t/cow_1.json`: raises `FileNotFoundError` | the last sync block is 7 | not executed; high | `Client.WrittenBlocksInvisible` | `Client.IntendedLastSyncBlock` |

The corrected decoding `Codec.FromKeyIntended` removes `.json` only when the rest of the name decodes to a record whose file name is the name itself. So every key it decodes re-encodes to that key. A name with no index, with index `0` (`t/cow_0.json`, see `Codec.IntendedIndexZeroKept`), with a zero-padded numeral (`t/cow_07.json`) or with an empty prefix (`t/5.json`) is kept whole, with no index, as the code as written keeps it. Stripping `.json` before every parsable index would instead decode `t/cow_0.json` to a record whose key is `t/cow`, and `delete_all` would then miss that file. Everything else in the model follows the code as written. Decoding, grouping, `last_sync_block` and `delete_all` all use `Codec.FromKey`, because that is the behaviour the system has. The corrected decoding is used by the members of the "corrected member" column and by `RecordHandling.HandlerKeyIntendedRoundTrip`.

## Left out

- `AWSClient._assume_role` and `_get_s3_client` (dune_aws/aws.py:128-171) are two-hop STS role chaining. Credentials and sessions are not modelled. When `delete_file` or `put_object` fails there, the model counts it as a call the store rejects (`ObjectStore.reject`).
- `AWSClient.new_from_environment` (dune_aws/aws.py:117-126) loads environment variables; environment loading is not part of this model.
- `AWSClient.upload_file` and `download_file` (dune_aws/aws.py:173-237) transfer local files; local file I/O is not part of this model.
- `AWSClient.existing_files` (dune_aws/aws.py:239-248) lists the bucket. The listing is a parameter (`listing`) of `LastSyncBlock` and `DeleteAll`, and the model assumes it is complete.
- `Client.AWSClient.LastSyncBlock` and `Client.AWSClient.DeleteAll` do not model a failure of `existing_files` itself (role assumption or listing, dune_aws/aws.py:239-248), because the listing is a parameter. In the source such a failure, unless it is a `ValueError`, leaves `last_sync_block` unconverted, and it makes `delete_all` raise before any delete.
- `Client.AWSClient.PutObject` does not model the JSON-lines body that `put_object` builds with `json.dumps` and `BytesIteratorIO`. The rows are opaque values of type `Row`, recorded unchanged in the `Put` call.
- `Client.AWSClient.DeleteFile` and `PutObject` return `Pass` where the source returns `True`. The `ACL` argument is not modelled.
- S3 semantics are a property of the store, not of this code, so none is claimed: overwrite on put, what a listing returns after a delete, and what a second put to the same key leaves behind.
- `Strings.ParseInt` does not model Python `int()` in full. It accepts an optional sign and one or more ASCII digits. It does not accept surrounding whitespace, `_` between digits (which cannot reach it, since names are split on `_`) or non-ASCII digits.
- `Strings.ParseInt` and `Strings.IntToString` have no length limit. Since Python 3.11, `int()` (dune_aws/aws.py:45) and `str()` of an integer (dune_aws/aws.py:68, dune_aws/record_handler.py:42) raise `ValueError` beyond 4300 decimal digits. The model accepts such numbers: a longer last piece is parsed as an index, and a longer index is formatted.
- The `except KeyError` branch of `delete_all` (dune_aws/aws.py:273-274) is not modelled. It is unreachable from `.get`. A `KeyError` from the credential lookups in `_assume_role` (dune_aws/aws.py:146, 151-155, 163, 167-169), reached through `existing_files` or `delete_file`, would land there and be raised again as `ValueError`. The model's `Exception` type has no `KeyError`, because credentials are not modelled.
- The `ObjectStore` log also records a call that fails, since that call was issued. The failure is the call's outcome.
- `RecordHandling.RecordHandler.UploadContent` reports `Skipped` or `Written` where the source returns `None` in both cases.
- Logging calls are not modelled.
- List-then-act staleness between the listing and the later deletes is a concurrency matter and is not modelled.
