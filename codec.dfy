/**
 * The object-key naming scheme: a key `table/name` names one file of one table,
 * and a name `{prefix}_{index}.json` carries the block index of that file.
 * `BucketFileObject` is the decoded form of a key (dune_aws/aws.py:22-69).
 */
module Codec {
  import opened Wrappers
  import opened Errors
  import opened Strings

  /** Python truthiness of an `Optional[int]`: `None` and `0` are both false. */
  predicate Truthy(index: Option<int>)
  {
    index.Some? && index.value != 0
  }

  datatype BucketFileObject = BucketFileObject(path: string, prefix: string, index: Option<int>)
  {
    /** The file name without the table: the bare prefix when the index is falsy. */
    function ContentFilename(): (name: string)
      ensures !Truthy(index) ==> name == prefix
      ensures Truthy(index) ==> EndsWith(name, ".json") && |name| > |prefix| + 1 && name[..|prefix| + 1] == prefix + "_"
      ensures '/' !in prefix ==> '/' !in name
    {
      if !Truthy(index) then prefix
      else
        IntToStringChars(index.value);
        prefix + "_" + IntToString(index.value) + ".json"
    }

    /** The key this record stands for: `"/".join([path, ContentFilename()])`. */
    function ObjectKey(): string
    {
      path + "/" + ContentFilename()
    }
  }

  /**
   * `from_key`: the tuple unpack of `key.split("/")` raises `ValueError` unless the
   * key has exactly one `/`. The `.json` extension is NOT removed: the source calls
   * `name.replace(".json", "")` and drops its result. If the text after the last `_`
   * of the name is an integer, that is the index and the text before it the prefix;
   * otherwise the whole name is the prefix and there is no index.
   */
  function FromKey(key: string): (r: Result<BucketFileObject, Exception>)
    ensures r.Failure? <==> Count(key, '/') != 1
    ensures r.Failure? ==> r.error == ValueError
    ensures r.Success? ==> '/' !in r.value.path && '/' !in r.value.prefix
  {
    SplitCount(key, '/');
    SplitJoin(key, '/');
    var parts := Split(key, '/');
    if |parts| != 2 then Failure(ValueError)
    else
      var path, name := parts[0], parts[1];
      DecodeName(path, name)
  }

  /** The part of `from_key` after the unpack: the name is split on `_` and its last piece parsed. */
  function DecodeName(path: string, name: string): (r: Result<BucketFileObject, Exception>)
    requires '/' !in name
    ensures r.Success? && r.value.path == path && '/' !in r.value.prefix
    ensures r.value.index.None? ==> r.value.prefix == name
  {
    var segments := Split(name, '_');
    match ParseInt(segments[|segments| - 1])
    case Some(block) =>
      SplitLast(name, '_');
      var prefix := Join(segments[..|segments| - 1], "_");
      Success(BucketFileObject(path, prefix, Some(block)))
    case None =>
      Success(BucketFileObject(path, name, None))
  }

  predicate WellFormedKey(key: string)
  {
    Count(key, '/') == 1
  }

  /**
   * The fields of a decoded key, read off the key by position: the path ends at
   * the `/`; the index is the text after the name's last `_`, if that parses; the
   * prefix is then the text before that `_`, or the whole name when nothing parses.
   */
  lemma FromKeyFields(key: string)
    requires WellFormedKey(key)
    ensures var i := Find(key, '/'); var name := key[i + 1..];
      var j := RFind(name, '_'); var last := name[j + 1..];
      && i < |key|
      && FromKey(key) == Success(
        match ParseInt(last)
        case Some(n) => BucketFileObject(key[..i], if j < 0 then "" else name[..j], Some(n))
        case None => BucketFileObject(key[..i], name, None))
  {
    var i := Find(key, '/');
    var path, name := key[..i], key[i + 1..];
    WellFormedKeyParts(key);
    FromKeyOfParts(path, name);
    DecodeNameFields(path, name);
  }

  /** A key with one `/` is the text before it, the `/`, and a `/`-free text after it. */
  lemma WellFormedKeyParts(key: string)
    requires WellFormedKey(key)
    ensures var i := Find(key, '/');
      && i < |key| && key == key[..i] + "/" + key[i + 1..]
      && '/' !in key[..i] && '/' !in key[i + 1..]
  {
    var i := Find(key, '/');
    if i < |key| {
      var path, name := key[..i], key[i + 1..];
      Around(key, i);
      NameHasNoSlash(key, path, name);
    }
  }

  /** After the only `/` of a key, there is none. */
  lemma NameHasNoSlash(key: string, path: string, name: string)
    requires Count(key, '/') == 1 && '/' !in path && key == path + "/" + name
    ensures '/' !in name
  {
    CountAppend(path + "/", name, '/');
    CountAppend(path, "/", '/');
  }

  /** `DecodeName` read off the name by position, around its last `_`. */
  lemma DecodeNameFields(path: string, name: string)
    requires '/' !in name
    ensures var j := RFind(name, '_'); var last := name[j + 1..];
      DecodeName(path, name) == Success(
        match ParseInt(last)
        case Some(n) => BucketFileObject(path, if j < 0 then "" else name[..j], Some(n))
        case None => BucketFileObject(path, name, None))
  {
    SplitLast(name, '_');
  }

  /** A key built from a `/`-free path and name decodes by splitting the name alone. */
  lemma FromKeyOfParts(path: string, name: string)
    requires '/' !in path && '/' !in name
    ensures FromKey(path + "/" + name) == DecodeName(path, name)
  {
    SplitTwo(path, name, '/');
  }

  /**
   * The `.json` quirk: a name that ends in `.json` never yields an index, because
   * its last `_` piece ends in `n`, so the whole name is kept as the prefix.
   */
  lemma JsonNameKeepsSuffix(path: string, name: string)
    requires '/' !in path && '/' !in name && EndsWith(name, ".json")
    ensures FromKey(path + "/" + name) == Success(BucketFileObject(path, name, None))
  {
    assert name[|name| - 1] == name[|name| - 5..][4] == 'n';
    LastPieceEnds(name, '_');
    DecodeNameUnindexed(path, name);
    FromKeyOfParts(path, name);
  }

  /** A name whose last `_` piece ends in something other than a digit is kept whole, with no index. */
  lemma DecodeNameUnindexed(path: string, name: string)
    requires '/' !in name
    requires var parts := Split(name, '_'); var last := parts[|parts| - 1];
      |last| > 0 && !IsDigit(last[|last| - 1])
    ensures DecodeName(path, name) == Success(BucketFileObject(path, name, None))
  {
  }

  /** The same for a whole key: a key with one `/` that ends in `.json` decodes with no index. */
  lemma JsonKeyHasNoIndex(key: string)
    requires WellFormedKey(key) && EndsWith(key, ".json")
    ensures FromKey(key).Success? && FromKey(key).value.index.None?
  {
    WellFormedKeyParts(key);
    var i := Find(key, '/');
    var path, name := key[..i], key[i + 1..];
    assert key[|key| - 5..] == ".json";
    assert i < |key| - 5;
    assert name[|name| - 5..] == key[|key| - 5..];
    JsonNameKeepsSuffix(path, name);
  }

  /** A name `{p}_{d}` whose last piece `d` is an integer decodes to prefix `p` and that index. */
  lemma DecodeIndexed(path: string, p: string, d: string, n: int)
    requires '/' !in path && '/' !in p && '/' !in d && '_' !in d
    requires ParseInt(d) == Some(n)
    ensures FromKey(path + "/" + p + "_" + d) == Success(BucketFileObject(path, p, Some(n)))
  {
    var name := p + "_" + d;
    assert path + "/" + p + "_" + d == path + "/" + name;
    FromKeyOfParts(path, name);
    DecodeNameIndexed(path, p, d, n);
  }

  lemma DecodeNameIndexed(path: string, p: string, d: string, n: int)
    requires '/' !in p && '/' !in d && '_' !in d
    requires ParseInt(d) == Some(n)
    ensures DecodeName(path, p + "_" + d) == Success(BucketFileObject(path, p, Some(n)))
  {
    var name := p + "_" + d;
    DecodeNameFields(path, name);
    RFindIs(name, '_', |p|);
    assert name[|p| + 1..] == d;
    assert name[..|p|] == p;
  }

  /**
   * Round trip for keys without an index: whenever decoding finds no index,
   * re-encoding the record gives the original key back.
   */
  lemma RoundTripUnindexed(key: string)
    requires FromKey(key).Success? && FromKey(key).value.index.None?
    ensures FromKey(key).value.ObjectKey() == key
  {
    WellFormedKeyParts(key);
    var i := Find(key, '/');
    FromKeyOfParts(key[..i], key[i + 1..]);
  }

  /**
   * Decoding the key of a record keeps its path, so a record is always deleted
   * under its own table.
   */
  lemma ObjectKeyKeepsPath(r: BucketFileObject)
    requires '/' !in r.path && '/' !in r.prefix
    ensures FromKey(r.ObjectKey()).Success?
    ensures FromKey(r.ObjectKey()).value.path == r.path
  {
    var name := r.ContentFilename();
    if Truthy(r.index) {
      IntToStringChars(r.index.value);
      assert name == r.prefix + "_" + IntToString(r.index.value) + ".json";
    }
    assert '/' !in name;
    assert r.ObjectKey() == r.path + "/" + name;
    FromKeyOfParts(r.path, name);
  }

  /**
   * A key `{path}/{p}_{n}` (no `.json`) decodes to index `n`, but re-encodes with
   * `.json` appended: the key that `delete_all` deletes is not the key listed.
   */
  lemma IndexedKeyWithoutJsonMoves(path: string, p: string, n: int)
    requires '/' !in path && '/' !in p && n != 0
    ensures FromKey(path + "/" + p + "_" + IntToString(n)) == Success(BucketFileObject(path, p, Some(n)))
    ensures FromKey(path + "/" + p + "_" + IntToString(n)).value.ObjectKey()
         == path + "/" + p + "_" + IntToString(n) + ".json"
  {
    IntToStringChars(n);
    ParseIntToString(n);
    DecodeIndexed(path, p, IntToString(n), n);
  }

  // ---------------------------------------------------------------------------
  // The decoding evidently intended: `name = name.replace(".json", "")`, so that
  // the names this system writes, `{prefix}_{index}.json`, yield their index.
  // ---------------------------------------------------------------------------

  /**
   * As written, the key of every record with a block index decodes with NO
   * index: its whole file name `{prefix}_{index}.json` becomes the prefix.
   */
  lemma {:induction false} WrittenKeyLosesIndex(r: BucketFileObject)
    requires '/' !in r.path && '/' !in r.prefix && Truthy(r.index)
    ensures FromKey(r.ObjectKey()) == Success(BucketFileObject(r.path, r.ContentFilename(), None))
  {
    IntToStringChars(r.index.value);
    assert '/' !in r.ContentFilename();
    JsonNameKeepsSuffix(r.path, r.ContentFilename());
  }

  /**
   * Decoding with the `.json` extension removed before the index is parsed. The
   * extension is only dropped when the stem decodes to a record whose file name
   * is the name itself, so every key that decodes re-encodes to the key it came
   * from: a name with no index, with index `0` or with a padded numeral such as
   * `07` is kept whole, as `from_key` keeps it.
   */
  function FromKeyIntended(key: string): (r: Result<BucketFileObject, Exception>)
    ensures r.Failure? <==> Count(key, '/') != 1
    ensures r.Failure? ==> r.error == ValueError
    ensures r.Success? ==> '/' !in r.value.path && '/' !in r.value.prefix
    ensures r.Success? ==> r.value.ObjectKey() == key
  {
    SplitCount(key, '/');
    SplitJoin(key, '/');
    var parts := Split(key, '/');
    if |parts| != 2 then Failure(ValueError)
    else
      var path, name := parts[0], parts[1];
      DecodeNameIntended(path, name)
  }

  function DecodeNameIntended(path: string, name: string): (r: Result<BucketFileObject, Exception>)
    requires '/' !in name
    ensures r.Success? && r.value.path == path && '/' !in r.value.prefix
    ensures r.value.ContentFilename() == name
  {
    if EndsWith(name, ".json") && DecodeName(path, name[..|name| - 5]).value.ContentFilename() == name then
      DecodeName(path, name[..|name| - 5])
    else Success(BucketFileObject(path, name, None))
  }

  /**
   * Round trip for the intended decoding: every record with a truthy index and
   * `/`-free path and prefix is recovered from its own key.
   */
  lemma IntendedRoundTrip(r: BucketFileObject)
    requires '/' !in r.path && '/' !in r.prefix && Truthy(r.index)
    ensures FromKeyIntended(r.ObjectKey()) == Success(r)
  {
    var n := r.index.value;
    var d := IntToString(n);
    IntToStringChars(n);
    ParseIntToString(n);
    var stem := r.prefix + "_" + d;
    var name := stem + ".json";
    assert r.ContentFilename() == name;
    SplitTwo(r.path, name, '/');
    assert name[..|name| - 5] == stem;
    DecodeNameIndexed(r.path, r.prefix, d, n);
  }

  /**
   * The key `RecordHandler` writes for index `0`, `{path}/{p}_0.json`, is kept
   * whole by the intended decoding: its stem would re-encode without `_0`.
   */
  lemma IntendedIndexZeroKept(path: string, p: string)
    requires '/' !in path && '/' !in p
    ensures FromKeyIntended(path + "/" + p + "_0.json") == Success(BucketFileObject(path, p + "_0.json", None))
  {
    var stem, name := p + "_" + "0", p + "_0.json";
    assert ParseInt("0") == Some(0);
    DecodeNameIndexed(path, p, "0", 0);
    assert name[..|name| - 5] == stem;
    assert '/' !in name;
    assert DecodeNameIntended(path, name) == Success(BucketFileObject(path, name, None)) by {
      var r := BucketFileObject(path, p, Some(0));
      assert DecodeName(path, name[..|name| - 5]) == Success(r);
      assert r.ContentFilename() == p;
      assert |p| < |name|;
    }
    assert path + "/" + p + "_0.json" == path + ['/'] + name;
    SplitTwo(path, name, '/');
  }
}
