/**
 * bricklayer.go: the store layout, seedDB (download the dump, replace the parts
 * collection, write the name index last) and getPort.
 */
module Bricklayer {
  import opened Wrappers
  import opened Text
  import opened Bricks
  import opened Util
  import opened Kv

  const DefaultPort: int := 3000
  const PartsPath: string := "parts"
  const IndexPath: string := "index"
  const PartsIndex: string := "parts"
  /**
   * The collection of cached extended records. controller.go uses it, but neither
   * it nor bricklayer.go defines it; any name other than the two above serves.
   */
  const ExtendedPartsPath: string := "extended-parts"

  function PartKey(name: string): string {
    Key(PartsPath, name)
  }

  const IndexKey: string := Key(IndexPath, PartsIndex)

  function ExtendedKey(name: string): string {
    Key(ExtendedPartsPath, name)
  }

  /** Every part key lies in the parts collection; the index and the extended records lie outside it. */
  lemma KeyCollections(name: string)
    ensures InCollection(PartKey(name), PartsPath)
    ensures !InCollection(IndexKey, PartsPath)
    ensures !InCollection(ExtendedKey(name), PartsPath)
  {
    assert PartKey(name)[..6] == "parts/";
    assert IndexKey[0] == 'i';
    assert ExtendedKey(name)[0] == 'e';
  }

  /** The three kinds of key never collide, and each is determined by its name. */
  lemma KeysDistinct(a: string, b: string)
    ensures PartKey(a) != IndexKey && ExtendedKey(a) != IndexKey && ExtendedKey(a) != PartKey(b)
    ensures PartKey(a) == PartKey(b) <==> a == b
    ensures ExtendedKey(a) == ExtendedKey(b) <==> a == b
  {
    assert PartKey(a)[0] == 'p' && IndexKey[0] == 'i' && ExtendedKey(a)[0] == 'e';
    assert PartKey(a)[6..] == a && PartKey(b)[6..] == b;
    assert ExtendedKey(a)[15..] == a && ExtendedKey(b)[15..] == b;
  }

  /** json.Marshal of a record and of the name index; None is a marshalling error. */
  datatype Codec = Codec(brick: Biobrick -> Option<Bytes>, index: seq<string> -> Option<Bytes>)

  /** The errors seedDB returns, one per step. */
  datatype SeedError =
    | DownloadFailed(cause: DownloadError)  // "failed to download parts in seed of DB"
    | ProbeFailed                           // "could not verify if DB is empty"
    | ClearFailed                           // "could not delete all parts before seeding DB"
    | EncodeFailed(name: string)            // "could not get JSON from biobrick"
    | PersistFailed(name: string)           // "could not persist biobrick"
    | IndexEncodeFailed                     // "could not serialize all part names"
    | IndexPersistFailed                    // the error of the final Put, returned as is

  /** What a seeding run leaves: its error, the store, and the mutations it made in order. */
  datatype SeedOutcome = SeedOutcome(err: Option<SeedError>, data: map<string, Bytes>, log: seq<Mutation>)

  function WithLog(done: seq<Mutation>, o: SeedOutcome): SeedOutcome {
    o.(log := done + o.log)
  }

  /** The part names of the records, in order: the index seedDB builds. */
  function Names(bricks: seq<Biobrick>): (names: seq<string>)
    ensures |names| == |bricks|
    ensures forall i :: 0 <= i < |bricks| ==> names[i] == bricks[i].abs.partName
  {
    if bricks == [] then [] else [bricks[0].abs.partName] + Names(bricks[1..])
  }

  /** The record loop of seedDB: encode and put each record in order, stopping at the first error. */
  function PutRecords(bricks: seq<Biobrick>, codec: Codec, faults: set<Call>, data: map<string, Bytes>): SeedOutcome
    decreases |bricks|
  {
    if bricks == [] then SeedOutcome(None, data, [])
    else
      var name := bricks[0].abs.partName;
      match codec.brick(bricks[0])
      case None => SeedOutcome(Some(EncodeFailed(name)), data, [])
      case Some(bytes) =>
        if PutCall(PartKey(name)) in faults then SeedOutcome(Some(PersistFailed(name)), data, [])
        else WithLog([Stored(PartKey(name), bytes)], PutRecords(bricks[1..], codec, faults, data[PartKey(name) := bytes]))
  }

  /**
   * seedDB on the result of the download: probe the parts collection, clear it
   * when it is not empty, put the records, then write the index.
   */
  function Seed(downloaded: Result<seq<Biobrick>, DownloadError>, codec: Codec, data: map<string, Bytes>, faults: set<Call>): SeedOutcome {
    match downloaded
    case Failure(e) => SeedOutcome(Some(DownloadFailed(e)), data, [])
    case Success(bricks) => SeedRecords(bricks, codec, data, faults)
  }

  /** The mutations of the clearing step: one when the parts collection holds anything. */
  function ClearLog(data: map<string, Bytes>): seq<Mutation> {
    if Members(data, PartsPath) != {} then [Cleared(PartsPath)] else []
  }

  /** The store after the clearing step. */
  function ClearParts(data: map<string, Bytes>): map<string, Bytes> {
    if Members(data, PartsPath) != {} then WithoutCollection(data, PartsPath) else data
  }

  /** seedDB once the download succeeded. */
  function SeedRecords(bricks: seq<Biobrick>, codec: Codec, data: map<string, Bytes>, faults: set<Call>): SeedOutcome {
    if GetAllCall(PartsPath) in faults then SeedOutcome(Some(ProbeFailed), data, [])
    else if Members(data, PartsPath) != {} && DeleteAllCall(PartsPath) in faults then SeedOutcome(Some(ClearFailed), data, [])
    else WriteIndex(WithLog(ClearLog(data), PutRecords(bricks, codec, faults, ClearParts(data))), Names(bricks), codec, faults)
  }

  /** The last step of seedDB: after a complete record loop, encode and put the index. */
  function WriteIndex(puts: SeedOutcome, names: seq<string>, codec: Codec, faults: set<Call>): SeedOutcome {
    if puts.err.Some? then puts
    else match codec.index(names)
      case None => puts.(err := Some(IndexEncodeFailed))
      case Some(index) =>
        if PutCall(IndexKey) in faults then puts.(err := Some(IndexPersistFailed))
        else SeedOutcome(None, puts.data[IndexKey := index], puts.log + [Stored(IndexKey, index)])
  }

  lemma WithLogTwice(a: seq<Mutation>, b: seq<Mutation>, o: SeedOutcome)
    ensures WithLog(a, WithLog(b, o)) == WithLog(a + b, o)
  {
    assert a + (b + o.log) == (a + b) + o.log;
  }

  /** seedDB */
  method SeedDB(store: Store, fetch: Fetch, codec: Codec) returns (err: Option<SeedError>)
    modifies store
    ensures var o := Seed(Download(fetch), codec, old(store.data), store.faults);
      err == o.err && store.data == o.data && store.history == old(store.history) + o.log
  {
    var downloaded := DownloadAll(fetch);
    if downloaded.Failure? {
      return Some(DownloadFailed(downloaded.error));
    }
    var allBricks := downloaded.value;
    var allParts, failed := store.GetAll(PartsPath);
    if failed {
      return Some(ProbeFailed);
    }
    if |allParts| != 0 {
      failed := store.DeleteAll(PartsPath);
      if failed {
        return Some(ClearFailed);
      }
    }
    assert store.data == ClearParts(old(store.data)) && store.history == old(store.history) + ClearLog(old(store.data));
    ghost var cleared := store.history;
    err := Repopulate(store, allBricks, codec);
    WithLogTwice(old(store.history), ClearLog(old(store.data)),
                 WriteIndex(PutRecords(allBricks, codec, store.faults, ClearParts(old(store.data))), Names(allBricks), codec, store.faults));
    WriteIndexLog(ClearLog(old(store.data)), PutRecords(allBricks, codec, store.faults, ClearParts(old(store.data))), Names(allBricks), codec, store.faults);
  }

  /** The record loop of seedDB and the index write after it, on the cleared store. */
  method Repopulate(store: Store, allBricks: seq<Biobrick>, codec: Codec) returns (err: Option<SeedError>)
    modifies store
    ensures var o := WriteIndex(PutRecords(allBricks, codec, store.faults, old(store.data)), Names(allBricks), codec, store.faults);
      err == o.err && store.data == o.data && store.history == old(store.history) + o.log
  {
    ghost var done: seq<Mutation> := [];
    assert allBricks[0..] == allBricks;
    var allBioPartName := new string[|allBricks|];
    var i := 0;
    while i < |allBricks|
      invariant 0 <= i <= |allBricks| && allBioPartName.Length == |allBricks|
      invariant forall j :: 0 <= j < i ==> allBioPartName[j] == allBricks[j].abs.partName
      invariant store.history == old(store.history) + done
      invariant PutRecords(allBricks, codec, store.faults, old(store.data))
             == WithLog(done, PutRecords(allBricks[i..], codec, store.faults, store.data))
    {
      var biobrick := allBricks[i];
      var brickData := codec.brick(biobrick);
      if brickData.None? {
        assert done + [] == done;
        return Some(EncodeFailed(biobrick.abs.partName));
      }
      ghost var before := store.data;
      var failed := store.Put(PartKey(biobrick.abs.partName), brickData.value);
      if failed {
        assert done + [] == done;
        return Some(PersistFailed(biobrick.abs.partName));
      }
      allBioPartName[i] := biobrick.abs.partName;
      ghost var put := [Stored(PartKey(biobrick.abs.partName), brickData.value)];
      assert allBricks[i..][1..] == allBricks[i + 1..];
      assert PutRecords(allBricks[i..], codec, store.faults, before)
          == WithLog(put, PutRecords(allBricks[i + 1..], codec, store.faults, store.data));
      WithLogTwice(done, put, PutRecords(allBricks[i + 1..], codec, store.faults, store.data));
      done := done + put;
      i := i + 1;
    }
    assert done + [] == done;
    assert allBioPartName[..] == Names(allBricks);
    var indexData := codec.index(allBioPartName[..]);
    if indexData.None? {
      return Some(IndexEncodeFailed);
    }
    var failed := store.Put(IndexKey, indexData.value);
    if failed {
      return Some(IndexPersistFailed);
    }
    return None;
  }

  /** The clearing mutations come before whatever the index step logs. */
  lemma WriteIndexLog(clear: seq<Mutation>, puts: SeedOutcome, names: seq<string>, codec: Codec, faults: set<Call>)
    ensures WriteIndex(WithLog(clear, puts), names, codec, faults) == WithLog(clear, WriteIndex(puts, names, codec, faults))
  {
    if codec.index(names).Some? {
      var index := codec.index(names).value;
      assert (clear + puts.log) + [Stored(IndexKey, index)] == clear + (puts.log + [Stored(IndexKey, index)]);
    }
  }

  /** The record loop's error and mutations do not depend on the store, and its puts overwrite it. */
  lemma {:induction false} PutRecordsOverlay(bricks: seq<Biobrick>, codec: Codec, faults: set<Call>, data: map<string, Bytes>)
    ensures var alone := PutRecords(bricks, codec, faults, map[]);
      PutRecords(bricks, codec, faults, data) == SeedOutcome(alone.err, data + alone.data, alone.log)
    decreases |bricks|
  {
    if bricks == [] || codec.brick(bricks[0]).None? || PutCall(PartKey(bricks[0].abs.partName)) in faults {
      assert data + map[] == data;
    } else {
      var key := PartKey(bricks[0].abs.partName);
      var bytes := codec.brick(bricks[0]).value;
      PutRecordsOverlay(bricks[1..], codec, faults, data[key := bytes]);
      PutRecordsOverlay(bricks[1..], codec, faults, map[key := bytes]);
      var rest := PutRecords(bricks[1..], codec, faults, map[]).data;
      assert data[key := bytes] + rest == data + (map[key := bytes] + rest);
    }
  }

  /**
   * The record loop puts records in order, one mutation per record, and stops at
   * the first record that does not encode or whose put fails.
   */
  lemma {:induction false} PutRecordsLog(bricks: seq<Biobrick>, codec: Codec, faults: set<Call>, data: map<string, Bytes>)
    ensures var o := PutRecords(bricks, codec, faults, data);
      && |o.log| <= |bricks|
      && (o.err.None? <==> |o.log| == |bricks|)
      && (forall i :: 0 <= i < |o.log| ==>
            codec.brick(bricks[i]).Some? && o.log[i] == Stored(PartKey(bricks[i].abs.partName), codec.brick(bricks[i]).value))
      && (o.err.Some? ==>
            var b := bricks[|o.log|];
            || (o.err == Some(EncodeFailed(b.abs.partName)) && codec.brick(b).None?)
            || (o.err == Some(PersistFailed(b.abs.partName)) && codec.brick(b).Some? && PutCall(PartKey(b.abs.partName)) in faults))
    decreases |bricks|
  {
    if bricks != [] && codec.brick(bricks[0]).Some? && PutCall(PartKey(bricks[0].abs.partName)) !in faults {
      var key := PartKey(bricks[0].abs.partName);
      PutRecordsLog(bricks[1..], codec, faults, data[key := codec.brick(bricks[0]).value]);
    }
  }

  /** A key no record is put under keeps its value through the record loop. */
  lemma {:induction false} PutRecordsUntouched(bricks: seq<Biobrick>, codec: Codec, faults: set<Call>, data: map<string, Bytes>, k: string)
    requires forall j :: 0 <= j < |bricks| ==> k != PartKey(bricks[j].abs.partName)
    ensures var o := PutRecords(bricks, codec, faults, data);
      (k in o.data <==> k in data) && (k in data ==> o.data[k] == data[k])
    decreases |bricks|
  {
    if bricks != [] && codec.brick(bricks[0]).Some? && PutCall(PartKey(bricks[0].abs.partName)) !in faults {
      var key := PartKey(bricks[0].abs.partName);
      PutRecordsUntouched(bricks[1..], codec, faults, data[key := codec.brick(bricks[0]).value], k);
    }
  }

  /** After a complete record loop every record's key is stored, and a record no later one shares a name with keeps its encoding. */
  lemma {:induction false} PutRecordsStores(bricks: seq<Biobrick>, codec: Codec, faults: set<Call>, data: map<string, Bytes>, i: nat)
    requires i < |bricks|
    requires PutRecords(bricks, codec, faults, data).err.None?
    ensures var o := PutRecords(bricks, codec, faults, data);
      && PartKey(bricks[i].abs.partName) in o.data
      && codec.brick(bricks[i]).Some?
      && ((forall j :: i < j < |bricks| ==> bricks[j].abs.partName != bricks[i].abs.partName)
          ==> o.data[PartKey(bricks[i].abs.partName)] == codec.brick(bricks[i]).value)
    decreases |bricks|
  {
    var key := PartKey(bricks[0].abs.partName);
    var next := data[key := codec.brick(bricks[0]).value];
    if i == 0 {
      if 1 < |bricks| && exists j :: 1 <= j < |bricks| && bricks[j].abs.partName == bricks[0].abs.partName {
        var j :| 1 <= j < |bricks| && bricks[j].abs.partName == bricks[0].abs.partName;
        PutRecordsStores(bricks[1..], codec, faults, next, j - 1);
      } else {
        forall j | 0 <= j < |bricks[1..]| ensures key != PartKey(bricks[1..][j].abs.partName) {
          KeysDistinct(bricks[0].abs.partName, bricks[1..][j].abs.partName);
        }
        PutRecordsUntouched(bricks[1..], codec, faults, next, key);
      }
    } else {
      PutRecordsStores(bricks[1..], codec, faults, next, i - 1);
    }
  }

  /** The clearing step leaves no part and every key outside the parts collection as it was. */
  lemma ClearPartsKeeps(data: map<string, Bytes>)
    ensures Members(ClearParts(data), PartsPath) == {}
    ensures forall k :: !InCollection(k, PartsPath) ==> (k in ClearParts(data) <==> k in data)
    ensures forall k :: !InCollection(k, PartsPath) && k in data ==> ClearParts(data)[k] == data[k]
  {
  }

  /** The index step: it succeeds exactly when the loop did and the index encodes and persists; it changes nothing else. */
  lemma WriteIndexOutcome(puts: SeedOutcome, names: seq<string>, codec: Codec, faults: set<Call>)
    ensures var w := WriteIndex(puts, names, codec, faults);
      && (w.err.None? <==> puts.err.None? && codec.index(names).Some? && PutCall(IndexKey) !in faults)
      && (w.err.None? ==> w.data == puts.data[IndexKey := codec.index(names).value]
                          && w.log == puts.log + [Stored(IndexKey, codec.index(names).value)])
      && (w.err.Some? ==> w.data == puts.data && w.log == puts.log)
  {
  }

  /** A failed download, store probe or clear leaves the store untouched. */
  lemma SeedEarlyFailure(downloaded: Result<seq<Biobrick>, DownloadError>, codec: Codec, data: map<string, Bytes>, faults: set<Call>)
    requires || downloaded.Failure?
             || GetAllCall(PartsPath) in faults
             || (Members(data, PartsPath) != {} && DeleteAllCall(PartsPath) in faults)
    ensures var o := Seed(downloaded, codec, data, faults);
      o.err.Some? && o.data == data && o.log == []
  {
  }

  /**
   * A successful seed clears the parts collection first when it is not empty,
   * then puts every record in dump order, then writes the index of their names last.
   */
  lemma SeedOrder(bricks: seq<Biobrick>, codec: Codec, data: map<string, Bytes>, faults: set<Call>)
    requires Seed(Success(bricks), codec, data, faults).err.None?
    ensures var o := Seed(Success(bricks), codec, data, faults);
      var c := |ClearLog(data)|;
      && |o.log| == c + |bricks| + 1
      && (c == 1 <==> Members(data, PartsPath) != {})
      && (c == 1 ==> o.log[0] == Cleared(PartsPath))
      && (forall i :: 0 <= i < |bricks| ==>
            codec.brick(bricks[i]).Some? && o.log[c + i] == Stored(PartKey(bricks[i].abs.partName), codec.brick(bricks[i]).value))
      && codec.index(Names(bricks)).Some?
      && o.log[|o.log| - 1] == Stored(IndexKey, codec.index(Names(bricks)).value)
  {
    var clear := ClearLog(data);
    var p := PutRecords(bricks, codec, faults, ClearParts(data));
    WriteIndexLog(clear, p, Names(bricks), codec, faults);
    WriteIndexOutcome(p, Names(bricks), codec, faults);
    PutRecordsLog(bricks, codec, faults, ClearParts(data));
    var o := Seed(Success(bricks), codec, data, faults);
    assert o.log == clear + (p.log + [Stored(IndexKey, codec.index(Names(bricks)).value)]);
    forall i | 0 <= i < |bricks|
      ensures o.log[|clear| + i] == p.log[i]
    {
    }
  }

  /** A failed seed never writes the index: the index key keeps its old value, if any. */
  lemma SeedFailureKeepsIndex(downloaded: Result<seq<Biobrick>, DownloadError>, codec: Codec, data: map<string, Bytes>, faults: set<Call>)
    requires Seed(downloaded, codec, data, faults).err.Some?
    ensures var o := Seed(downloaded, codec, data, faults);
      && (forall i :: 0 <= i < |o.log| ==> !(o.log[i].Stored? && o.log[i].key == IndexKey))
      && (IndexKey in o.data <==> IndexKey in data)
      && (IndexKey in data ==> o.data[IndexKey] == data[IndexKey])
  {
    if downloaded.Success? && GetAllCall(PartsPath) !in faults
       && !(Members(data, PartsPath) != {} && DeleteAllCall(PartsPath) in faults) {
      var bricks := downloaded.value;
      var start := ClearParts(data);
      var p := PutRecords(bricks, codec, faults, start);
      KeyCollections("");
      ClearPartsKeeps(data);
      WriteIndexOutcome(WithLog(ClearLog(data), p), Names(bricks), codec, faults);
      PutRecordsLog(bricks, codec, faults, start);
      forall j | 0 <= j < |bricks| ensures IndexKey != PartKey(bricks[j].abs.partName) {
        KeysDistinct(bricks[j].abs.partName, "");
      }
      PutRecordsUntouched(bricks, codec, faults, start, IndexKey);
    }
  }

  /** Keys outside the parts collection, other than the index, survive any seed unchanged. */
  lemma SeedKeepsOtherKeys(downloaded: Result<seq<Biobrick>, DownloadError>, codec: Codec, data: map<string, Bytes>, faults: set<Call>, k: string)
    requires !InCollection(k, PartsPath) && k != IndexKey
    ensures var o := Seed(downloaded, codec, data, faults);
      (k in o.data <==> k in data) && (k in data ==> o.data[k] == data[k])
  {
    if downloaded.Success? && GetAllCall(PartsPath) !in faults
       && !(Members(data, PartsPath) != {} && DeleteAllCall(PartsPath) in faults) {
      var bricks := downloaded.value;
      var p := PutRecords(bricks, codec, faults, ClearParts(data));
      ClearPartsKeeps(data);
      WriteIndexOutcome(WithLog(ClearLog(data), p), Names(bricks), codec, faults);
      forall j | 0 <= j < |bricks| ensures k != PartKey(bricks[j].abs.partName) {
        KeyCollections(bricks[j].abs.partName);
      }
      PutRecordsUntouched(bricks, codec, faults, ClearParts(data), k);
    }
  }

  /** A key the record loop adds is the key of one of its records. */
  lemma {:induction false} PutRecordsKeys(bricks: seq<Biobrick>, codec: Codec, faults: set<Call>, data: map<string, Bytes>, k: string)
    requires k in PutRecords(bricks, codec, faults, data).data
    ensures k in data || exists j :: 0 <= j < |bricks| && k == PartKey(bricks[j].abs.partName)
    decreases |bricks|
  {
    if bricks != [] && codec.brick(bricks[0]).Some? && PutCall(PartKey(bricks[0].abs.partName)) !in faults {
      var key := PartKey(bricks[0].abs.partName);
      PutRecordsKeys(bricks[1..], codec, faults, data[key := codec.brick(bricks[0]).value], k);
      if k == key {
        assert k == PartKey(bricks[0].abs.partName);
      } else if k !in data {
        var j :| 0 <= j < |bricks[1..]| && k == PartKey(bricks[1..][j].abs.partName);
        assert k == PartKey(bricks[j + 1].abs.partName);
      }
    }
  }

  /** A successful seed: the record loop on the cleared store succeeded and the index was put over its result. */
  lemma SeedSuccess(bricks: seq<Biobrick>, codec: Codec, data: map<string, Bytes>, faults: set<Call>)
    requires Seed(Success(bricks), codec, data, faults).err.None?
    ensures var p := PutRecords(bricks, codec, faults, ClearParts(data));
      && p.err.None? && codec.index(Names(bricks)).Some?
      && Seed(Success(bricks), codec, data, faults).data == p.data[IndexKey := codec.index(Names(bricks)).value]
  {
    var p := PutRecords(bricks, codec, faults, ClearParts(data));
    WriteIndexLog(ClearLog(data), p, Names(bricks), codec, faults);
    WriteIndexOutcome(p, Names(bricks), codec, faults);
  }

  /** After a successful seed the index holds the encoded part names. */
  lemma SeedStoresIndex(bricks: seq<Biobrick>, codec: Codec, data: map<string, Bytes>, faults: set<Call>)
    requires Seed(Success(bricks), codec, data, faults).err.None?
    ensures codec.index(Names(bricks)).Some?
    ensures var o := Seed(Success(bricks), codec, data, faults);
      IndexKey in o.data && o.data[IndexKey] == codec.index(Names(bricks)).value
  {
    SeedSuccess(bricks, codec, data, faults);
  }

  /** After a successful seed every record's key is stored, the last record of a name winning. */
  lemma SeedStoresEveryName(bricks: seq<Biobrick>, codec: Codec, data: map<string, Bytes>, faults: set<Call>, i: nat)
    requires Seed(Success(bricks), codec, data, faults).err.None?
    requires i < |bricks|
    ensures codec.brick(bricks[i]).Some?
    ensures var o := Seed(Success(bricks), codec, data, faults);
      && PartKey(bricks[i].abs.partName) in o.data
      && ((forall j :: i < j < |bricks| ==> bricks[j].abs.partName != bricks[i].abs.partName)
          ==> o.data[PartKey(bricks[i].abs.partName)] == codec.brick(bricks[i]).value)
  {
    var p := PutRecords(bricks, codec, faults, ClearParts(data));
    SeedSuccess(bricks, codec, data, faults);
    PutRecordsStores(bricks, codec, faults, ClearParts(data), i);
    KeysDistinct(bricks[i].abs.partName, "");
    var key := PartKey(bricks[i].abs.partName);
    assert Seed(Success(bricks), codec, data, faults).data[key] == p.data[key];
  }

  /** After a successful seed the parts collection holds exactly the keys of the downloaded records. */
  lemma SeedReplacesParts(bricks: seq<Biobrick>, codec: Codec, data: map<string, Bytes>, faults: set<Call>)
    requires Seed(Success(bricks), codec, data, faults).err.None?
    ensures Members(Seed(Success(bricks), codec, data, faults).data, PartsPath)
         == set j | 0 <= j < |bricks| :: PartKey(bricks[j].abs.partName)
  {
    var o := Seed(Success(bricks), codec, data, faults);
    var p := PutRecords(bricks, codec, faults, ClearParts(data));
    SeedSuccess(bricks, codec, data, faults);
    KeyCollections("");
    ClearPartsKeeps(data);
    forall k | k in Members(o.data, PartsPath)
      ensures exists j :: 0 <= j < |bricks| && k == PartKey(bricks[j].abs.partName)
    {
      assert k !in Members(ClearParts(data), PartsPath);
      PutRecordsKeys(bricks, codec, faults, ClearParts(data), k);
    }
    forall j | 0 <= j < |bricks|
      ensures PartKey(bricks[j].abs.partName) in Members(o.data, PartsPath)
    {
      SeedStoresEveryName(bricks, codec, data, faults, j);
      KeyCollections(bricks[j].abs.partName);
    }
  }

  /** seedDB once the download succeeded, with the record loop run on an empty store and laid over the cleared one. */
  lemma SeedOverlay(bricks: seq<Biobrick>, codec: Codec, data: map<string, Bytes>, faults: set<Call>)
    requires GetAllCall(PartsPath) !in faults && !(Members(data, PartsPath) != {} && DeleteAllCall(PartsPath) in faults)
    ensures var alone := PutRecords(bricks, codec, faults, map[]);
      Seed(Success(bricks), codec, data, faults)
      == WithLog(ClearLog(data), WriteIndex(SeedOutcome(alone.err, ClearParts(data) + alone.data, alone.log), Names(bricks), codec, faults))
  {
    PutRecordsOverlay(bricks, codec, faults, ClearParts(data));
    WriteIndexLog(ClearLog(data), PutRecords(bricks, codec, faults, ClearParts(data)), Names(bricks), codec, faults);
  }

  /** Clearing the parts and laying the same parts and index over a store that already holds them changes nothing. */
  lemma OverlayAgain(data: map<string, Bytes>, parts: map<string, Bytes>, index: Bytes)
    requires forall k :: k in parts ==> InCollection(k, PartsPath)
    ensures var once := (ClearParts(data) + parts)[IndexKey := index];
      (ClearParts(once) + parts)[IndexKey := index] == once
  {
    var once := (ClearParts(data) + parts)[IndexKey := index];
    var twice := (ClearParts(once) + parts)[IndexKey := index];
    ClearPartsKeeps(data);
    ClearPartsKeeps(once);
    forall k ensures (k in twice <==> k in once) && (k in once ==> twice[k] == once[k]) {
      if k == IndexKey || k in parts {
      } else if InCollection(k, PartsPath) {
        assert k !in Members(ClearParts(data), PartsPath);
        assert k !in Members(ClearParts(once), PartsPath);
      } else {
        assert k in ClearParts(once) <==> k in once;
      }
    }
  }

  /**
   * Seeding twice from the same dump leaves the store as seeding once (provided
   * the clear that the second run now needs does not fail).
   */
  lemma SeedTwice(bricks: seq<Biobrick>, codec: Codec, data: map<string, Bytes>, faults: set<Call>)
    requires Seed(Success(bricks), codec, data, faults).err.None?
    requires DeleteAllCall(PartsPath) !in faults
    ensures var once := Seed(Success(bricks), codec, data, faults);
      var twice := Seed(Success(bricks), codec, once.data, faults);
      twice.err.None? && twice.data == once.data
  {
    var once := Seed(Success(bricks), codec, data, faults);
    var alone := PutRecords(bricks, codec, faults, map[]);
    SeedOverlay(bricks, codec, data, faults);
    SeedOverlay(bricks, codec, once.data, faults);
    WriteIndexOutcome(SeedOutcome(alone.err, ClearParts(data) + alone.data, alone.log), Names(bricks), codec, faults);
    WriteIndexOutcome(SeedOutcome(alone.err, ClearParts(once.data) + alone.data, alone.log), Names(bricks), codec, faults);
    forall k | k in alone.data ensures InCollection(k, PartsPath) {
      PutRecordsKeys(bricks, codec, faults, map[], k);
      var j :| 0 <= j < |bricks| && k == PartKey(bricks[j].abs.partName);
      KeyCollections(bricks[j].abs.partName);
    }
    OverlayAgain(data, alone.data, codec.index(Names(bricks)).value);
  }

  /** The record loop's store is its starting store with its mutations replayed. */
  lemma {:induction false} PutRecordsReplay(bricks: seq<Biobrick>, codec: Codec, faults: set<Call>, data: map<string, Bytes>)
    ensures var o := PutRecords(bricks, codec, faults, data);
      o.data == ApplyAll(data, o.log)
    decreases |bricks|
  {
    if bricks != [] && codec.brick(bricks[0]).Some? && PutCall(PartKey(bricks[0].abs.partName)) !in faults {
      var put := Stored(PartKey(bricks[0].abs.partName), codec.brick(bricks[0]).value);
      var next := Apply(data, put);
      PutRecordsReplay(bricks[1..], codec, faults, next);
      var rest := PutRecords(bricks[1..], codec, faults, next);
      assert ([put] + rest.log)[1..] == rest.log;
    }
  }

  /** Whatever happens, the store seedDB leaves is the old store with the logged mutations applied in order. */
  lemma SeedReplay(downloaded: Result<seq<Biobrick>, DownloadError>, codec: Codec, data: map<string, Bytes>, faults: set<Call>)
    ensures var o := Seed(downloaded, codec, data, faults);
      o.data == ApplyAll(data, o.log)
  {
    if downloaded.Success? && GetAllCall(PartsPath) !in faults
       && !(Members(data, PartsPath) != {} && DeleteAllCall(PartsPath) in faults) {
      var bricks := downloaded.value;
      var start := ClearParts(data);
      var p := PutRecords(bricks, codec, faults, start);
      var w := WriteIndex(p, Names(bricks), codec, faults);
      WriteIndexLog(ClearLog(data), p, Names(bricks), codec, faults);
      WriteIndexOutcome(p, Names(bricks), codec, faults);
      PutRecordsReplay(bricks, codec, faults, start);
      assert ApplyAll(data, ClearLog(data)) == start by {
        if Members(data, PartsPath) != {} {
          assert ApplyAll(data, ClearLog(data)) == ApplyAll(WithoutCollection(data, PartsPath), []);
        }
      }
      ApplyAllAppend(data, ClearLog(data), w.log);
      if w.err.None? {
        var put := Stored(IndexKey, codec.index(Names(bricks)).value);
        ApplyAllAppend(start, p.log, [put]);
        assert ApplyAll(p.data, [put]) == ApplyAll(Apply(p.data, put), []);
      }
    }
  }

  /** getPort as written: the flag wins; the environment is parsed only when it is empty, which never parses, so the environment is never used. */
  function GetPort(flag: Option<int>, env: string): (port: int)
    ensures flag.Some? ==> port == flag.value
    ensures flag.None? ==> port == DefaultPort
  {
    if flag.Some? then flag.value
    else if env == "" then
      match Atoi(env)
      case Some(n) => n
      case None => DefaultPort
    else DefaultPort
  }

  /** getPort as evidently intended: a nonempty BRICKLAYER_PORT that parses is used. */
  function GetPortIntended(flag: Option<int>, env: string): (port: int)
    ensures flag.Some? ==> port == flag.value
    ensures flag.None? && Atoi(env).Some? ==> port == Atoi(env).value
    ensures flag.None? && Atoi(env).None? ==> port == DefaultPort
  {
    if flag.Some? then flag.value
    else if env != "" then
      match Atoi(env)
      case Some(n) => n
      case None => DefaultPort
    else DefaultPort
  }

  /** With the intended test, a port written in the environment is the port used, and the flag still wins. */
  lemma GetPortIntendedReadsEnvironment(flag: Option<int>, n: int)
    requires InInt64(n)
    ensures GetPortIntended(flag, Itoa(n)) == if flag.Some? then flag.value else n
  {
    AtoiItoa(n);
  }

  /** The discrepancy on one input: BRICKLAYER_PORT=8080 and no flag. */
  lemma GetPortEnvironmentDropped()
    ensures GetPort(None, Itoa(8080)) == 3000
    ensures GetPortIntended(None, Itoa(8080)) == 8080
  {
    GetPortIntendedReadsEnvironment(None, 8080);
  }
}
