/**
 * The key-value store the server keeps its catalog in (dskvs): keys are
 * `collection/member`, values are bytes. Which calls fail is fixed up front by a
 * set of failing calls, so a store error is part of the input, not chance.
 */
module Kv {
  import opened Text

  newtype byte = x: int | 0 <= x < 256
  type Bytes = seq<byte>

  /** The key of a member of a collection, as fmt.Sprintf("%s/%s", collection, member) builds it. */
  function Key(coll: string, member: string): string {
    coll + "/" + member
  }

  /** A key belongs to a collection when it starts with the collection name and a slash. */
  predicate InCollection(key: string, coll: string) {
    HasPrefix(key, coll + "/")
  }

  /** The stored keys of a collection. */
  function Members(data: map<string, Bytes>, coll: string): set<string> {
    set k | k in data && InCollection(k, coll)
  }

  /** The store with a whole collection removed. */
  function WithoutCollection(data: map<string, Bytes>, coll: string): map<string, Bytes> {
    map k | k in data && !InCollection(k, coll) :: data[k]
  }

  /** A store call, as far as deciding whether it fails. */
  datatype Call = GetCall(key: string) | GetAllCall(coll: string) | DeleteAllCall(coll: string) | PutCall(key: string)

  /** A change a successful call made. */
  datatype Mutation = Cleared(coll: string) | Stored(key: string, value: Bytes)

  /** The store after a mutation. */
  function Apply(data: map<string, Bytes>, m: Mutation): map<string, Bytes> {
    match m
    case Cleared(coll) => WithoutCollection(data, coll)
    case Stored(key, value) => data[key := value]
  }

  /** The store after a sequence of mutations, first to last. */
  function ApplyAll(data: map<string, Bytes>, log: seq<Mutation>): map<string, Bytes>
    decreases |log|
  {
    if log == [] then data else ApplyAll(Apply(data, log[0]), log[1..])
  }

  /** Applying mutations one after the other is applying their concatenation. */
  lemma {:induction false} ApplyAllAppend(data: map<string, Bytes>, a: seq<Mutation>, b: seq<Mutation>)
    ensures ApplyAll(data, a + b) == ApplyAll(ApplyAll(data, a), b)
    decreases |a|
  {
    if a == [] {
      assert a + b == b;
    } else {
      assert (a + b)[1..] == a[1..] + b;
      ApplyAllAppend(Apply(data, a[0]), a[1..], b);
    }
  }

  class Store {
    var data: map<string, Bytes>
    /** The mutations made so far, oldest first. */
    ghost var history: seq<Mutation>
    /** The calls that fail. */
    const faults: set<Call>

    constructor (data: map<string, Bytes>, faults: set<Call>)
      ensures this.data == data && this.faults == faults && history == []
    {
      this.data := data;
      this.faults := faults;
      history := [];
    }

    /** Get: the value under a key, whether it is there, or a failure. */
    method Get(key: string) returns (value: Bytes, found: bool, failed: bool)
      ensures failed <==> GetCall(key) in faults
      ensures found <==> !failed && key in data
      ensures found ==> value == data[key]
    {
      failed := GetCall(key) in faults;
      found := !failed && key in data;
      value := if found then data[key] else [];
    }

    /** GetAll: the values of a collection, in no particular order, or a failure. */
    method GetAll(coll: string) returns (values: seq<Bytes>, failed: bool)
      ensures failed <==> GetAllCall(coll) in faults
      ensures !failed ==> |values| == |Members(data, coll)|
      ensures forall i :: 0 <= i < |values| ==> exists k :: k in Members(data, coll) && data[k] == values[i]
    {
      values := [];
      failed := GetAllCall(coll) in faults;
      if failed {
        return;
      }
      var left := Members(data, coll);
      while left != {}
        invariant left <= Members(data, coll)
        invariant |values| + |left| == |Members(data, coll)|
        invariant forall i :: 0 <= i < |values| ==> exists k :: k in Members(data, coll) && data[k] == values[i]
        decreases |left|
      {
        var k :| k in left;
        values := values + [data[k]];
        left := left - {k};
      }
    }

    /** DeleteAll: remove a whole collection, or fail and change nothing. */
    method DeleteAll(coll: string) returns (failed: bool)
      modifies this
      ensures failed <==> DeleteAllCall(coll) in faults
      ensures data == if failed then old(data) else WithoutCollection(old(data), coll)
      ensures history == if failed then old(history) else old(history) + [Cleared(coll)]
    {
      failed := DeleteAllCall(coll) in faults;
      if !failed {
        data := WithoutCollection(data, coll);
        history := history + [Cleared(coll)];
      }
    }

    /** Put: store a value under a key, or fail and change nothing. */
    method Put(key: string, value: Bytes) returns (failed: bool)
      modifies this
      ensures failed <==> PutCall(key) in faults
      ensures data == if failed then old(data) else old(data)[key := value]
      ensures history == if failed then old(history) else old(history) + [Stored(key, value)]
    {
      failed := PutCall(key) in faults;
      if !failed {
        data := data[key := value];
        history := history + [Stored(key, value)];
      }
    }
  }
}
