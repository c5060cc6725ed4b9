/**
 * The HTTP handlers of controller.go. A reply is built as a value with the
 * rules of Go's http.ResponseWriter; the store is read through Store.Get, the
 * md5 digest, the JSON encoder and the remote part lookup are parameters, and
 * the write-backs the resolver starts in goroutines are returned as a list.
 */
module Controller {
  import opened Wrappers
  import opened Kv
  import opened Extended
  import opened Bricks
  import opened Bricklayer

  /** A piece of response body: bytes, or the text http.Error writes. */
  datatype Chunk = Data(bytes: Bytes) | Text(text: string)

  /**
   * What the client receives: the status line once written, the ETag header as
   * it was when the status went out, and the body chunks that were accepted.
   */
  datatype Reply = Reply(code: Option<int>, etag: Option<string>, body: seq<Chunk>)

  const Unwritten: Reply := Reply(None, None, [])

  /** Header().Set("ETag", ...): has no effect once the status line is out. */
  function SetETag(r: Reply, tag: string): Reply {
    if r.code.None? then r.(etag := Some(tag)) else r
  }

  /** WriteHeader: the first status wins; later calls are ignored. */
  function WriteHeader(r: Reply, code: int): Reply {
    if r.code.None? then r.(code := Some(code)) else r
  }

  /** Statuses whose responses carry no body (informational, 204 and 304). */
  predicate BodyAllowed(code: int) {
    !(100 <= code < 200 || code == 204 || code == 304)
  }

  /** Write: sends status 200 first if no status is out; the chunk is dropped when the status allows no body. */
  function Write(r: Reply, c: Chunk): Reply {
    var sent := WriteHeader(r, 200);
    if BodyAllowed(sent.code.value) then sent.(body := sent.body + [c]) else sent
  }

  /** http.Error: the status, then the message and a newline. */
  function HttpError(r: Reply, msg: string, code: int): Reply {
    Write(WriteHeader(r, code), Text(msg + "\n"))
  }

  /** http.NotFound. */
  function NotFound(r: Reply): Reply {
    HttpError(r, "404 page not found", 404)
  }

  /** An md5 sum: always 16 bytes. */
  type Digest = d: Bytes | |d| == 16 witness [0, 0, 0, 0, 0, 0, 0, 0, 0, 0, 0, 0, 0, 0, 0, 0]

  /** A byte string read as a Go string: one character per byte. */
  function ByteString(b: Bytes): (s: string)
    ensures |s| == |b|
    ensures forall i :: 0 <= i < |b| ==> s[i] as int == b[i] as int
  {
    if b == [] then "" else [b[0] as int as char] + ByteString(b[1..])
  }

  /** computeHash: the raw md5 sum of the data as a string, one character per digest byte. */
  function ComputeHash(md5: Bytes -> Digest, data: Bytes): (tag: string)
    ensures |tag| == 16
    ensures forall i :: 0 <= i < 16 ==> tag[i] as int == md5(data)[i] as int
  {
    ByteString(md5(data))
  }

  /** Two payloads get the same tag exactly when their digests agree, and a tag is never empty. */
  lemma ComputeHashMatches(md5: Bytes -> Digest, a: Bytes, b: Bytes)
    ensures |ComputeHash(md5, a)| == 16
    ensures ComputeHash(md5, a) == ComputeHash(md5, b) <==> md5(a) == md5(b)
  {
    var da, db := md5(a), md5(b);
    if ComputeHash(md5, a) == ComputeHash(md5, b) {
      forall i | 0 <= i < 16 ensures da[i] == db[i] {
        assert ComputeHash(md5, a)[i] == ComputeHash(md5, b)[i];
      }
    }
  }

  /**
   * respondIfChanged: an empty or different If-None-Match gets the tag and the
   * data; a match gets 304. A status is always out afterwards; one already out
   * keeps its code and tag.
   */
  function RespondIfChanged(r: Reply, ifNoneMatch: string, data: Bytes, md5: Bytes -> Digest): (sent: Reply)
    ensures sent.code.Some?
    ensures r.code.Some? ==> sent.code == r.code && sent.etag == r.etag
    ensures r.code.None? ==> (sent.code == Some(304) <==> ifNoneMatch == ComputeHash(md5, data))
  {
    var hash := ComputeHash(md5, data);
    if |ifNoneMatch| == 0 || ifNoneMatch != hash then Write(SetETag(r, hash), Data(data))
    else WriteHeader(r, 304)
  }

  /** A first answer is 304 with nothing else exactly when If-None-Match is the data's tag; otherwise 200 with the tag and the data. */
  lemma RespondIfChangedFresh(ifNoneMatch: string, data: Bytes, md5: Bytes -> Digest)
    ensures var r := RespondIfChanged(Unwritten, ifNoneMatch, data, md5);
      && (ifNoneMatch == ComputeHash(md5, data) ==> r == Reply(Some(304), None, []))
      && (ifNoneMatch != ComputeHash(md5, data) ==> r == Reply(Some(200), Some(ComputeHash(md5, data)), [Data(data)]))
  {
    ComputeHashMatches(md5, data, data);
  }

  /** Sending back the tag of a 200 answer gets 304 exactly while the data keeps its digest. */
  lemma ETagRoundTrip(ifNoneMatch: string, data: Bytes, later: Bytes, md5: Bytes -> Digest)
    requires RespondIfChanged(Unwritten, ifNoneMatch, data, md5).code == Some(200)
    ensures var tag := RespondIfChanged(Unwritten, ifNoneMatch, data, md5).etag;
      && tag == Some(ComputeHash(md5, data))
      && (RespondIfChanged(Unwritten, tag.value, later, md5).code == Some(304) <==> md5(later) == md5(data))
  {
    RespondIfChangedFresh(ifNoneMatch, data, md5);
    RespondIfChangedFresh(ComputeHash(md5, data), later, md5);
    ComputeHashMatches(md5, later, data);
  }

  /** What a handler sees of the request: the {name} route variable and the If-None-Match header. */
  datatype Request = Request(name: string, ifNoneMatch: string)

  /** The foreign calls of the resolver: md5, json.Marshal of a remote record, and the remote lookup. */
  datatype Deps = Deps(md5: Bytes -> Digest, marshal: ExtendedBiobrick -> Option<Bytes>, query: string -> QueryResult)

  /**
   * The result of a request: the reply, the keys read from the store in order,
   * whether the remote was queried, and the puts started in the background.
   * Dropped is a handler that panicked before writing anything: net/http
   * recovers the panic and closes the connection, so the client receives no
   * status line and no body.
   */
  datatype Handled =
    | Handled(reply: Reply, lookups: seq<string>, queried: bool, writes: seq<Mutation>)
    | Dropped(lookups: seq<string>, queried: bool, writes: seq<Mutation>)

  const MissingName: string := "missing biobrick name"

  function PartUnavailable(name: string): string {
    "cannot fulfill request for part named " + name
  }

  function ReverseLookupFailed(name: string): string {
    "cannot fulfill request for reverse lookup on part named " + name
  }

  function LookupFailed(name: string): string {
    "cannot fulfill request, iGem API lookup failed for part " + name
  }

  /**
   * AllPartsHandler as written: serve the stored index. A missing index is
   * logged with the nil error of the successful read, and logErr's call of
   * err.Error() panics before http.Error runs.
   */
  function AllPartsSpec(req: Request, data: map<string, Bytes>, faults: set<Call>, md5: Bytes -> Digest): Handled {
    if GetCall(IndexKey) in faults then
      Handled(HttpError(Unwritten, "cannot fulfill request for all parts", 503), [IndexKey], false, [])
    else if IndexKey !in data then
      Dropped([IndexKey], false, [])
    else
      Handled(RespondIfChanged(Unwritten, req.ifNoneMatch, data[IndexKey], md5), [IndexKey], false, [])
  }

  /** AllPartsHandler as evidently intended: a missing index is answered 503 "index not built". */
  function AllPartsSpecIntended(req: Request, data: map<string, Bytes>, faults: set<Call>, md5: Bytes -> Digest): Handled {
    if GetCall(IndexKey) in faults then
      Handled(HttpError(Unwritten, "cannot fulfill request for all parts", 503), [IndexKey], false, [])
    else if IndexKey !in data then
      Handled(HttpError(Unwritten, "index not built", 503), [IndexKey], false, [])
    else
      Handled(RespondIfChanged(Unwritten, req.ifNoneMatch, data[IndexKey], md5), [IndexKey], false, [])
  }

  /** PartsHandler: serve one stored record. */
  function PartsSpec(req: Request, data: map<string, Bytes>, faults: set<Call>, md5: Bytes -> Digest): Handled {
    var name := req.name;
    if name == "" then
      Handled(HttpError(Unwritten, MissingName, 400), [], false, [])
    else if GetCall(PartKey(name)) in faults then
      Handled(HttpError(Unwritten, PartUnavailable(name), 503), [PartKey(name)], false, [])
    else if PartKey(name) !in data then
      Handled(NotFound(Unwritten), [PartKey(name)], false, [])
    else
      Handled(RespondIfChanged(Unwritten, req.ifNoneMatch, data[PartKey(name)], md5), [PartKey(name)], false, [])
  }

  /**
   * The loop over the remote parts: encode each, answer with it, and start a
   * put under its own name; an encoding error answers 503 and ends the loop.
   */
  function RespondParts(r: Reply, writes: seq<Mutation>, parts: seq<ExtendedBiobrick>, req: Request, deps: Deps): (Reply, seq<Mutation>)
    decreases |parts|
  {
    if parts == [] then (r, writes)
    else match deps.marshal(parts[0])
      case None => (HttpError(r, LookupFailed(req.name), 503), writes)
      case Some(bytes) =>
        RespondParts(RespondIfChanged(r, req.ifNoneMatch, bytes, deps.md5),
                     writes + [Stored(ExtendedKey(parts[0].name), bytes)], parts[1..], req, deps)
  }

  /** ExtendedPartsHandler: cached record, else guard on the catalog, else ask the remote and cache what it returns. */
  function ExtendedSpec(req: Request, data: map<string, Bytes>, faults: set<Call>, deps: Deps): Handled {
    var name := req.name;
    if name == "" then
      Handled(HttpError(Unwritten, MissingName, 400), [], false, [])
    else if GetCall(ExtendedKey(name)) in faults then
      Handled(HttpError(Unwritten, PartUnavailable(name), 503), [ExtendedKey(name)], false, [])
    else if ExtendedKey(name) in data then
      Handled(RespondIfChanged(Unwritten, req.ifNoneMatch, data[ExtendedKey(name)], deps.md5), [ExtendedKey(name)], false, [])
    else if GetCall(PartKey(name)) in faults then
      Handled(HttpError(Unwritten, ReverseLookupFailed(name), 503), [ExtendedKey(name), PartKey(name)], false, [])
    else if PartKey(name) !in data then
      Handled(NotFound(Unwritten), [ExtendedKey(name), PartKey(name)], false, [])
    else match deps.query(name)
      case QueryFailed =>
        Handled(HttpError(Unwritten, LookupFailed(name), 503), [ExtendedKey(name), PartKey(name)], true, [])
      case Found(parts) =>
        if |parts| < 1 then Handled(NotFound(Unwritten), [ExtendedKey(name), PartKey(name)], true, [])
        else
          var sent := RespondParts(Unwritten, [], parts, req, deps);
          Handled(sent.0, [ExtendedKey(name), PartKey(name)], true, sent.1)
  }

  method AllPartsHandler(store: Store, req: Request, md5: Bytes -> Digest) returns (h: Handled)
    ensures h == AllPartsSpec(req, store.data, store.faults, md5)
  {
    var partsIndex, ok, failed := store.Get(IndexKey);
    if failed {
      h := Handled(HttpError(Unwritten, "cannot fulfill request for all parts", 503), [IndexKey], false, []);
      return;
    }
    if !ok {
      // logErr is handed the nil error of the successful read; err.Error() panics
      h := Dropped([IndexKey], false, []);
      return;
    }
    h := Handled(RespondIfChanged(Unwritten, req.ifNoneMatch, partsIndex, md5), [IndexKey], false, []);
  }

  method PartsHandler(store: Store, req: Request, md5: Bytes -> Digest) returns (h: Handled)
    ensures h == PartsSpec(req, store.data, store.faults, md5)
  {
    var name := req.name;
    if name == "" {
      h := Handled(HttpError(Unwritten, MissingName, 400), [], false, []);
      return;
    }
    var partData, ok, failed := store.Get(PartKey(name));
    if failed {
      h := Handled(HttpError(Unwritten, PartUnavailable(name), 503), [PartKey(name)], false, []);
      return;
    }
    if !ok {
      h := Handled(NotFound(Unwritten), [PartKey(name)], false, []);
      return;
    }
    h := Handled(RespondIfChanged(Unwritten, req.ifNoneMatch, partData, md5), [PartKey(name)], false, []);
  }

  method ExtendedPartsHandler(store: Store, req: Request, deps: Deps) returns (h: Handled)
    ensures h == ExtendedSpec(req, store.data, store.faults, deps)
  {
    var name := req.name;
    if name == "" {
      h := Handled(HttpError(Unwritten, MissingName, 400), [], false, []);
      return;
    }
    var partData, ok, failed := store.Get(ExtendedKey(name));
    if failed {
      h := Handled(HttpError(Unwritten, PartUnavailable(name), 503), [ExtendedKey(name)], false, []);
      return;
    }
    if ok {
      h := Handled(RespondIfChanged(Unwritten, req.ifNoneMatch, partData, deps.md5), [ExtendedKey(name)], false, []);
      return;
    }
    var lookups := [ExtendedKey(name), PartKey(name)];
    var _, partExists, reverseFailed := store.Get(PartKey(name));
    if reverseFailed {
      h := Handled(HttpError(Unwritten, ReverseLookupFailed(name), 503), lookups, false, []);
      return;
    }
    if !partExists {
      h := Handled(NotFound(Unwritten), lookups, false, []);
      return;
    }
    var found := deps.query(name);
    if found.QueryFailed? {
      h := Handled(HttpError(Unwritten, LookupFailed(name), 503), lookups, true, []);
      return;
    }
    var parts := found.parts;
    if |parts| < 1 {
      h := Handled(NotFound(Unwritten), lookups, true, []);
      return;
    }
    var partRawJSON := new Bytes[|parts|];
    var reply, writes := Unwritten, [];
    var i := 0;
    while i < |parts|
      invariant 0 <= i <= |parts|
      invariant RespondParts(Unwritten, [], parts, req, deps) == RespondParts(reply, writes, parts[i..], req, deps)
      invariant forall j :: 0 <= j < i ==> deps.marshal(parts[j]) == Some(partRawJSON[j])
    {
      var encoded := deps.marshal(parts[i]);
      if encoded.None? {
        reply := HttpError(reply, LookupFailed(name), 503);
        h := Handled(reply, lookups, true, writes);
        return;
      }
      partRawJSON[i] := encoded.value;
      reply := RespondIfChanged(reply, req.ifNoneMatch, partRawJSON[i], deps.md5);
      writes := writes + [Stored(ExtendedKey(parts[i].name), partRawJSON[i])];
      assert parts[i..][1..] == parts[i + 1..];
      i := i + 1;
    }
    h := Handled(reply, lookups, true, writes);
  }

  /** A refusal: the status, no tag, and the message http.Error writes. */
  predicate Refused(r: Reply, code: int, msg: string) {
    r == Reply(Some(code), None, [Text(msg + "\n")])
  }

  /** What a first answer with stored bytes looks like: 304 alone when the tag matches, else 200 with the tag and the bytes. */
  predicate Answers(r: Reply, ifNoneMatch: string, bytes: Bytes, md5: Bytes -> Digest) {
    if ifNoneMatch == ComputeHash(md5, bytes) then r == Reply(Some(304), None, [])
    else r == Reply(Some(200), Some(ComputeHash(md5, bytes)), [Data(bytes)])
  }

  /**
   * The outcomes of AllPartsHandler as written: 503 on a store error, a dropped
   * connection on a missing index, else the index bytes; one read, nothing else.
   */
  lemma AllPartsOutcome(req: Request, data: map<string, Bytes>, faults: set<Call>, md5: Bytes -> Digest)
    ensures var h := AllPartsSpec(req, data, faults, md5);
      && h.lookups == [IndexKey] && !h.queried && h.writes == []
      && (h.Dropped? <==> GetCall(IndexKey) !in faults && IndexKey !in data)
      && (GetCall(IndexKey) in faults ==> Refused(h.reply, 503, "cannot fulfill request for all parts"))
      && (GetCall(IndexKey) !in faults && IndexKey in data ==> Answers(h.reply, req.ifNoneMatch, data[IndexKey], md5))
  {
    if GetCall(IndexKey) !in faults && IndexKey in data {
      RespondIfChangedFresh(req.ifNoneMatch, data[IndexKey], md5);
    }
  }

  /**
   * The intended handler answers a missing index with 503 "index not built" and
   * agrees with the code as written on every other input.
   */
  lemma AllPartsIntendedOutcome(req: Request, data: map<string, Bytes>, faults: set<Call>, md5: Bytes -> Digest)
    ensures var h := AllPartsSpecIntended(req, data, faults, md5);
      && h.Handled? && h.lookups == [IndexKey] && !h.queried && h.writes == []
      && (GetCall(IndexKey) !in faults && IndexKey !in data ==> Refused(h.reply, 503, "index not built"))
      && (GetCall(IndexKey) in faults || IndexKey in data ==> h == AllPartsSpec(req, data, faults, md5))
  {
  }

  /** The discrepancy on one input: a store that was never seeded, read without error. */
  lemma AllPartsUnseededDropped(req: Request, md5: Bytes -> Digest)
    ensures AllPartsSpec(req, map[], {}, md5) == Dropped([IndexKey], false, [])
    ensures Refused(AllPartsSpecIntended(req, map[], {}, md5).reply, 503, "index not built")
  {
    AllPartsOutcome(req, map[], {}, md5);
    AllPartsIntendedOutcome(req, map[], {}, md5);
  }

  /** The outcomes of PartsHandler: 400 without a name and without touching the store, 503 on a store error, 404 on a missing key, else the stored bytes. */
  lemma PartsOutcome(req: Request, data: map<string, Bytes>, faults: set<Call>, md5: Bytes -> Digest)
    ensures var h := PartsSpec(req, data, faults, md5);
      var key := PartKey(req.name);
      && !h.queried && h.writes == []
      && (req.name == "" ==> Refused(h.reply, 400, MissingName) && h.lookups == [])
      && (req.name != "" ==> h.lookups == [key])
      && (req.name != "" && GetCall(key) in faults ==> Refused(h.reply, 503, PartUnavailable(req.name)))
      && (req.name != "" && GetCall(key) !in faults && key !in data ==> Refused(h.reply, 404, "404 page not found"))
      && (req.name != "" && GetCall(key) !in faults && key in data ==> Answers(h.reply, req.ifNoneMatch, data[key], md5))
  {
    if req.name != "" && GetCall(PartKey(req.name)) !in faults && PartKey(req.name) in data {
      RespondIfChangedFresh(req.ifNoneMatch, data[PartKey(req.name)], md5);
    }
  }

  /** The resolver's outcomes before the remote: 400 without a name, 503 on a cache read error, the cached bytes on a hit, and the catalog guard. */
  lemma ExtendedLocalOutcome(req: Request, data: map<string, Bytes>, faults: set<Call>, deps: Deps)
    ensures var h := ExtendedSpec(req, data, faults, deps);
      var cached := ExtendedKey(req.name);
      var known := PartKey(req.name);
      && (req.name == "" ==> Refused(h.reply, 400, MissingName) && h.lookups == [] && !h.queried && h.writes == [])
      && (req.name != "" && GetCall(cached) in faults ==>
            Refused(h.reply, 503, PartUnavailable(req.name)) && h.lookups == [cached] && !h.queried && h.writes == [])
      && (req.name != "" && GetCall(cached) !in faults && cached in data ==>
            Answers(h.reply, req.ifNoneMatch, data[cached], deps.md5) && h.lookups == [cached] && !h.queried && h.writes == [])
      && (req.name != "" && GetCall(cached) !in faults && cached !in data ==> h.lookups == [cached, known])
      && (req.name != "" && GetCall(cached) !in faults && cached !in data && GetCall(known) in faults ==>
            Refused(h.reply, 503, ReverseLookupFailed(req.name)) && !h.queried && h.writes == [])
      && (req.name != "" && GetCall(cached) !in faults && cached !in data && GetCall(known) !in faults && known !in data ==>
            Refused(h.reply, 404, "404 page not found") && !h.queried && h.writes == [])
  {
    if req.name != "" && GetCall(ExtendedKey(req.name)) !in faults && ExtendedKey(req.name) in data {
      RespondIfChangedFresh(req.ifNoneMatch, data[ExtendedKey(req.name)], deps.md5);
    }
  }

  /** The state in which the resolver asks the remote: a name, no cached record, and a known part. */
  predicate Resolving(req: Request, data: map<string, Bytes>, faults: set<Call>) {
    && req.name != ""
    && GetCall(ExtendedKey(req.name)) !in faults && ExtendedKey(req.name) !in data
    && GetCall(PartKey(req.name)) !in faults && PartKey(req.name) in data
  }

  /** A failed or empty remote answer gives 503 or 404 and caches nothing. */
  lemma ExtendedRemoteMiss(req: Request, data: map<string, Bytes>, faults: set<Call>, deps: Deps)
    requires Resolving(req, data, faults)
    requires deps.query(req.name).QueryFailed? || |deps.query(req.name).parts| == 0
    ensures var h := ExtendedSpec(req, data, faults, deps);
      && h.queried && h.writes == []
      && (deps.query(req.name).QueryFailed? ==> Refused(h.reply, 503, LookupFailed(req.name)))
      && (deps.query(req.name).Found? ==> Refused(h.reply, 404, "404 page not found"))
  {
  }

  /** Once the status is out, answering further parts changes neither the status nor the tag. */
  lemma {:induction false} RespondPartsFrozen(r: Reply, writes: seq<Mutation>, parts: seq<ExtendedBiobrick>, req: Request, deps: Deps)
    requires r.code.Some?
    ensures var sent := RespondParts(r, writes, parts, req, deps);
      sent.0.code == r.code && sent.0.etag == r.etag
    decreases |parts|
  {
    if parts != [] && deps.marshal(parts[0]).Some? {
      RespondPartsFrozen(RespondIfChanged(r, req.ifNoneMatch, deps.marshal(parts[0]).value, deps.md5),
                         writes + [Stored(ExtendedKey(parts[0].name), deps.marshal(parts[0]).value)], parts[1..], req, deps);
    }
  }

  /** After a 304 nothing more reaches the client. */
  lemma {:induction false} RespondPartsSilent(r: Reply, writes: seq<Mutation>, parts: seq<ExtendedBiobrick>, req: Request, deps: Deps)
    requires r.code == Some(304)
    ensures RespondParts(r, writes, parts, req, deps).0 == r
    decreases |parts|
  {
    if parts != [] && deps.marshal(parts[0]).Some? {
      RespondPartsSilent(RespondIfChanged(r, req.ifNoneMatch, deps.marshal(parts[0]).value, deps.md5),
                         writes + [Stored(ExtendedKey(parts[0].name), deps.marshal(parts[0]).value)], parts[1..], req, deps);
    }
  }

  /** When every part encodes, one put is started per part, in order, under the part's own name. */
  lemma {:induction false} RespondPartsWrites(r: Reply, writes: seq<Mutation>, parts: seq<ExtendedBiobrick>, req: Request, deps: Deps)
    requires forall i :: 0 <= i < |parts| ==> deps.marshal(parts[i]).Some?
    ensures var sent := RespondParts(r, writes, parts, req, deps).1;
      && |sent| == |writes| + |parts|
      && sent[..|writes|] == writes
      && forall i :: 0 <= i < |parts| ==> sent[|writes| + i] == Stored(ExtendedKey(parts[i].name), deps.marshal(parts[i]).value)
    decreases |parts|
  {
    if parts != [] {
      var bytes := deps.marshal(parts[0]).value;
      var more := writes + [Stored(ExtendedKey(parts[0].name), bytes)];
      RespondPartsWrites(RespondIfChanged(r, req.ifNoneMatch, bytes, deps.md5), more, parts[1..], req, deps);
      var sent := RespondParts(r, writes, parts, req, deps).1;
      assert sent[..|more|][..|writes|] == sent[..|writes|];
      forall i | 0 <= i < |parts|
        ensures sent[|writes| + i] == Stored(ExtendedKey(parts[i].name), deps.marshal(parts[i]).value)
      {
        if i == 0 {
          assert sent[..|more|][|writes|] == sent[|writes|];
        } else {
          assert parts[1..][i - 1] == parts[i];
        }
      }
    }
  }

  /** With a 200 out and no part matching If-None-Match, every part's bytes are appended to the body in order. */
  lemma {:induction false} RespondPartsBody(r: Reply, writes: seq<Mutation>, parts: seq<ExtendedBiobrick>, req: Request, deps: Deps)
    requires r.code == Some(200)
    requires forall i :: 0 <= i < |parts| ==>
      deps.marshal(parts[i]).Some? && req.ifNoneMatch != ComputeHash(deps.md5, deps.marshal(parts[i]).value)
    ensures var body := RespondParts(r, writes, parts, req, deps).0.body;
      && |body| == |r.body| + |parts|
      && body[..|r.body|] == r.body
      && forall i :: 0 <= i < |parts| ==> body[|r.body| + i] == Data(deps.marshal(parts[i]).value)
    decreases |parts|
  {
    if parts != [] {
      var bytes := deps.marshal(parts[0]).value;
      var next := RespondIfChanged(r, req.ifNoneMatch, bytes, deps.md5);
      assert next.body == r.body + [Data(bytes)];
      RespondPartsBody(next, writes + [Stored(ExtendedKey(parts[0].name), bytes)], parts[1..], req, deps);
      var body := RespondParts(r, writes, parts, req, deps).0.body;
      assert body[..|next.body|][..|r.body|] == body[..|r.body|];
      forall i | 0 <= i < |parts|
        ensures body[|r.body| + i] == Data(deps.marshal(parts[i]).value)
      {
        if i == 0 {
          assert body[..|next.body|][|r.body|] == body[|r.body|];
        } else {
          assert parts[1..][i - 1] == parts[i];
        }
      }
    }
  }

  /** The resolver after a remote answer whose first part encodes: that part is answered and put, then the loop goes on with the rest. */
  lemma ExtendedResolved(req: Request, data: map<string, Bytes>, faults: set<Call>, deps: Deps)
    requires Resolving(req, data, faults)
    requires deps.query(req.name).Found? && |deps.query(req.name).parts| >= 1
    requires deps.marshal(deps.query(req.name).parts[0]).Some?
    ensures var parts := deps.query(req.name).parts;
      var bytes := deps.marshal(parts[0]).value;
      var sent := RespondParts(RespondIfChanged(Unwritten, req.ifNoneMatch, bytes, deps.md5),
                               [Stored(ExtendedKey(parts[0].name), bytes)], parts[1..], req, deps);
      ExtendedSpec(req, data, faults, deps) == Handled(sent.0, [ExtendedKey(req.name), PartKey(req.name)], true, sent.1)
  {
    var parts := deps.query(req.name).parts;
    assert [] + [Stored(ExtendedKey(parts[0].name), deps.marshal(parts[0]).value)] == [Stored(ExtendedKey(parts[0].name), deps.marshal(parts[0]).value)];
  }

  /**
   * A remote answer whose parts all encode: the status and tag are those of the
   * first part, and one put per part is started under the returned name, not the
   * requested one.
   */
  lemma ExtendedWriteBack(req: Request, data: map<string, Bytes>, faults: set<Call>, deps: Deps)
    requires Resolving(req, data, faults)
    requires deps.query(req.name).Found? && |deps.query(req.name).parts| >= 1
    requires forall i :: 0 <= i < |deps.query(req.name).parts| ==> deps.marshal(deps.query(req.name).parts[i]).Some?
    ensures var h := ExtendedSpec(req, data, faults, deps);
      var parts := deps.query(req.name).parts;
      var first := RespondIfChanged(Unwritten, req.ifNoneMatch, deps.marshal(parts[0]).value, deps.md5);
      && h.queried
      && h.reply.code == first.code && h.reply.etag == first.etag
      && |h.writes| == |parts|
      && forall i :: 0 <= i < |parts| ==> h.writes[i] == Stored(ExtendedKey(parts[i].name), deps.marshal(parts[i]).value)
  {
    var parts := deps.query(req.name).parts;
    var bytes := deps.marshal(parts[0]).value;
    ExtendedResolved(req, data, faults, deps);
    RespondPartsFrozen(RespondIfChanged(Unwritten, req.ifNoneMatch, bytes, deps.md5),
                       [Stored(ExtendedKey(parts[0].name), bytes)], parts[1..], req, deps);
    RespondPartsWrites(Unwritten, [], parts, req, deps);
  }

  /** Without a matching If-None-Match (none sent, say), the reply is 200, tagged with the first part, and carries every part in order. */
  lemma ExtendedSendsEveryPart(req: Request, data: map<string, Bytes>, faults: set<Call>, deps: Deps)
    requires Resolving(req, data, faults)
    requires deps.query(req.name).Found? && |deps.query(req.name).parts| >= 1
    requires forall i :: 0 <= i < |deps.query(req.name).parts| ==>
      && deps.marshal(deps.query(req.name).parts[i]).Some?
      && req.ifNoneMatch != ComputeHash(deps.md5, deps.marshal(deps.query(req.name).parts[i]).value)
    ensures var h := ExtendedSpec(req, data, faults, deps);
      var parts := deps.query(req.name).parts;
      && h.reply.code == Some(200)
      && h.reply.etag == Some(ComputeHash(deps.md5, deps.marshal(parts[0]).value))
      && |h.reply.body| == |parts|
      && forall i :: 0 <= i < |parts| ==> h.reply.body[i] == Data(deps.marshal(parts[i]).value)
  {
    var parts := deps.query(req.name).parts;
    var bytes := deps.marshal(parts[0]).value;
    var first := RespondIfChanged(Unwritten, req.ifNoneMatch, bytes, deps.md5);
    assert first == Reply(Some(200), Some(ComputeHash(deps.md5, bytes)), [Data(bytes)]);
    ExtendedResolved(req, data, faults, deps);
    RespondPartsFrozen(first, [Stored(ExtendedKey(parts[0].name), bytes)], parts[1..], req, deps);
    RespondPartsBody(first, [Stored(ExtendedKey(parts[0].name), bytes)], parts[1..], req, deps);
    var body := ExtendedSpec(req, data, faults, deps).reply.body;
    forall i | 0 <= i < |parts| ensures body[i] == Data(deps.marshal(parts[i]).value) {
      if i > 0 {
        assert parts[1..][i - 1] == parts[i];
      }
    }
  }

  /** When If-None-Match is the first part's tag, the reply is a bare 304 whatever follows. */
  lemma ExtendedNotModified(req: Request, data: map<string, Bytes>, faults: set<Call>, deps: Deps)
    requires Resolving(req, data, faults)
    requires deps.query(req.name).Found? && |deps.query(req.name).parts| >= 1
    requires deps.marshal(deps.query(req.name).parts[0]).Some?
    requires req.ifNoneMatch == ComputeHash(deps.md5, deps.marshal(deps.query(req.name).parts[0]).value)
    ensures ExtendedSpec(req, data, faults, deps).reply == Reply(Some(304), None, [])
  {
    var parts := deps.query(req.name).parts;
    var bytes := deps.marshal(parts[0]).value;
    RespondIfChangedFresh(req.ifNoneMatch, bytes, deps.md5);
    ExtendedResolved(req, data, faults, deps);
    RespondPartsSilent(RespondIfChanged(Unwritten, req.ifNoneMatch, bytes, deps.md5),
                       [Stored(ExtendedKey(parts[0].name), bytes)], parts[1..], req, deps);
  }

  /**
   * Cache-aside: when the remote returns one part under the requested name and
   * its put succeeds, the next request for that name is served from the cache
   * with the same bytes, without the catalog check or the remote.
   */
  lemma ExtendedCacheFills(req: Request, later: Request, data: map<string, Bytes>, faults: set<Call>, deps: Deps)
    requires Resolving(req, data, faults)
    requires deps.query(req.name).Found? && |deps.query(req.name).parts| == 1
    requires deps.query(req.name).parts[0].name == req.name
    requires deps.marshal(deps.query(req.name).parts[0]).Some?
    requires later.name == req.name
    ensures var h := ExtendedSpec(req, data, faults, deps);
      var again := ExtendedSpec(later, ApplyAll(data, h.writes), faults, deps);
      && h.writes == [Stored(ExtendedKey(req.name), deps.marshal(deps.query(req.name).parts[0]).value)]
      && again.lookups == [ExtendedKey(req.name)] && !again.queried && again.writes == []
      && Answers(again.reply, later.ifNoneMatch, deps.marshal(deps.query(req.name).parts[0]).value, deps.md5)
  {
    var h := ExtendedSpec(req, data, faults, deps);
    var bytes := deps.marshal(deps.query(req.name).parts[0]).value;
    ExtendedResolved(req, data, faults, deps);
    assert h.writes == [Stored(ExtendedKey(req.name), bytes)];
    assert ApplyAll(data, h.writes) == data[ExtendedKey(req.name) := bytes];
    RespondIfChangedFresh(later.ifNoneMatch, bytes, deps.md5);
  }

  /** When the remote reports the part under another name, the requested name is still not cached and the next request asks the remote again. */
  lemma ExtendedCacheMisses(req: Request, data: map<string, Bytes>, faults: set<Call>, deps: Deps)
    requires Resolving(req, data, faults)
    requires deps.query(req.name).Found? && |deps.query(req.name).parts| == 1
    requires deps.query(req.name).parts[0].name != req.name
    requires deps.marshal(deps.query(req.name).parts[0]).Some?
    ensures var h := ExtendedSpec(req, data, faults, deps);
      var again := ExtendedSpec(req, ApplyAll(data, h.writes), faults, deps);
      again.queried && again.lookups == [ExtendedKey(req.name), PartKey(req.name)]
  {
    var h := ExtendedSpec(req, data, faults, deps);
    var part := deps.query(req.name).parts[0];
    var bytes := deps.marshal(part).value;
    ExtendedResolved(req, data, faults, deps);
    assert h.writes == [Stored(ExtendedKey(part.name), bytes)];
    assert ApplyAll(data, h.writes) == data[ExtendedKey(part.name) := bytes];
    KeysDistinct(part.name, req.name);
  }

  /** After a successful seed, the index endpoint serves the encoded names of the downloaded records. */
  lemma SeededIndexServed(bricks: seq<Biobrick>, codec: Codec, data: map<string, Bytes>, faults: set<Call>, req: Request, md5: Bytes -> Digest)
    requires Seed(Success(bricks), codec, data, faults).err.None?
    requires GetCall(IndexKey) !in faults
    ensures codec.index(Names(bricks)).Some?
    ensures Answers(AllPartsSpec(req, Seed(Success(bricks), codec, data, faults).data, faults, md5).reply,
                    req.ifNoneMatch, codec.index(Names(bricks)).value, md5)
  {
    SeedStoresIndex(bricks, codec, data, faults);
    AllPartsOutcome(req, Seed(Success(bricks), codec, data, faults).data, faults, md5);
  }

  /** After a successful seed, each record is served under its name, the last record of a name winning. */
  lemma SeededPartServed(bricks: seq<Biobrick>, codec: Codec, data: map<string, Bytes>, faults: set<Call>, i: nat, md5: Bytes -> Digest, ifNoneMatch: string)
    requires Seed(Success(bricks), codec, data, faults).err.None?
    requires i < |bricks| && bricks[i].abs.partName != ""
    requires forall j :: i < j < |bricks| ==> bricks[j].abs.partName != bricks[i].abs.partName
    requires GetCall(PartKey(bricks[i].abs.partName)) !in faults
    ensures codec.brick(bricks[i]).Some?
    ensures Answers(PartsSpec(Request(bricks[i].abs.partName, ifNoneMatch), Seed(Success(bricks), codec, data, faults).data, faults, md5).reply,
                    ifNoneMatch, codec.brick(bricks[i]).value, md5)
  {
    SeedStoresEveryName(bricks, codec, data, faults, i);
    PartsOutcome(Request(bricks[i].abs.partName, ifNoneMatch), Seed(Success(bricks), codec, data, faults).data, faults, md5);
  }
}
