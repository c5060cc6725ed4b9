# bricklayer, modelled in Dafny

bricklayer serves a catalog of iGem biological parts over HTTP. The catalog is
kept in a key-value store (dskvs). This project models the stateful core of
the server:

- the FASTA-like dump parser (`abstractFromString` and `BiobrickReader.Read`
  in `bricks/brick.go`);
- the download loop that drives it (`DownloadAllBiobricks` in `util/seed.go`);
- the seeding procedure and the port choice (`seedDB` and `getPort` in
  `bricklayer.go`);
- the request handlers (`controller.go`):
  - `computeHash`;
  - the `If-None-Match`/`ETag` rule of `respondIfChanged`;
  - `AllPartsHandler` and `PartsHandler`;
  - the cache-aside resolver `ExtendedPartsHandler`.

Modules, leaves first:

- `Wrappers` (`wrappers.dfy`): `Option` and `Result`.
- `Text` (`text.dfy`): the Go library calls the parser relies on. These are
  `strings.Split` and `strings.Join` on one separator character, and
  `strconv.Atoi` on a 64-bit platform. Also a decimal printer `Itoa`, used to
  state round trips.
- `Bricks` (`bricks.dfy`): the records and the parser.
  - `AbstractFromString` is a function.
  - `BiobrickReader` is a class: a cursor `pos` over the dump's lines, and a
    flag saying whether the stream fails after its last line.
  - `ReadStep` specifies one `Read` call on the lines that remain.
  - `Block` and `HeaderLine` describe how a record is written in a dump.
- `Util` (`util.dfy`): `DownloadAll` is the download loop.
  - It is proved equal to the function `Download`.
  - `Fetch` stands for the HTTP response. It is either no response, or the body
    already cut into lines.
- `Extended` (`extended.dfy`): the remote per-part record, reduced to its
  `name`, and the result of the remote lookup.
- `Kv` (`kv.dfy`): the store, a class `Store`.
  - `data` is a map from keys (`collection/member`) to bytes.
  - The ghost `history` lists the mutations made so far.
  - `faults`, a fixed set of calls, decides which store calls fail.
- `Bricklayer` (`bricklayer.dfy`): the constants and the key layout.
  - `SeedDB` and its record loop `Repopulate` mutate the store.
  - They are specified by the function `Seed`. `Seed` returns the error, the
    final map and the log of mutations.
  - `GetPort` models getPort.
- `Controller` (`controller.dfy`):
  - A reply is a value (`Reply`: status, ETag, body chunks), built by the rules
    of Go's `http.ResponseWriter`:
    - a header set after the status line is sent has no effect;
    - the first `WriteHeader` wins;
    - `Write` sends 200 first;
    - body bytes are dropped after a 304.
  - Each handler is a method over a `Store`. It returns a `Handled`: the reply,
    the keys it read, whether it queried the remote, and the puts it started in
    the background. A handler that panics before writing is `Dropped`: the
    connection closes and the client receives nothing.
  - Each handler is proved equal to a specification function.

md5, `json.Marshal` and the remote lookup are function parameters: `Deps` for
the handlers and `Codec` for seeding. They are deterministic, and a marshalling
error is `None`.

## Model

| member | source | states |
|---|---|---|
| Text.Split | bricks/brick.go:26 | splitting on a separator always yields at least one field |
| Text.SplitPartsHaveNoSeparator | bricks/brick.go:26 | no field of a split contains the separator |
| Text.SplitLength | bricks/brick.go:26-28 | a split has one field more than the string has separators, so the five-field test counts spaces |
| Text.Join | bricks/brick.go:36 | `strings.Join` on one separator: the result holds every part's characters and one separator between each pair of neighbours |
| Text.JoinSplit | bricks/brick.go:36 | joining the fields of a split with the separator gives the string back |
| Text.SplitJoin | bricks/brick.go:26-36 | splitting a join of separator-free fields gives the fields back |
| Text.Atoi | bricks/brick.go:32-35 | a successful parse is of a nonempty string without spaces and yields a value within int64 |
| Text.AtoiItoa | bricks/brick.go:32 | every int64 written in decimal parses back to itself |
| Bricks.AbstractFromString | bricks/brick.go:25-44 | a parsed abstract has a name, status and type without spaces and an id within int64 |
| Bricks.AbstractFromStringFields | bricks/brick.go:25-44 | fewer than five fields is exactly the too-few-fields error with the count; with five or more, the id error comes exactly when field 2 is not an integer; with an integer id, the slice error comes exactly when fields 4.. joined by spaces are shorter than two characters, and success exactly when they are not; a success carries fields 0, 1 and 3, the integer value of field 2, and fields 4.. joined by spaces with the first and last character removed |
| Bricks.AbstractRoundTrip | bricks/brick.go:25-44 | the header line of a well-formed abstract (marker, five fields, quoted description) starts with the marker and parses back to the same abstract |
| Bricks.BodyMeaning | bricks/brick.go:78-92 | the sequence is the concatenation of the lines consumed after the header; no line before the last consumed one is blank; the scan stops at the end of the stream or just after the first blank line, which it consumes |
| Bricks.ReadStepMeaning | bricks/brick.go:62-95 | no record and no error exactly on a healthy exhausted stream; a line without the marker is refused and consumed alone; a record is the parse of its header without the marker and the concatenation of the lines after it; the stream error comes beside the record exactly when the record took the last line of a broken stream |
| Bricks.BiobrickReader.constructor | bricks/brick.go:50-56 | a new reader is at the first line of the stream |
| Bricks.BiobrickReader.Scan | bricks/brick.go:64 | delivers the next line and moves on by one, or reports the end without moving |
| Bricks.BiobrickReader.Err | bricks/brick.go:65 | the stream error shows exactly when a broken stream has delivered every line |
| Bricks.BiobrickReader.Read | bricks/brick.go:62-95 | the record, the error and the number of lines consumed are those of `ReadStep` on the remaining lines; the cursor only moves forward |
| Bricks.BiobrickReader.ScanBody | bricks/brick.go:78-92 | the appended text and the lines consumed are those of `Body` on the remaining lines |
| Bricks.CanonicalBlock | bricks/brick.go:58-76 | a record with a well-formed abstract, written as its header line and nonblank lines whose concatenation is its sequence, is a well-formed dump block |
| Bricks.BodyOfChunks | bricks/brick.go:78-92 | the sequence scan over nonblank lines and a blank line takes exactly those lines, whatever follows |
| Bricks.ReadStepBlock | bricks/brick.go:62-95 | `Read` at a well-formed block returns exactly that block's record and consumes the block, with the stream error only when the block ends a broken stream |
| Util.DownloadAll | util/seed.go:19-49 | the result is `Download`: an unreachable dump fails before parsing; otherwise the records in stream order, or the first read error with every earlier record discarded |
| Util.ReadAllStep | util/seed.go:33-44 | an error from `Read` ends the download with that error; no record and no error ends it with nothing consumed; a record consumes at least one line and goes in front of the records of the rest |
| Util.ReadAllRender | util/seed.go:31-45 | well-formed blocks in front of any stream are read back as their records, in order, before whatever the rest gives |
| Util.ReadAllBlock | util/seed.go:37-40 | one well-formed block contributes its record in front of the rest |
| Util.DownloadRoundTrip | util/seed.go:19-49 | a healthy dump of well-formed blocks downloads to exactly their records, in order |
| Util.ReadAllEnd | util/seed.go:41-44 | a healthy stream with no lines left downloads to no records |
| Util.DownloadFailsAfterBlocks | util/seed.go:33-36 | good blocks before lines that fail do not save the download: the failure is returned |
| Util.ReadAllMissingPrefix | bricks/brick.go:68-71 | a line without the header marker fails the read loop |
| Util.ReadAllBadAbstract | bricks/brick.go:73-76 | a header whose abstract does not parse fails the read loop with the parser's error |
| Util.DownloadAbortsOnMissingPrefix | util/seed.go:33-35 | after any number of good blocks, one line without the marker aborts the whole download |
| Util.DownloadAbortsOnBadAbstract | util/seed.go:33-35 | after any number of good blocks, one malformed header (too few fields, non-integer id, short description) aborts the whole download |
| Util.BrokenStreamFails | util/seed.go:33-36 | a stream that fails never downloads, however many good records come first |
| Kv.Store.constructor | bricklayer.go:47-52 | an opened store holds the given data and has made no mutation |
| Kv.Store.Get | controller.go:22 | fails exactly when the call is a fault; otherwise reports whether the key is present and its value |
| Kv.Store.GetAll | bricklayer.go:81-84 | fails exactly when the call is a fault; otherwise returns one value per member of the collection, each the value of some member |
| Kv.Store.DeleteAll | bricklayer.go:87-91 | fails exactly when the call is a fault and then changes nothing; otherwise removes exactly the collection's keys and logs the clear |
| Kv.Store.Put | bricklayer.go:100-103 | fails exactly when the call is a fault and then changes nothing; otherwise stores the value under the key and logs the put |
| Bricklayer.KeyCollections | bricklayer.go:17-22 | part keys lie in the parts collection; the index key and extended keys lie outside it |
| Bricklayer.KeysDistinct | bricklayer.go:17-22 | part, index and extended keys never collide, and part and extended keys determine their names |
| Bricklayer.Names | bricklayer.go:94-105 | the index has one entry per record, and entry i is record i's part name |
| Bricklayer.SeedDB | bricklayer.go:75-114 | the error, the final store and the mutations made are those of `Seed` on the download's result and the store as it was |
| Bricklayer.Repopulate | bricklayer.go:93-113 | the record loop and the index write change the store as `WriteIndex` after `PutRecords` says; the index written is the encoding of `Names` of the records |
| Bricklayer.PutRecordsOverlay | bricklayer.go:94-106 | the record loop's error and mutations do not depend on the store, and its puts are laid over the store |
| Bricklayer.PutRecordsLog | bricklayer.go:94-106 | the loop puts records in dump order, one put per record under `parts/<name>`; it succeeds exactly when every record was put; otherwise it stopped at the first record that failed to encode or to persist, with that record's error |
| Bricklayer.PutRecordsUntouched | bricklayer.go:100-103 | a key no record is put under keeps its presence and value through the loop |
| Bricklayer.PutRecordsStores | bricklayer.go:100-105 | after a complete loop every record's key is present; a record that no later record shares a name with keeps its own encoding, so the later of two duplicates wins |
| Bricklayer.PutRecordsKeys | bricklayer.go:100 | every key the loop adds is the key of one of its records |
| Bricklayer.PutRecordsReplay | bricklayer.go:100-103 | the loop's store is its starting store with its logged puts applied in order |
| Bricklayer.ClearPartsKeeps | bricklayer.go:86-91 | after the clearing step the parts collection is empty and every other key is as it was |
| Bricklayer.WriteIndexOutcome | bricklayer.go:108-113 | the index is written only after a complete record loop, and only if it encodes and its put succeeds; a failure changes nothing more |
| Bricklayer.SeedEarlyFailure | bricklayer.go:76-91 | a failed download, store probe or clear returns an error and leaves the store untouched with no mutation |
| Bricklayer.SeedOrder | bricklayer.go:86-113 | a successful seed first clears the parts collection, exactly when it was not empty; then it puts every record in dump order; the last write is the index of their names |
| Bricklayer.SeedFailureKeepsIndex | bricklayer.go:95-113 | a failed seed never writes the index key, which keeps its old value or stays absent |
| Bricklayer.SeedKeepsOtherKeys | bricklayer.go:86-113 | keys outside the parts collection, other than the index, survive any seed unchanged |
| Bricklayer.SeedSuccess | bricklayer.go:94-113 | a successful seed is a complete record loop on the cleared store with the encoded index put over it |
| Bricklayer.SeedStoresIndex | bricklayer.go:108-113 | after a successful seed the index key holds the encoding of the records' names in dump order |
| Bricklayer.SeedStoresEveryName | bricklayer.go:100-113 | after a successful seed every record's part key is stored; for duplicate names the later record's encoding wins |
| Bricklayer.SeedReplacesParts | bricklayer.go:86-106 | after a successful seed the parts collection holds exactly the keys of the downloaded records |
| Bricklayer.SeedOverlay | bricklayer.go:86-113 | once the download, probe and clear pass, a seed is the clear, then the record loop run alone and laid over the cleared store, then the index write |
| Bricklayer.OverlayAgain | bricklayer.go:86-113 | clearing the parts and laying the same parts and index over a store that already holds them changes nothing |
| Bricklayer.SeedTwice | bricklayer.go:75-114 | seeding again from the same dump succeeds and leaves the store as the first seed left it, provided the clear does not fail |
| Bricklayer.SeedReplay | bricklayer.go:75-114 | whatever the outcome, the final store is the old store with the logged mutations applied in order |
| Bricklayer.GetPort | bricklayer.go:116-132 | as written, the flag's port is used when the flag is set, and otherwise 3000, whatever the environment holds |
| Bricklayer.GetPortIntended | bricklayer.go:116-132 | with the test corrected, the flag wins; without it, a `BRICKLAYER_PORT` that parses is the port, and otherwise 3000 |
| Bricklayer.GetPortIntendedReadsEnvironment | bricklayer.go:122-129 | with the test corrected, a port written in `BRICKLAYER_PORT` is used when no flag is set, and the flag still wins |
| Bricklayer.GetPortEnvironmentDropped | bricklayer.go:123 | with no flag and `BRICKLAYER_PORT=8080`, the code as written answers 3000 and the corrected code 8080 |
| Controller.ByteString | controller.go:168 | a byte string read as a Go string has one character per byte, with the same code |
| Controller.ComputeHash | controller.go:162-169 | a tag is 16 characters, character i having the code of byte i of the md5 sum |
| Controller.ComputeHashMatches | controller.go:162-169 | a tag is 16 characters, never empty; two payloads get the same tag exactly when their digests agree |
| Controller.RespondIfChanged | controller.go:171-191 | a status is always out afterwards; one already out keeps its code and tag; on a fresh reply the status is 304 exactly when `If-None-Match` equals the data's tag |
| Controller.RespondIfChangedFresh | controller.go:171-191 | on a fresh reply, an `If-None-Match` equal to the data's tag gives a bare 304; any other value, the empty one included, gives 200 with the tag and the data as body |
| Controller.ETagRoundTrip | controller.go:172-190 | the tag of a 200 reply is the data's hash; sending it back gives 304 exactly while the data keeps its digest |
| Controller.AllPartsHandler | controller.go:19-39 | the outcome and the store reads are those of `AllPartsSpec` on the store, including the dropped connection on a missing index |
| Controller.PartsHandler | controller.go:41-73 | the reply and the store reads are those of `PartsSpec` on the store |
| Controller.ExtendedPartsHandler | controller.go:75-160 | the reply, the store reads, the remote query and the started puts are those of `ExtendedSpec` |
| Controller.AllPartsOutcome | controller.go:22-38 | the index key is read once; a store error gives 503 "cannot fulfill request for all parts"; the connection is dropped with no reply exactly when the read succeeds and the index is missing, because `logErr` calls `Error()` on the nil error (controller.go:232); otherwise the index bytes go through the conditional rule |
| Controller.AllPartsIntendedOutcome | controller.go:30-35 | the evidently intended handler answers a missing index with 503 "index not built" and agrees with the code as written on every other input |
| Controller.AllPartsUnseededDropped | controller.go:30-35 | on a store that was never seeded, the code as written drops the connection where the intended handler answers 503 "index not built" |
| Controller.PartsOutcome | controller.go:47-71 | an empty name gives 400 without touching the store; otherwise `parts/<name>` is read once; a store error gives 503; a missing key gives 404; otherwise the stored bytes go through the conditional rule |
| Controller.ExtendedLocalOutcome | controller.go:80-117 | an empty name gives 400 with no reads; a cache read error gives 503; a cached record is served with no catalog read, no query and no write; on a miss the catalog key is read next; a catalog error gives 503 and an unknown name gives 404, neither querying the remote |
| Controller.ExtendedRemoteMiss | controller.go:122-137 | a failed remote lookup gives 503 and an empty answer gives 404, and neither starts a write-back |
| Controller.RespondPartsFrozen | controller.go:143-159 | once the status line is out, later parts change neither the status nor the tag |
| Controller.RespondPartsSilent | controller.go:143-159 | after a 304 nothing more reaches the client |
| Controller.RespondPartsWrites | controller.go:143-159 | when every part encodes, one put is started per part, in order, under the part's own name with its encoding |
| Controller.RespondPartsBody | controller.go:143-159 | with a 200 out and no part matching `If-None-Match`, every part's bytes are appended to the body in order |
| Controller.ExtendedResolved | controller.go:143-158 | when the first returned part encodes, the loop answers and puts it, then goes on with the remaining parts |
| Controller.ExtendedWriteBack | controller.go:139-159 | when every returned part encodes, the status and tag are those of the first part, and one put per part is started under `extendedPartsPath/<returned name>` |
| Controller.ExtendedSendsEveryPart | controller.go:143-159 | without a matching `If-None-Match`, the reply is 200, tagged with the first part's hash, and its body is every part's encoding in order |
| Controller.ExtendedNotModified | controller.go:144-159 | an `If-None-Match` equal to the first part's tag gives a bare 304, whatever the later parts are |
| Controller.ExtendedCacheFills | controller.go:88-158 | when the remote returns one part under the requested name and its put lands, the next request for that name is a cache hit: one read, no query, no write, the same bytes |
| Controller.ExtendedCacheMisses | controller.go:88-158 | when the remote reports the part under another name, the requested name stays uncached, and the next request queries the remote again |
| Controller.SeededIndexServed | controller.go:22-38 | after a successful seed, the index endpoint answers with the encoded names of the downloaded records |
| Controller.SeededPartServed | controller.go:55-71 | after a successful seed, each record is served under its name, and the last record of a name wins |

## Left out

- The HTTP fetch of the dump (util/seed.go:21-25) is the `Fetch` parameter.
  Line splitting by `bufio.Scanner` is also left out: `\r` stripping, and the
  64 KiB line limit that makes `Scan` fail. The model takes the lines as given,
  plus a flag saying whether the stream fails after them.
- When `Err` becomes visible: the model reports a stream error once every line
  has been delivered. In Go, `bufio.Scanner` keeps delivering buffered lines
  after a failed read, while `Err` already reports the failure, so the error
  can show beside an earlier record. The download fails either way, since any
  error discards every record, but the error it reports can differ: Go can
  report the stream error where the model reports a later `MissingPrefix` or
  `BadAbstract`.
- The slice `descWithQuote[1 : len-1]` (bricks/brick.go:42) panics in Go when
  the joined description is shorter than two characters. The model returns the
  error `SliceOutOfRange` instead. Both end the seed; the panic also ends the
  process.
- The `descBuf.Write` error checks (bricks/brick.go:85-91) cannot fire:
  `bytes.Buffer` returns no error. They are not modelled.
- The part counter and the progress printing (util/seed.go:38-39) are left
  out, as are all logging, timing and colour (controller.go:15-17, 203-235).
  The one exception is the nil-error panic in `logErr` on the missing-index
  path of `AllPartsHandler`, which is modelled because it changes the reply.
  The counter is kept as a loop invariant of `DownloadAll` and is never
  returned.
- md5, `json.Marshal` and the remote lookup `QueryExtendedBiobricks` are
  deterministic function parameters. Their internals (bricks/extended.go:56-76)
  are not modelled, and neither is the XML record's shape beyond its name.
- The write-back goroutine (controller.go:156-158) is recorded as a list of
  started puts. Its failures are ignored by the code. Its timing relative to
  other requests is not modelled. `ExtendedCacheFills` assumes the put has
  landed.
- `main` and `init` are not modelled: flag parsing, opening the store, the
  router and listening (bricklayer.go:35-73). `ExtendedPartsHandler` is not
  routed there, and `getPort` is never called.
- Only the `ETag` header is modelled. `Content-Type` and
  `X-Content-Type-Options`, which `http.Error` sets, are not.
- Short writes to the client (controller.go:193-201) are not modelled: they
  are only logged, and every `Write` is taken as complete.
- The store's internals (dskvs) are not modelled. Which store calls fail is a
  fixed set of calls, so a given call always fails or always succeeds.
- `extendedPartsPath` is used by controller.go but defined in neither
  controller.go nor bricklayer.go. It is taken as `"extended-parts"`, which
  differs from the other two collections.
- Integers: `strconv.Atoi` is modelled for a 64-bit `int`.
- Kv.Store.GetAll: states the number of values and that each is the value of a
  member. It does not state that each member's value appears exactly once,
  because seedDB only uses the count.
- Controller.ExtendedWriteBack: states the write-backs only when every returned
  part encodes. With an encoding failure part-way through, the writes started
  before it remain and the 503 text is appended to a 200 body. `ExtendedSpec`
  says so, but no separate lemma does.
- For several returned parts, the code answers every part
  (controller.go:139-159): status and tag come from the first, and each later
  part's bytes are appended unless its tag matches `If-None-Match`. A put is
  started for every part.
- Controller.ETagRoundTrip: holds at the handler's level. net/http's header
  transport is not modelled: it replaces CR and LF in header values with
  spaces and trims surrounding spaces, and a raw 16-byte md5 sum
  (controller.go:168) often holds such bytes, so the tag a client receives and
  sends back can differ from the one the handler set.
- A panic is taken to drop the connection before anything is written. The
  server's recovery and its log line are not modelled further.
- A 304 carries no `ETag`. The tag is set only on the 200 path
  (controller.go:177, 190).

## Findings

| source | as written | input that shows it | evidently intended | confidence | as-written member | corrected member |
|---|---|---|---|---|---|---|
| bricklayer.go:123 | the environment branch runs only when `BRICKLAYER_PORT` is empty, and the empty string never parses, so the variable is never used | no `-port` flag pointer, `BRICKLAYER_PORT=8080`: the port is 3000 | parse the variable when it is not empty: the port is 8080 | high; not executed | Bricklayer.GetPortEnvironmentDropped (all inputs: Bricklayer.GetPort) | Bricklayer.GetPortIntendedReadsEnvironment (on Bricklayer.GetPortIntended) |
| controller.go:30-35 | a missing index is logged with the nil error of the successful read; `logErr` calls `err.Error()` on it (controller.go:232), which panics before `http.Error` runs, so net/http closes the connection with no reply | a store that was never seeded, read without error: the client gets no status line | answer 503 "index not built", as the message at controller.go:31 says | high; not executed | Controller.AllPartsUnseededDropped (all inputs: Controller.AllPartsOutcome, on Controller.AllPartsHandler) | Controller.AllPartsIntendedOutcome (on Controller.AllPartsSpecIntended) |
