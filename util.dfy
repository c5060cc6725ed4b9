/** DownloadAllBiobricks of util/seed.go: drive the reader to the end of the dump. */
module Util {
  import opened Wrappers
  import opened Text
  import opened Bricks

  /** What the HTTP fetch of the dump gives: no response, or the body cut into lines. */
  datatype Fetch = Unreachable | Fetched(lines: seq<string>, broken: bool)

  datatype DownloadError = FetchFailed | ParseFailed(cause: ReadError)

  /** Put `done` in front of a successful result; an error passes through. */
  function Prepend(done: seq<Biobrick>, r: Result<seq<Biobrick>, ReadError>): Result<seq<Biobrick>, ReadError> {
    match r
    case Success(more) => Success(done + more)
    case Failure(e) => Failure(e)
  }

  /**
   * The read loop: collect records until the clean end signal; the first error
   * discards every record read before it.
   */
  function ReadAll(rest: seq<string>, broken: bool): Result<seq<Biobrick>, ReadError>
    decreases |rest|
  {
    var step := ReadStep(rest, broken);
    if step.err.Some? then Failure(step.err.value)
    else if step.rec.None? then Success([])
    else Prepend([step.rec.value], ReadAll(rest[step.used..], broken))
  }

  /** The whole download: a fetch failure comes before any parsing. */
  function Download(fetch: Fetch): Result<seq<Biobrick>, DownloadError> {
    match fetch
    case Unreachable => Failure(FetchFailed)
    case Fetched(lines, broken) =>
      match ReadAll(lines, broken)
      case Success(bricks) => Success(bricks)
      case Failure(e) => Failure(ParseFailed(e))
  }

  /** DownloadAllBiobricks */
  method DownloadAll(fetch: Fetch) returns (r: Result<seq<Biobrick>, DownloadError>)
    ensures r == Download(fetch)
  {
    if fetch.Unreachable? {
      return Failure(FetchFailed);
    }
    var reader := new BiobrickReader(fetch.lines, fetch.broken);
    var count := 0;
    var allBioBricks: seq<Biobrick> := [];
    assert fetch.lines[reader.pos..] == fetch.lines;
    PrependNothing(ReadAll(fetch.lines, fetch.broken));
    while true
      invariant reader.Valid() && reader.lines == fetch.lines && reader.broken == fetch.broken
      invariant count == |allBioBricks|
      invariant ReadAll(fetch.lines, fetch.broken) == Prepend(allBioBricks, ReadAll(fetch.lines[reader.pos..], fetch.broken))
      decreases |fetch.lines| - reader.pos
    {
      ghost var before := reader.pos;
      ghost var rest := fetch.lines[before..];
      var biobrick, err := reader.Read();
      ReadAllStep(rest, fetch.broken, biobrick, err, reader.pos - before);
      if err.Some? {
        return Failure(ParseFailed(err.value));
      }
      if biobrick.None? {
        assert allBioBricks + [] == allBioBricks;
        break;
      }
      assert rest[reader.pos - before..] == fetch.lines[reader.pos..];
      PrependTwice(allBioBricks, [biobrick.value], ReadAll(fetch.lines[reader.pos..], fetch.broken));
      count := count + 1;
      allBioBricks := allBioBricks + [biobrick.value];
    }
    return Success(allBioBricks);
  }

  /**
   * What the loop does with one Read: an error ends the download with it, the end
   * signal ends it with no further records, a record is put in front of the rest.
   */
  lemma ReadAllStep(rest: seq<string>, broken: bool, rec: Option<Biobrick>, err: Option<ReadError>, k: nat)
    requires ReadOutcome(rec, err, k) == ReadStep(rest, broken)
    ensures err.Some? ==> ReadAll(rest, broken) == Failure(err.value)
    ensures err.None? && rec.None? ==> k == 0 && ReadAll(rest, broken) == Success([])
    ensures err.None? && rec.Some? ==> k >= 1 && ReadAll(rest, broken) == Prepend([rec.value], ReadAll(rest[k..], broken))
  {
  }

  /** The lines of a dump made of the given blocks. */
  function Render(blocks: seq<Block>): seq<string> {
    if blocks == [] then [] else BlockLines(blocks[0]) + Render(blocks[1..])
  }

  /** The records the blocks carry, in order. */
  function Records(blocks: seq<Block>): (r: seq<Biobrick>)
    ensures |r| == |blocks|
  {
    if blocks == [] then [] else [blocks[0].brick] + Records(blocks[1..])
  }

  lemma PrependNothing(r: Result<seq<Biobrick>, ReadError>)
    ensures Prepend([], r) == r
  {
    match r
    case Success(more) => assert [] + more == more;
    case Failure(_) =>
  }

  lemma PrependTwice(a: seq<Biobrick>, b: seq<Biobrick>, r: Result<seq<Biobrick>, ReadError>)
    ensures Prepend(a, Prepend(b, r)) == Prepend(a + b, r)
  {
    match r
    case Success(more) => assert a + (b + more) == (a + b) + more;
    case Failure(_) =>
  }

  /** Well-formed blocks in front of any stream are read back in order. */
  lemma {:induction false} ReadAllRender(blocks: seq<Block>, tail: seq<string>, broken: bool)
    requires forall i :: 0 <= i < |blocks| ==> WellFormedBlock(blocks[i])
    ensures ReadAll(Render(blocks) + tail, broken) == Prepend(Records(blocks), ReadAll(tail, broken))
  {
    if blocks == [] {
      assert Render(blocks) + tail == tail;
      PrependNothing(ReadAll(tail, broken));
    } else {
      ReadAllRender(blocks[1..], tail, broken);
      var rest := Render(blocks[1..]) + tail;
      assert Render(blocks) + tail == BlockLines(blocks[0]) + rest;
      ReadAllBlock(blocks[0], rest, broken);
      ChainPrepend(blocks[0].brick, Records(blocks[1..]), ReadAll(BlockLines(blocks[0]) + rest, broken),
                   ReadAll(rest, broken), ReadAll(tail, broken));
    }
  }

  /** Two read-back steps compose: a record, then the records of what follows it. */
  lemma ChainPrepend(b: Biobrick, more: seq<Biobrick>, whole: Result<seq<Biobrick>, ReadError>,
                     rest: Result<seq<Biobrick>, ReadError>, tail: Result<seq<Biobrick>, ReadError>)
    requires whole == Prepend([b], rest) && rest == Prepend(more, tail)
    ensures whole == Prepend([b] + more, tail)
  {
    PrependTwice([b], more, tail);
  }

  /** One well-formed block in front of a stream contributes its record. */
  lemma ReadAllBlock(b: Block, rest: seq<string>, broken: bool)
    requires WellFormedBlock(b)
    ensures ReadAll(BlockLines(b) + rest, broken) == Prepend([b.brick], ReadAll(rest, broken))
  {
    var lines := BlockLines(b) + rest;
    var err := if broken && rest == [] then Some(StreamBroken) else None;
    ReadStepBlock(b, rest, broken);
    ReadAllStep(lines, broken, Some(b.brick), err, |BlockLines(b)|);
    if err.Some? {
      ReadAllStep(rest, broken, None, err, 0);
    } else {
      assert lines[|BlockLines(b)|..] == rest;
    }
  }

  /** A dump of well-formed blocks downloads to exactly its records, in order. */
  lemma DownloadRoundTrip(blocks: seq<Block>)
    requires forall i :: 0 <= i < |blocks| ==> WellFormedBlock(blocks[i])
    ensures Download(Fetched(Render(blocks), false)) == Success(Records(blocks))
  {
    ReadAllRender(blocks, [], false);
    assert Render(blocks) + [] == Render(blocks);
    ReadAllEnd();
    assert Records(blocks) + [] == Records(blocks);
  }

  /** A healthy stream with no lines left reads as no records. */
  lemma ReadAllEnd()
    ensures ReadAll([], false) == Success([])
  {
    assert ReadStep([], false) == ReadOutcome(None, None, 0);
  }

  /** Good blocks in front of lines that fail to read do not save the download. */
  lemma DownloadFailsAfterBlocks(blocks: seq<Block>, after: seq<string>, broken: bool, e: ReadError)
    requires forall i :: 0 <= i < |blocks| ==> WellFormedBlock(blocks[i])
    requires ReadAll(after, broken) == Failure(e)
    ensures Download(Fetched(Render(blocks) + after, broken)) == Failure(ParseFailed(e))
  {
    ReadAllRender(blocks, after, broken);
  }

  /** A line without the header marker is refused. */
  lemma ReadAllMissingPrefix(bad: string, tail: seq<string>, broken: bool)
    requires !HasPrefix(bad, Prefix)
    ensures ReadAll([bad] + tail, broken) == Failure(MissingPrefix)
  {
    assert ([bad] + tail)[0] == bad;
    ReadAllStep([bad] + tail, broken, None, Some(MissingPrefix), 1);
  }

  /** A header whose abstract does not parse is refused with the parser's error. */
  lemma ReadAllBadAbstract(bad: string, tail: seq<string>, broken: bool, e: AbstractError)
    requires HasPrefix(bad, Prefix) && AbstractFromString(bad[1..]) == Failure(e)
    ensures ReadAll([bad] + tail, broken) == Failure(BadAbstract(e))
  {
    assert ([bad] + tail)[0] == bad;
    ReadAllStep([bad] + tail, broken, None, Some(BadAbstract(e)), 1);
  }

  /** After any number of good blocks, a line without the header marker aborts the download. */
  lemma DownloadAbortsOnMissingPrefix(blocks: seq<Block>, bad: string, tail: seq<string>, broken: bool)
    requires forall i :: 0 <= i < |blocks| ==> WellFormedBlock(blocks[i])
    requires !HasPrefix(bad, Prefix)
    ensures Download(Fetched(Render(blocks) + ([bad] + tail), broken)) == Failure(ParseFailed(MissingPrefix))
  {
    ReadAllMissingPrefix(bad, tail, broken);
    DownloadFailsAfterBlocks(blocks, [bad] + tail, broken, MissingPrefix);
  }

  /** After any number of good blocks, a header whose abstract does not parse aborts the download. */
  lemma DownloadAbortsOnBadAbstract(blocks: seq<Block>, bad: string, tail: seq<string>, broken: bool, e: AbstractError)
    requires forall i :: 0 <= i < |blocks| ==> WellFormedBlock(blocks[i])
    requires HasPrefix(bad, Prefix) && AbstractFromString(bad[1..]) == Failure(e)
    ensures Download(Fetched(Render(blocks) + ([bad] + tail), broken)) == Failure(ParseFailed(BadAbstract(e)))
  {
    ReadAllBadAbstract(bad, tail, broken, e);
    DownloadFailsAfterBlocks(blocks, [bad] + tail, broken, BadAbstract(e));
  }

  /** A stream that fails never downloads, however many good records precede the failure. */
  lemma {:induction false} BrokenStreamFails(rest: seq<string>)
    ensures ReadAll(rest, true).Failure?
    decreases |rest|
  {
    var step := ReadStep(rest, true);
    if step.err.None? && step.rec.Some? {
      BrokenStreamFails(rest[step.used..]);
    }
  }
}
