/**
 * The bulk-dump parser of bricks/brick.go: a header line `>name status id type "desc"`
 * followed by sequence lines up to a blank line or the end of the stream.
 */
module Bricks {
  import opened Wrappers
  import opened Text

  /** bioAbstract: the fields carried by a header line. */
  datatype Abstract = Abstract(partName: string, status: string, id: int, partType: string, desc: string)

  /** Biobrick: a header's abstract plus the concatenated sequence lines. */
  datatype Biobrick = Biobrick(abs: Abstract, sequence: string)

  datatype AbstractError =
    | TooFewFields(found: nat)       // fewer than 5 space-separated fields
    | NonIntegerId(field: string)    // strconv.Atoi refused field 2
    | SliceOutOfRange                // Go panics slicing a description shorter than 2

  datatype ReadError =
    | StreamBroken                   // the underlying reader failed (scanner.Err())
    | MissingPrefix                  // "expect prefix for FASTA format"
    | BadAbstract(cause: AbstractError)

  /** The header marker. */
  const Prefix: string := ">"

  /**
   * abstractFromString: split on single spaces, parse field 2 as an integer, join
   * fields 4.. back with spaces and drop the first and last character.
   */
  function AbstractFromString(header: string): (r: Result<Abstract, AbstractError>)
    ensures r.Success? ==> WellFormedAbstract(r.value)
  {
    SplitPartsHaveNoSeparator(header, ' ');
    var fields := Split(header, ' ');
    if |fields| < 5 then Failure(TooFewFields(|fields|))
    else match Atoi(fields[2])
      case None => Failure(NonIntegerId(fields[2]))
      case Some(id) =>
        var descWithQuote := Join(fields[4..], ' ');
        if |descWithQuote| < 2 then Failure(SliceOutOfRange)
        else Success(Abstract(fields[0], fields[1], id, fields[3], descWithQuote[1..|descWithQuote| - 1]))
  }

  /**
   * What a parse means: too few fields is the first check, a non-numeric id the
   * second, and a success carries fields 0, 1, 3, the parsed field 2 and the
   * rejoined tail without its first and last character.
   */
  lemma AbstractFromStringFields(header: string)
    ensures var r := AbstractFromString(header); var fields := Split(header, ' ');
      && (|fields| < 5 <==> r == Failure(TooFewFields(|fields|)))
      && (|fields| >= 5 ==> (Atoi(fields[2]).None? <==> r == Failure(NonIntegerId(fields[2]))))
      && (|fields| >= 5 && Atoi(fields[2]).Some? ==>
            && (r == Failure(SliceOutOfRange) <==> |Join(fields[4..], ' ')| < 2)
            && (r.Success? <==> |Join(fields[4..], ' ')| >= 2))
      && (r.Success? ==>
            && |fields| >= 5
            && r.value.partName == fields[0] && r.value.status == fields[1]
            && Atoi(fields[2]) == Some(r.value.id) && r.value.partType == fields[3]
            && var quoted := Join(fields[4..], ' ');
               |quoted| == |r.value.desc| + 2 && quoted[1..|quoted| - 1] == r.value.desc)
  {
  }

  /** What a header can carry: the three single-word fields hold no space, the id fits Go's int. */
  predicate WellFormedAbstract(a: Abstract) {
    ' ' !in a.partName && ' ' !in a.status && ' ' !in a.partType && InInt64(a.id)
  }

  /** The five space-separated fields of a rendered header, the description in double quotes. */
  function HeaderFields(a: Abstract): seq<string> {
    [a.partName, a.status, Itoa(a.id), a.partType, "\"" + a.desc + "\""]
  }

  /** The header line a dump carries for an abstract. */
  function HeaderLine(a: Abstract): string {
    Prefix + Join(HeaderFields(a), ' ')
  }

  /** Parsing a rendered header gives the abstract back. */
  lemma AbstractRoundTrip(a: Abstract)
    requires WellFormedAbstract(a)
    ensures HasPrefix(HeaderLine(a), Prefix)
    ensures AbstractFromString(HeaderLine(a)[1..]) == Success(a)
  {
    var f := HeaderFields(a);
    AtoiItoa(a.id);
    assert HeaderLine(a)[1..] == Join(f, ' ');
    SplitJoinLast(f, ' ');
    var fields := Split(Join(f, ' '), ' ');
    assert fields[2] == Itoa(a.id) && fields[4..] == Split(f[4], ' ');
    JoinSplit(f[4], ' ');
  }

  /** The body after a header: the lines consumed and their concatenation. */
  datatype BodyScan = BodyScan(sequence: string, used: nat)

  /**
   * The sequence loop of Read: lines are appended up to the first empty line, which
   * is consumed, or to the end of the stream.
   */
  function Body(rest: seq<string>): (b: BodyScan)
    ensures b.used <= |rest|
  {
    if rest == [] then BodyScan("", 0)
    else if rest[0] == "" then BodyScan("", 1)
    else
      var tail := Body(rest[1..]);
      BodyScan(rest[0] + tail.sequence, tail.used + 1)
  }

  /**
   * The scan consumes a prefix of the lines, the sequence is their concatenation,
   * no line before the last consumed one is blank, and the scan ends at the end of
   * the stream or just after a blank line.
   */
  lemma {:induction false} BodyMeaning(rest: seq<string>)
    ensures var b := Body(rest);
      && b.sequence == Concat(rest[..b.used])
      && (forall j :: 0 <= j < b.used - 1 ==> rest[j] != "")
      && (|| (b.used == |rest| && (rest == [] || rest[|rest| - 1] != ""))
          || (1 <= b.used && rest[b.used - 1] == ""))
    decreases |rest|
  {
    if rest == [] {
    } else if rest[0] == "" {
      assert Concat(rest[..1]) == "" + Concat([]);
    } else {
      BodyMeaning(rest[1..]);
      var tail := Body(rest[1..]);
      assert rest[..tail.used + 1] == [rest[0]] + rest[1..][..tail.used];
    }
  }

  /** The three results of one Read call, and how many lines it consumed. */
  datatype ReadOutcome = ReadOutcome(rec: Option<Biobrick>, err: Option<ReadError>, used: nat)

  /**
   * One call of BiobrickReader.Read on the lines that remain. `broken` says the
   * stream fails after its last line; that failure is reported once every line has
   * been delivered, also together with a record (Go returns both).
   */
  function ReadStep(rest: seq<string>, broken: bool): (r: ReadOutcome)
    ensures r.used <= |rest|
  {
    if rest == [] then ReadOutcome(None, if broken then Some(StreamBroken) else None, 0)
    else if !HasPrefix(rest[0], Prefix) then ReadOutcome(None, Some(MissingPrefix), 1)
    else match AbstractFromString(rest[0][1..])
      case Failure(e) => ReadOutcome(None, Some(BadAbstract(e)), 1)
      case Success(a) =>
        var body := Body(rest[1..]);
        var used := body.used + 1;
        ReadOutcome(Some(Biobrick(a, body.sequence)), if broken && used == |rest| then Some(StreamBroken) else None, used)
  }

  /**
   * What one Read means: the clean end signal only on an exhausted healthy stream, a
   * line without the marker is refused alone, and a record is the parse of its
   * header plus the concatenation of the lines consumed after it, with the stream
   * error reported beside it exactly when the record took the last line.
   */
  lemma ReadStepMeaning(rest: seq<string>, broken: bool)
    ensures var r := ReadStep(rest, broken);
      && (r.rec.Some? ==> r.used >= 1)
      && (r.rec.None? && r.err.None? <==> rest == [] && !broken)
      && (rest != [] && !HasPrefix(rest[0], Prefix) ==> r == ReadOutcome(None, Some(MissingPrefix), 1))
      && (r.rec.Some? ==>
            && HasPrefix(rest[0], Prefix)
            && AbstractFromString(rest[0][1..]) == Success(r.rec.value.abs)
            && r.rec.value.sequence == Concat(rest[1..r.used])
            && (r.err.Some? <==> broken && r.used == |rest|))
  {
    if rest != [] && HasPrefix(rest[0], Prefix) && AbstractFromString(rest[0][1..]).Success? {
      BodyMeaning(rest[1..]);
      assert rest[1..][..Body(rest[1..]).used] == rest[1..Body(rest[1..]).used + 1];
    }
  }

  /**
   * BiobrickReader over a stream already cut into lines (bufio.ScanLines): a cursor
   * that only moves forward.
   */
  class BiobrickReader {
    const lines: seq<string>
    const broken: bool
    var pos: nat

    ghost predicate Valid()
      reads this
    {
      pos <= |lines|
    }

    /** NewBiobrickReader */
    constructor (lines: seq<string>, broken: bool)
      ensures Valid()
      ensures this.lines == lines && this.broken == broken && pos == 0
    {
      this.lines := lines;
      this.broken := broken;
      pos := 0;
    }

    /** scanner.Scan followed by scanner.Text */
    method Scan() returns (line: Option<string>)
      requires Valid()
      modifies this`pos
      ensures Valid()
      ensures old(pos) < |lines| ==> line == Some(lines[old(pos)]) && pos == old(pos) + 1
      ensures old(pos) == |lines| ==> line.None? && pos == old(pos)
    {
      if pos < |lines| {
        line := Some(lines[pos]);
        pos := pos + 1;
      } else {
        line := None;
      }
    }

    /** scanner.Err */
    function Err(): (e: Option<ReadError>)
      reads this
      ensures e.Some? <==> broken && pos == |lines|
    {
      if broken && pos == |lines| then Some(StreamBroken) else None
    }

    /** Read: one header and its sequence lines, the clean end signal, or an error. */
    method Read() returns (rec: Option<Biobrick>, err: Option<ReadError>)
      requires Valid()
      modifies this`pos
      ensures Valid() && old(pos) <= pos
      ensures ReadOutcome(rec, err, pos - old(pos)) == ReadStep(lines[old(pos)..], broken)
    {
      ghost var rest := lines[pos..];
      var first := Scan();
      if first.None? {
        return None, Err();
      }
      var text := first.value;
      assert text == rest[0];
      if !HasPrefix(text, Prefix) {
        return None, Some(MissingPrefix);
      }
      var parsed := AbstractFromString(text[1..]);
      if parsed.Failure? {
        return None, Some(BadAbstract(parsed.error));
      }
      assert rest[1..] == lines[pos..];
      var sequence := ScanBody();
      rec := Some(Biobrick(parsed.value, sequence));
      err := Err();
    }

    /** The sequence loop of Read: append lines up to a blank line or the end. */
    method ScanBody() returns (descBuf: string)
      requires Valid()
      modifies this`pos
      ensures Valid() && old(pos) <= pos
      ensures Body(lines[old(pos)..]) == BodyScan(descBuf, pos - old(pos))
    {
      descBuf := "";
      while true
        invariant Valid() && old(pos) <= pos
        invariant Body(lines[old(pos)..]) == BodyScan(descBuf + Body(lines[pos..]).sequence, pos - old(pos) + Body(lines[pos..]).used)
        decreases |lines| - pos
      {
        ghost var before := pos;
        var line := Scan();
        if line.None? || line.value == "" {
          assert line.Some? ==> lines[before..][0] == "" && Body(lines[before..]) == BodyScan("", 1);
          break;
        }
        assert lines[before..][1..] == lines[pos..];
        descBuf := descBuf + line.value;
      }
    }
  }

  /**
   * A dump block: a header line, the sequence lines the record was written on, and
   * the record the block stands for.
   */
  datatype Block = Block(header: string, chunks: seq<string>, brick: Biobrick)

  /** The header parses to the record's abstract and the chunks are its nonblank sequence lines. */
  predicate WellFormedBlock(b: Block) {
    && HasPrefix(b.header, Prefix)
    && AbstractFromString(b.header[1..]) == Success(b.brick.abs)
    && (forall i :: 0 <= i < |b.chunks| ==> b.chunks[i] != "")
    && Concat(b.chunks) == b.brick.sequence
  }

  /** The lines of a block: header, sequence lines, blank separator. */
  function BlockLines(b: Block): seq<string> {
    [b.header] + b.chunks + [""]
  }

  /** The block a dump carries for a record: its rendered header and the given lines. */
  lemma CanonicalBlock(brick: Biobrick, chunks: seq<string>)
    requires WellFormedAbstract(brick.abs)
    requires forall i :: 0 <= i < |chunks| ==> chunks[i] != ""
    requires Concat(chunks) == brick.sequence
    ensures WellFormedBlock(Block(HeaderLine(brick.abs), chunks, brick))
  {
    AbstractRoundTrip(brick.abs);
  }

  /** The body scan stops at the blank separator, whatever follows it. */
  lemma {:induction false} BodyOfChunks(chunks: seq<string>, tail: seq<string>)
    requires forall i :: 0 <= i < |chunks| ==> chunks[i] != ""
    ensures Body(chunks + [""] + tail) == BodyScan(Concat(chunks), |chunks| + 1)
  {
    var rest := chunks + [""] + tail;
    if chunks == [] {
      assert rest[0] == "";
    } else {
      assert rest[1..] == chunks[1..] + [""] + tail;
      BodyOfChunks(chunks[1..], tail);
    }
  }

  /** Read returns exactly the record of a well-formed block and consumes the block. */
  lemma ReadStepBlock(b: Block, tail: seq<string>, broken: bool)
    requires WellFormedBlock(b)
    ensures ReadStep(BlockLines(b) + tail, broken)
         == ReadOutcome(Some(b.brick), if broken && tail == [] then Some(StreamBroken) else None, |BlockLines(b)|)
  {
    var rest := BlockLines(b) + tail;
    assert rest[0] == b.header;
    assert rest[1..] == b.chunks + [""] + tail;
    BodyOfChunks(b.chunks, tail);
  }
}
