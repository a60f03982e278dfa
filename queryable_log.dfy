/**
 * The log engine: one object owning a backing file, an optional append
 * writer and a running size estimate. The file is the `content` field; a
 * stat of the file is `|content|`.
 */
module Log {
  import opened Wrappers
  import opened TextLines
  import opened Codec
  import opened Rotation
  import opened LogFile

  /** `DEFAULT_SIZE_LIMIT`, 5e6. */
  const DefaultSizeLimit: nat := 5_000_000

  /** The constructor's options object; an object without `sizeLimit` leaves it `undefined` (`None`). */
  datatype Options = Options(sizeLimit: Option<nat>)

  /**
   * The file `c2` and estimate `e2` after writing `line` to the file `c` with
   * estimate `e`: the line is appended and its length added to the estimate;
   * once the estimate exceeds the limit the file is rotated and the estimate
   * becomes its real size.
   */
  predicate Written(c: string, e: nat, line: string, limit: Option<nat>, c2: string, e2: nat)
  {
    if Exceeds(e + |line|, limit)
    then c2 == Rotate(c + line, limit) && e2 == |c2|
    else c2 == c + line && e2 == e + |line|
  }

  class QueryableLog {
    /** The backing file's text. */
    var content: string
    /** Whether the append-mode write stream is open. */
    var writerOpen: bool
    /** Characters written since the last size check, starting from zero. */
    var estimatedSize: nat
    /** The size limit; never reassigned after construction. */
    const sizeLimit: Option<nat>

    /**
     * A handle on a file that already holds `initial` ("" for a new file).
     * No writer yet; the default limit applies when no options are given.
     */
    constructor (initial: string, options: Option<Options>)
      ensures content == initial && !writerOpen && estimatedSize == 0
      ensures sizeLimit == if options.None? then Some(DefaultSizeLimit) else options.value.sizeLimit
    {
      content := initial;
      writerOpen := false;
      estimatedSize := 0;
      sizeLimit := if options.None? then Some(DefaultSizeLimit) else options.value.sizeLimit;
    }

    /** `_open`: opens the writer in append mode unless it is already open. */
    method Open()
      modifies this`writerOpen
      ensures writerOpen
    {
      if !writerOpen {
        writerOpen := true;
      }
    }

    /** `close`: ends the writer if there is one; closing again changes nothing. */
    method Close()
      modifies this`writerOpen
      ensures !writerOpen
    {
      if writerOpen {
        writerOpen := false;
      }
    }

    /** `_readRawLines`: the file's lines, which join back to the file. */
    method ReadRawLines() returns (lines: seq<string>)
      ensures |lines| >= 1 && NoNewlines(lines)
      ensures Join(lines) == content
    {
      lines := Split(content);
      JoinSplit(content);
    }

    /** `_writeRawLines`: replaces the file with the lines joined by newlines. */
    method WriteRawLines(lines: seq<string>)
      modifies this`content
      ensures content == Join(lines)
      ensures |lines| >= 1 && NoNewlines(lines) ==> Split(content) == lines
    {
      content := Join(lines);
      if |lines| >= 1 && NoNewlines(lines) {
        SplitJoin(lines);
      }
    }

    /**
     * `_applySizeLimit`: adopt the real size; if it is within the limit, stop.
     * Otherwise close the writer, drop the oldest lines until the file fits,
     * and reopen the writer.
     */
    method ApplySizeLimit()
      modifies this
      ensures content == Rotate(old(content), sizeLimit)
      ensures estimatedSize == |content|
      ensures writerOpen == (old(writerOpen) || !Within(|old(content)|, sizeLimit))
      ensures Within(|old(content)|, sizeLimit) ==> content == old(content) && writerOpen == old(writerOpen)
      ensures !Exceeds(estimatedSize, sizeLimit)
      ensures KeepsLastLines(content, old(content))
    {
      RotateKeepsLastLines(content, sizeLimit);
      estimatedSize := |content|;
      if Within(estimatedSize, sizeLimit) {
        return;
      }
      Close();
      ghost var start := content;
      while Exceeds(estimatedSize, sizeLimit)
        invariant estimatedSize == |content| && !writerOpen
        invariant Rotate(content, sizeLimit) == Rotate(start, sizeLimit)
        decreases |content|
      {
        ghost var before := content;
        var rawLines := ReadRawLines();
        SplitJoin(rawLines);
        rawLines := rawLines[DropCount(|rawLines|)..];
        WriteRawLines(rawLines);
        assert content == Step(before);
        StepShrinks(before);
        estimatedSize := |content|;
      }
      Open();
    }

    /**
     * The writing half of `append`: open the writer if needed, write one line,
     * add its length to the estimate and rotate once the estimate exceeds the
     * limit.
     */
    method WriteLine(line: string)
      modifies this
      ensures writerOpen
      ensures Written(old(content), old(estimatedSize), line, sizeLimit, content, estimatedSize)
      ensures !Exceeds(estimatedSize, sizeLimit)
    {
      if !writerOpen {
        Open();
      }
      content := content + line;
      estimatedSize := estimatedSize + |line|;
      if Exceeds(estimatedSize, sizeLimit) {
        ApplySizeLimit();
      }
    }

    /**
     * `append`: open the writer if needed, stamp `ts`, write one line, add its
     * length to the estimate and rotate once the estimate exceeds the limit.
     */
    method Append(rec: Record, now: int)
      modifies this
      ensures writerOpen
      ensures Written(old(content), old(estimatedSize), Line(Stamp(rec, now)), sizeLimit, content, estimatedSize)
      ensures !Exceeds(estimatedSize, sizeLimit)
      ensures forall rs :: old(content) == Lines(rs) ==> HoldsNewest(content, rs + [Stamp(rec, now)])
    {
      var stamped := Stamp(rec, now);
      var line := Line(stamped);
      WriteLine(line);
      AppendToAnyLog(old(content), stamped, content, sizeLimit);
    }

    /**
     * `query`: the file's records in file order, kept when the predicate (if
     * any) accepts them; a row that does not parse fails the query.
     */
    function Query(p: Option<Record -> bool>): (r: Result<seq<Record>, QueryError>)
      reads this
      ensures r.Ok? <==> RowsParse(Split(content))
      ensures r.Ok? ==> forall x :: x in r.value ==> Keep(p, x)
      ensures r.Err? ==> r.error.row in Split(content) && Parse(r.error.row).None?
    {
      match ParseRows(Split(content))
      case Ok(rs) => Ok(Select(rs, p))
      case Err(e) => Err(e)
    }
  }

  /**
   * Querying a file written as the records `rs` returns exactly the records
   * `p` accepts, in file order; with no predicate, all of `rs`.
   */
  lemma QueryOfLog(log: QueryableLog, rs: seq<Record>, p: Option<Record -> bool>)
    requires log.content == Lines(rs)
    ensures log.Query(p) == Ok(Select(rs, p))
    ensures log.Query(None) == Ok(rs)
  {
    SplitLines(rs);
    ParseRowsOfLog(rs);
    SelectAll(rs);
  }
}
