/**
 * The backing file seen as records: a log written by appends holds one
 * serialised record per line, each line ended by '\n'. Reading it back
 * splits on '\n', skips empty rows, parses every other row and keeps the
 * records the query's predicate accepts.
 */
module LogFile {
  import opened Wrappers
  import opened TextLines
  import opened Codec
  import opened Rotation

  /** `JSON.stringify(r) + '\n'`, the text one append writes. */
  function Line(r: Record): string
  {
    Serialize(r) + "\n"
  }

  /** The text one append writes ends in a newline, its only one. */
  lemma LineShape(r: Record)
    ensures |Line(r)| >= 3 && Line(r)[|Line(r)| - 1] == '\n'
    ensures '\n' !in Line(r)[..|Line(r)| - 1]
  {
    var line := Line(r);
    assert line[..|line| - 1] == Serialize(r);
  }

  /** The file holding `rs`, oldest first. */
  function Lines(rs: seq<Record>): string
  {
    if rs == [] then [] else Line(rs[0]) + Lines(rs[1..])
  }

  /** The serialised lines of `rs`, without their newlines. */
  function Rows(rs: seq<Record>): (rows: seq<string>)
    ensures |rows| == |rs| && NoNewlines(rows)
  {
    if rs == [] then [] else [Serialize(rs[0])] + Rows(rs[1..])
  }

  /** Appending one line to the file of `rs` gives the file of `rs + [r]`. */
  lemma {:induction false} LinesSnoc(rs: seq<Record>, r: Record)
    ensures Lines(rs + [r]) == Lines(rs) + Line(r)
    decreases |rs|
  {
    if rs == [] {
      assert [r][1..] == [];
    } else {
      SliceOfAppend(rs, [r], 1);
      LinesSnoc(rs[1..], r);
    }
  }

  /** The file of `rs` is its rows joined by newlines, with the final newline giving an empty last row. */
  lemma {:induction false} JoinRows(rs: seq<Record>)
    ensures Join(Rows(rs) + [[]]) == Lines(rs)
    decreases |rs|
  {
    if rs != [] {
      var x := Serialize(rs[0]);
      var t := Rows(rs[1..]);
      JoinRows(rs[1..]);
      assert Rows(rs) == [x] + t;
      AppendAssoc([x], t, [[]]);
      JoinCons(x, t + [[]]);
    }
  }

  /** `Lines(rs).split('\n')` is the rows followed by one empty row. */
  lemma SplitLines(rs: seq<Record>)
    ensures Split(Lines(rs)) == Rows(rs) + [[]]
  {
    JoinRows(rs);
    SplitJoin(Rows(rs) + [[]]);
  }

  lemma {:induction false} RowsSuffix(rs: seq<Record>, j: nat)
    requires j <= |rs|
    ensures Rows(rs)[j..] == Rows(rs[j..])
    decreases j
  {
    if j > 0 {
      RowsSuffix(rs[1..], j - 1);
      assert rs[1..][j - 1..] == rs[j..];
    }
  }

  /** The trailing rows of the file of `rs`, from row `j` on, form the file of `rs[j..]`. */
  lemma TrailingRows(rs: seq<Record>, j: nat)
    requires j <= |rs| + 1
    ensures var d := if j <= |rs| then j else |rs|;
      Join((Rows(rs) + [[]])[j..]) == Lines(rs[d..])
  {
    var L := Rows(rs) + [[]];
    if j <= |rs| {
      RowsSuffix(rs, j);
      SliceOfAppend(Rows(rs), [[]], j);
      JoinRows(rs[j..]);
    } else {
      assert L[j..] == [];
      assert rs[|rs|..] == [];
    }
  }

  /** Trailing lines of the file of `rs` are the file of a suffix of `rs`. */
  lemma LastLinesOfLog(rs: seq<Record>, t: string)
    requires KeepsLastLines(t, Lines(rs))
    ensures exists d :: 0 <= d <= |rs| && t == Lines(rs[d..])
  {
    SplitLines(rs);
    var j :| 0 <= j <= |Split(Lines(rs))| && t == Join(Split(Lines(rs))[j..]);
    TrailingRows(rs, j);
  }

  /**
   * Rotation of a log file keeps the newest records: the result is the file of
   * some suffix of the records, in their original order, within the limit.
   */
  lemma RotateKeepsNewest(rs: seq<Record>, limit: Option<nat>)
    ensures exists d :: 0 <= d <= |rs| && Rotate(Lines(rs), limit) == Lines(rs[d..])
    ensures !Exceeds(|Rotate(Lines(rs), limit)|, limit)
  {
    RotateKeepsLastLines(Lines(rs), limit);
    LastLinesOfLog(rs, Rotate(Lines(rs), limit));
  }

  /** `t` is the file of the newest records of `rs`: of some suffix of `rs`. */
  ghost predicate HoldsNewest(t: string, rs: seq<Record>)
  {
    exists d :: 0 <= d <= |rs| && t == Lines(rs[d..])
  }

  /**
   * One append on the file of `rs`: without rotation the file of `rs + [x]`;
   * with rotation the file of a suffix of `rs + [x]`.
   */
  lemma AppendToLog(rs: seq<Record>, x: Record, limit: Option<nat>)
    ensures Lines(rs) + Line(x) == Lines(rs + [x])
    ensures HoldsNewest(Lines(rs) + Line(x), rs + [x])
    ensures HoldsNewest(Rotate(Lines(rs) + Line(x), limit), rs + [x])
  {
    LinesSnoc(rs, x);
    assert (rs + [x])[0..] == rs + [x];
    RotateKeepsNewest(rs + [x], limit);
  }

  /**
   * `AppendToLog` for every reading of the old file `c` as records: the file
   * after the append, rotated or not, holds the newest records.
   */
  lemma AppendToAnyLog(c: string, x: Record, t: string, limit: Option<nat>)
    requires t == c + Line(x) || t == Rotate(c + Line(x), limit)
    ensures forall rs :: c == Lines(rs) ==> HoldsNewest(t, rs + [x])
  {
    forall rs | c == Lines(rs)
      ensures HoldsNewest(t, rs + [x])
    {
      AppendToLog(rs, x, limit);
    }
  }

  // ---------------------------------------------------------------- reading

  /** The error a query fails with: a row that is not a serialised record. */
  datatype QueryError = BadRow(row: string)

  /** Every non-empty row parses as a record. */
  predicate RowsParse(rows: seq<string>)
  {
    forall i :: 0 <= i < |rows| && rows[i] != [] ==> Parse(rows[i]).Some?
  }

  /**
   * The newline-delimited parser: rows in order, empty rows skipped, the first
   * row that does not parse fails the whole read.
   */
  function ParseRows(rows: seq<string>): (r: Result<seq<Record>, QueryError>)
    ensures r.Ok? <==> RowsParse(rows)
    ensures r.Ok? ==> |r.value| <= |rows|
    ensures r.Err? ==> r.error.row in rows && r.error.row != [] && Parse(r.error.row).None?
    decreases |rows|
  {
    if rows == [] then Ok([])
    else if rows[0] == [] then ParseRows(rows[1..])
    else
      match Parse(rows[0])
      case None => Err(BadRow(rows[0]))
      case Some(x) =>
        match ParseRows(rows[1..])
        case Ok(xs) => Ok([x] + xs)
        case Err(e) => Err(e)
  }

  /** Reading back the rows of a log gives its records. */
  lemma {:induction false} ParseRowsOfLog(rs: seq<Record>)
    ensures ParseRows(Rows(rs) + [[]]) == Ok(rs)
    decreases |rs|
  {
    var rows := Rows(rs) + [[]];
    if rs == [] {
      assert rows[1..] == [];
    } else {
      var line := Serialize(rs[0]);
      var tail := Rows(rs[1..]) + [[]];
      assert rows == [line] + tail;
      SliceOfAppend([line], tail, 1);
      ParseSerialize(rs[0]);
      ParseRowsOfLog(rs[1..]);
      assert rs == [rs[0]] + rs[1..];
    }
  }

  /** A single row: no record when empty, otherwise its record or the error naming it. */
  lemma ParseRowsOne(row: string)
    ensures ParseRows([row]) == (if row == [] then Ok([]) else
      match Parse(row)
      case None => Err(BadRow(row))
      case Some(x) => Ok([x]))
  {
    assert [row][1..] == [];
    assert ParseRows([]) == Ok([]);
    if row != [] && Parse(row).Some? {
      assert [Parse(row).value] + [] == [Parse(row).value];
    }
  }

  /**
   * Rows are read in order: parsing `a + b` parses `a`, then `b`. The first
   * part's error wins; when both parts parse, their records are concatenated.
   */
  lemma {:induction false} ParseRowsAppend(a: seq<string>, b: seq<string>)
    ensures ParseRows(a).Err? ==> ParseRows(a + b) == ParseRows(a)
    ensures ParseRows(a).Ok? && ParseRows(b).Err? ==> ParseRows(a + b) == ParseRows(b)
    ensures ParseRows(a).Ok? && ParseRows(b).Ok? ==> ParseRows(a + b) == Ok(ParseRows(a).value + ParseRows(b).value)
    decreases |a|
  {
    if a == [] {
      assert a + b == b;
      assert ParseRows(a) == Ok([]);
      if ParseRows(b).Ok? {
        assert [] + ParseRows(b).value == ParseRows(b).value;
      }
    } else {
      SliceOfAppend(a, b, 1);
      assert (a + b)[0] == a[0];
      ParseRowsAppend(a[1..], b);
      if a[0] != [] && Parse(a[0]).Some? && ParseRows(a[1..]).Ok? && ParseRows(b).Ok? {
        AppendAssoc([Parse(a[0]).value], ParseRows(a[1..]).value, ParseRows(b).value);
      }
    }
  }

  /** `!queryFn || queryFn(entry)`. */
  predicate Keep(p: Option<Record -> bool>, x: Record)
  {
    p.None? || p.value(x)
  }

  /** The records `p` keeps, in their order. */
  function Select(rs: seq<Record>, p: Option<Record -> bool>): (r: seq<Record>)
    ensures |r| <= |rs|
    ensures forall x :: x in r <==> x in rs && Keep(p, x)
    decreases |rs|
  {
    if rs == [] then []
    else if Keep(p, rs[0]) then [rs[0]] + Select(rs[1..], p)
    else Select(rs[1..], p)
  }

  /** Without a predicate every record is returned, in order. */
  lemma {:induction false} SelectAll(rs: seq<Record>)
    ensures Select(rs, None) == rs
    decreases |rs|
  {
    if rs != [] {
      SelectAll(rs[1..]);
      assert rs == [rs[0]] + rs[1..];
    }
  }

  /** Selection keeps relative order: it distributes over concatenation. */
  lemma {:induction false} SelectAppend(a: seq<Record>, b: seq<Record>, p: Option<Record -> bool>)
    ensures Select(a + b, p) == Select(a, p) + Select(b, p)
    decreases |a|
  {
    if a == [] {
      assert a + b == b;
    } else {
      SliceOfAppend(a, b, 1);
      assert (a + b)[0] == a[0];
      SelectAppend(a[1..], b, p);
    }
  }
}
