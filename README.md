# queryable-log in Dafny

A model of `QueryableLog` (index.js), a small append-only record log backed by a single file. The log:

- appends records as newline-delimited JSON, stamping each with a `ts` field;
- keeps a running estimate of the file's size;
- once the estimate passes the size limit, re-measures and truncates the file from the head, a quarter of its lines at a time;
- answers queries by parsing every line and filtering the records with an optional predicate.

In the model:

- The file is the field `content: string`. A `stat` of the file is `|content|`.
- The class `Log.QueryableLog` has the fields `content`, `writerOpen`, `estimatedSize` and the constant `sizeLimit`. Its methods change these fields as index.js changes the write stream, the estimate and the file.
- `Date.now()` is the parameter `now` of `Append`.
- The pieces `Append` builds on are pure functions in their own modules:
  - `TextLines`: `split('\n')` and `join('\n')`.
  - `Codec`: the record codec.
  - `Rotation`: the drop count, one pass of the truncation loop, and where the loop ends.
  - `LogFile`: the file seen as a sequence of records, the row parser and the query filter.

`sizeLimit` is an `Option<nat>`. The constructor's default `{sizeLimit} = {sizeLimit: DEFAULT_SIZE_LIMIT}` applies only when no options object is passed at all (index.js:10). An options object without `sizeLimit` leaves the limit `undefined`, and JavaScript's `x > undefined` and `x <= undefined` are both false. The model writes these two comparisons out as `Rotation.Exceeds` and `Rotation.Within`. With an `undefined` limit the log never rotates.

The rotation loop (index.js:60-69) ends because each pass shortens non-empty text, and the empty text is within any limit of zero or more. The line count does not always drop: a single line with no newline becomes `""`, which still splits into one piece. `Rotation.StepDropsLines` states exactly what holds: the line count drops, or the text is now empty.

The record codec is a concrete one, in the format `JSON.stringify` writes, for flat objects. Field values are `null`, booleans, integers and strings. Strings are escaped as `JSON.stringify` escapes them: `"` and `\` with a backslash, the control characters with a short escape where JSON has one and `\u00XX` otherwise. The parser, like `JSON.parse`, rejects numbers with a leading zero and raw control characters inside strings. The model proves the two laws the log relies on: a serialised line has no newline, and it parses back to the same record.

Two behaviours of index.js are worth stating directly:

- index.js does not report an error when one line alone exceeds the limit: it drops that line too and leaves an empty file. `Rotate` models this.
- index.js adds `str.length` (UTF-16 code units) to the estimate, while `stat` reports bytes. The model counts characters in both places.

The skipped test "size limit applied" (tests/tests.js:39-58) is replayed in the module `SizeLimitTest`, for any timestamps below 10^13. Its expected result cannot be reached when every write reaches the file before the next `stat`, as in the model; see "## Findings". The test "base api" (tests/tests.js:6-34) is replayed in the module `BaseApiTest`.

## Model

| member | source | states |
|---|---|---|
| `Log.QueryableLog.constructor` | index.js:10-15 | No writer, estimate 0, the file holds what it held before. The limit is 5,000,000 when no options object is given; otherwise it is the object's `sizeLimit`, possibly `undefined`. |
| `Log.QueryableLog.Open` | index.js:82-86 | The writer is open afterwards. Only the writer flag may change, so opening an open writer changes nothing. |
| `Log.QueryableLog.Close` | index.js:47-52 | The writer is closed afterwards. Only the writer flag may change, so a second close changes nothing. |
| `Log.QueryableLog.ReadRawLines` | index.js:73-76 | Returns at least one line, none holding a newline, and the lines join back to the file. |
| `Log.QueryableLog.WriteRawLines` | index.js:78-80 | The file becomes the lines joined by newlines. Reading it back gives the same lines. |
| `Log.QueryableLog.ApplySizeLimit` | index.js:54-71 | The estimate becomes the real size. Within the limit: file and writer unchanged. Otherwise: the writer is reopened, and the file ends where the truncation loop ends, at most the limit and a trailing run of the old file's lines. |
| `Log.QueryableLog.WriteLine` | index.js:18-27 | The writer is open afterwards. The line is appended and its length added to the estimate; once the estimate exceeds the limit the file is the rotation of that text and the estimate its real size (`Log.Written`). The estimate is never over the limit afterwards. |
| `Log.QueryableLog.Append` | index.js:17-28 | The writer is open afterwards. The file and estimate change as `Log.Written` describes for the serialised stamped line: without rotation the old file plus that line, with the estimate grown by its length; past the limit the rotation of that text. The estimate is never over the limit afterwards. A file of records `rs` becomes the file of a suffix of `rs + [stamped]`. |
| `Log.QueryableLog.Query` | index.js:30-45 | Succeeds exactly when every non-empty row parses. Every returned record satisfies the predicate. A failure names a row of the file that does not parse. |
| `Log.QueryOfLog` | index.js:36-38 | On a file written as records `rs`: `query(p)` returns exactly the records of `rs` that `p` accepts, in file order, and `query()` returns all of `rs`. |
| `TextLines.Split` | index.js:75 | `split('\n')` gives at least one piece, and no piece holds a newline. |
| `TextLines.JoinLength` | index.js:79 | `Join` (`join('\n')`) puts exactly one newline between consecutive pieces: its length is the pieces' total length plus one less than their number. |
| `TextLines.JoinSplit` | index.js:73-80 | Joining with `'\n'` the pieces of a split gives back the original string. |
| `TextLines.SplitJoin` | index.js:73-80 | Splitting newline-free lines joined with `'\n'` gives back those lines. |
| `TextLines.JoinSlices` | index.js:63-64 | The joined text is the first `k` lines, a newline, then the rest, so dropping `k` lines drops a prefix of the text. |
| `TextLines.DropLinesIsAlignedSuffix` | index.js:63-64 | Joining the lines from index `j` on gives a suffix of the text that is the whole text, is empty, or starts right after a newline. |
| `TextLines.AlignedSuffixTransitive` | index.js:60-69 | Repeated passes still leave a line-aligned suffix of the original text. |
| `Rotation.DropCount` | index.js:63 | The drop count `max(n / 4, 1)`, truncated, is at least 1, at most `n` for `n >= 1`, and the floor of `n / 4` from 4 lines on. |
| `Rotation.StepShrinks` | index.js:62-64 | One pass leaves a line-aligned suffix, strictly shorter unless the text is already empty, so the loop terminates. |
| `Rotation.StepDropsLines` | index.js:62-64 | One pass strictly lowers the line count, or it has emptied the text. |
| `Rotation.Rotate` | index.js:60-69 | Where the truncation loop ends is within the limit and is a line-aligned suffix of the text it started from. |
| `Rotation.LastLinesTransitive` | index.js:60-69 | Trailing lines of trailing lines are trailing lines of the original. |
| `Rotation.NegativeLimitNeverEnds` | index.js:60-69 | With a negative limit the loop condition holds after any number of passes, and a pass over the empty file leaves it empty: the loop does not end. |
| `Rotation.RotateKeepsLastLines` | index.js:60-69 | The loop's result is the original's lines from some index on, rejoined in their order. |
| `Codec.StampGet` | index.js:20 | `Stamp` (`obj.ts = Date.now()`): after stamping, `ts` reads as `now` whatever the caller supplied, and every other field reads as before. |
| `Codec.StampShape` | index.js:20 | `Stamp`: existing fields keep their positions. `ts` is added as the last field only when it was absent. |
| `Codec.StampKeepsKeysDistinct` | index.js:20 | `Stamp`: stamping an object with distinct keys leaves the keys distinct. |
| `Codec.Serialize` | index.js:21 | A serialised record is one line: it holds no newline and starts with `{`. |
| `Codec.EncodeFieldsOneLine` | index.js:21 | An encoded field list holds no newline, because keys and string values are escaped. |
| `Codec.ParseSerialize` | index.js:21 | `Parse` (`JSON.parse` of one row): parsing a serialised record gives the record back. |
| `Codec.ParseRejectsLeadingZero` | index.js:34 | `Parse` rejects the row `{"a":01}`, a number with a leading zero, as `JSON.parse` does. |
| `Codec.ParseRejectsControlChar` | index.js:34 | `Parse` rejects a row whose string holds a raw tab, as `JSON.parse` does. |
| `Codec.UnquoteEscape` | index.js:21 | An escaped, quoted string reads back as the original string, however it mixes quotes, backslashes and newlines. |
| `Codec.ParseIntToString` | index.js:20 | A decimal integer, e.g. the timestamp, reads back as the same integer when followed by a non-digit. |
| `Codec.ParseEncodeFields` | index.js:21 | A comma-separated field list closed by `}` reads back as the same fields in the same order. |
| `LogFile.LineShape` | index.js:21 | `Line` (`JSON.stringify(obj) + '\n'`) is at least 3 characters long and ends in a newline, its only one. |
| `LogFile.LinesSnoc` | index.js:23 | Writing one line to the file of `rs` gives the file of `rs + [r]`. |
| `LogFile.SplitLines` | index.js:75 | Splitting the file of `rs` gives its serialised rows followed by one empty row. |
| `LogFile.LastLinesOfLog` | index.js:63-64 | Trailing lines of the file of `rs` form the file of a suffix of `rs`. |
| `LogFile.RotateKeepsNewest` | index.js:60-69 | Rotating the file of `rs` gives the file of a contiguous suffix of `rs`, newest records kept in order, within the limit. With the 60-character limit of the skipped test at tests/tests.js:39-58 that suffix is the newest record alone (`SizeLimitTest.SizeLimitRun`). |
| `LogFile.AppendToLog` | index.js:17-28 | One append on the file of `rs` gives the file of `rs + [x]`, or after rotation the file of a suffix of it. |
| `LogFile.ParseRows` | index.js:34 | Succeeds exactly when every non-empty row parses, with at most one record per row. On failure it names a non-empty row that does not parse. |
| `LogFile.ParseRowsOne` | index.js:34 | A single row gives no record when empty, its record when it parses, and otherwise the error naming it. |
| `LogFile.ParseRowsAppend` | index.js:32-41 | Rows are read in order: on `a + b` the first error in `a` wins, then the first in `b`; when both parts parse, the records are those of `a` followed by those of `b`. With `ParseRowsOne` this fixes the result on any file, blank rows and a missing final newline included. |
| `LogFile.ParseRowsOfLog` | index.js:32-41 | Parsing the rows of the file of `rs` gives `rs`. |
| `LogFile.Select` | index.js:35-40 | A record is in the result exactly when it is in the input and the predicate, if any, accepts it. |
| `LogFile.SelectAll` | index.js:36 | With no predicate every record is kept, in order. |
| `LogFile.SelectAppend` | index.js:35-41 | Filtering distributes over concatenation, so relative order is preserved. |
| `BaseApiTest.BananaOf` | tests/tests.js:27 | `obj => obj.type === 'banana'` accepts a stamped `{index, type}` exactly when its type is `'banana'`. |
| `BaseApiTest.SelectBananas` | tests/tests.js:27-31 | Of the test's six stamped records the banana query keeps records 3, 4 and 6, in that order. |
| `BaseApiTest.AppendBelowLimit` | index.js:17-28 | At the default limit, an append of `{index, type}` to the file of `rs`, at most 1000 characters long, gives the file of `rs` plus the stamped record, with no rotation. |
| `BaseApiTest.BaseApiRun` | tests/tests.js:6-34 | A new log at the default limit receives the test's six appends: `query()` then returns the six stamped records in order, and the banana query returns records 3, 4 and 6. |
| `SizeLimitTest.FruitLine` | index.js:20-21 | The line one append of `{index, type}` writes, with a one-digit index and a lower-case type, is 28 characters plus the type's length plus the timestamp's digits. |
| `SizeLimitTest.NewestTwoExceedLimit` | tests/tests.js:52-55 | The lines of records 5 and 6 of the test are longer than 60 characters together, whatever the timestamps. |
| `SizeLimitTest.RotateTwo` | index.js:60-69 | When two records exceed the limit and the newer alone is within it, rotation drops exactly the older one. |
| `SizeLimitTest.AppendKeepsOnlyNewest` | index.js:17-28 | On a limit of 60, an append of a line of 31 to 60 characters to a file holding at most one such record leaves the new record alone. |
| `SizeLimitTest.SizeLimitRun` | tests/tests.js:39-58 | The test's six appends and its query, for any timestamps below 10^13, return exactly the newest record, `{index: 6, type: 'banana'}` with its `ts`. |

## Left out

- Streams and file-system calls (`pump`, `ndjson`, `through2`, `concat-stream`, `fs`, `fsp`) are not modelled: the file is the `content` string, and the file path is not modelled.
- I/O failures are not modelled: a missing file at `stat` (`st?.size` undefined at index.js:56 and index.js:68) or at `query`, and failed reads or writes. The file always exists, holding the text given to the constructor.
- `Date.now()` is not modelled: the clock is the `now` parameter of `Append`.
- Asynchrony is not modelled: writes take effect at once rather than when the stream flushes; a query running during an append or a rotation is not modelled; concurrent appends are not modelled.
- `Codec.Stamp`: the caller's object is also mutated in place by `obj.ts = ...` (index.js:20). The model returns the stamped record instead.
- The codec covers flat records only: nested arrays and objects, floating-point numbers, exponents and whitespace between tokens are not modelled.
- `Codec.Parse`: duplicate keys are not modelled, and a `\u` escape that is half of a surrogate pair is rejected rather than combined with its partner. Non-object lines are rejected.
- `Codec.Escape`: a lone surrogate, which `JSON.stringify` writes as `\uXXXX`, is not modelled: Dafny's `char` is a Unicode scalar value.
- Numbers are unbounded integers (`Num`). JavaScript numbers lose precision above 2^53, and `JSON.stringify` writes numbers of 10^21 and above in exponent form (`1e+21`); neither is modelled.
- JavaScript's ordering of integer-like keys ahead of other keys is not modelled: fields keep insertion order.
- The newline-delimited parser's tolerance of `\r\n` endings is not modelled: rows are the pieces between `'\n'`, and empty rows are skipped.
- The model uses one length measure for both the estimate and `stat`: it does not model the gap between UTF-16 code units and UTF-8 bytes.
- `Rotation.DropCount` computes `rawLines.length / 4` as integer division, which is what `| 0` gives for non-negative counts. The 32-bit wrap-around of `| 0`, reached only beyond 2^33 lines, is not modelled.
- Negative size limits are not modelled: the limit is a `nat`, which is what makes `Rotation.Rotate` terminate. With a negative limit the loop at index.js:60 never ends (see "## Findings").
- `setup()` and the `overwrite` option are not modelled: tests/tests.js:43 calls `setup()`, but index.js defines neither. `SizeLimitTest.SizeLimitRun` skips that call.
- `SizeLimitTest.SizeLimitRun` returns the records themselves; the test's `map` to `{index, type}` is not modelled.
- `BaseApiTest.BaseApiRun` returns the records themselves as well; the test's `map` to `{index, type}` is not modelled.

## Findings

| source | as written | input that shows it | evidently intended | confidence | as-written member | corrected member |
|---|---|---|---|---|---|---|
| tests/tests.js:52-55 | With `sizeLimit: 60` (tests/tests.js:42) the test expects records 5 and 6 to survive the six appends. | The test's own six appends, with any timestamps, when every write reaches the file before the next `stat`: each stamped line is at least 34 characters, so the lines of records 5 and 6 need at least 69 characters together, over 60. A late flush of record 6 after the rewrite at index.js:64, which left record 5 alone, would give the expected `[5, 6]`; the skip comment at tests/tests.js:36-37 blames flush timing. | The query returns `[{index: 6, type: 'banana'}]`, the newest record alone, which is what the rotation leaves. | not executed | `SizeLimitTest.NewestTwoExceedLimit` | `SizeLimitTest.SizeLimitRun` |
| index.js:60-69 | The constructor accepts any `sizeLimit`, and the loop runs while `size > sizeLimit`. | `new QueryableLog(path, {sizeLimit: -1})` and one append: the loop empties the file and then rewrites it forever, since size 0 exceeds -1. | The loop ends; the limit is at least 0. | not executed | `Rotation.NegativeLimitNeverEnds` | `Rotation.Rotate` |
