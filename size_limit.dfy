/**
 * The skipped size-limit test (tests/tests.js:39-58) replayed on the model:
 * a new log with `sizeLimit: 60` receives six `{index, type}` objects. Every
 * stamped line is at least 34 characters long, so two of them never fit in
 * 60. When every write reaches the file before the next size check, as here,
 * the test's expectation that the last two records survive cannot be met, and
 * the log ends holding only the newest record.
 */
module SizeLimitTest {
  import opened Wrappers
  import opened TextLines
  import opened Codec
  import opened Rotation
  import opened LogFile
  import opened Log

  /** `{index: index, type: kind}`, the objects the tests append. */
  function Fruit(index: int, kind: string): Record
  {
    [Field("index", Num(index)), Field("type", Str(kind))]
  }

  predicate Lowercase(s: string)
  {
    forall i :: 0 <= i < |s| ==> 'a' <= s[i] <= 'z'
  }

  lemma EscapeLetter(c: char)
    requires 'a' <= c <= 'z'
    ensures EscapeChar(c) == [c]
  {
  }

  /** A word of lower-case letters needs no escaping. */
  lemma {:induction false} EscapeLowercase(s: string)
    requires Lowercase(s)
    ensures Escape(s) == s
    decreases |s|
  {
    if s != [] {
      EscapeLowercase(s[1..]);
      EscapeLetter(s[0]);
      assert s == [s[0]] + s[1..];
    }
  }

  function Pow10(k: nat): nat
  {
    if k == 0 then 1 else 10 * Pow10(k - 1)
  }

  /** A number below `10^k` has at most `k` digits. */
  lemma {:induction false} NatToStringLength(n: nat, k: nat)
    requires 1 <= k && n < Pow10(k)
    ensures |NatToString(n)| <= k
    decreases n
  {
    if n >= 10 {
      assert k >= 2;
      NatToStringLength(n / 10, k - 1);
    }
  }

  lemma StampFruit(index: int, kind: string, now: int)
    ensures Stamp(Fruit(index, kind), now) == Fruit(index, kind) + [Field(TimestampKey, Num(now))]
  {
    var r := Fruit(index, kind);
    var ts := Field(TimestampKey, Num(now));
    assert r[1..] == [r[1]] && [r[1]][1..] == [];
    assert Stamp(r[1..], now) == [r[1], ts];
  }

  lemma EncodeFieldLength(f: Field)
    requires Lowercase(f.key)
    ensures |EncodeField(f)| == |f.key| + 3 + |Encode(f.value)|
  {
    EscapeLowercase(f.key);
  }

  /** A word of lower-case letters, one letter at a time. */
  lemma LowercaseWord(w: string, letters: seq<char>)
    requires w == letters && forall i :: 0 <= i < |letters| ==> 'a' <= letters[i] <= 'z'
    ensures Lowercase(w)
  {
  }

  /** The keys the test's lines carry. */
  lemma KeysLowercase()
    ensures Lowercase("index") && Lowercase("type") && Lowercase(TimestampKey)
  {
    LowercaseWord("index", ['i', 'n', 'd', 'e', 'x']);
    LowercaseWord("type", ['t', 'y', 'p', 'e']);
    LowercaseWord("ts", ['t', 's']);
  }

  /** The two kinds of fruit the test appends. */
  lemma KindsLowercase()
    ensures Lowercase("apple") && Lowercase("banana")
  {
    LowercaseWord("apple", ['a', 'p', 'p', 'l', 'e']);
    LowercaseWord("banana", ['b', 'a', 'n', 'a', 'n', 'a']);
  }

  lemma EncodeThreeFields(fs: seq<Field>)
    requires |fs| == 3
    ensures |EncodeFields(fs)| == |EncodeField(fs[0])| + |EncodeField(fs[1])| + |EncodeField(fs[2])| + 2
  {
    var t := fs[1..];
    assert t[0] == fs[1] && t[1..] == [fs[2]];
    assert EncodeFields(t[1..]) == EncodeField(fs[2]);
    assert EncodeFields(t) == EncodeField(fs[1]) + "," + EncodeField(fs[2]);
  }

  /** A line is its fields, the braces and the newline. */
  lemma LineLength(r: Record)
    ensures |Line(r)| == |EncodeFields(r)| + 3
  {
    assert |Serialize(r)| == |EncodeFields(r)| + 2;
  }

  lemma EncodeFruitFields(index: int, kind: string, now: int)
    requires 0 <= index < 10 && Lowercase(kind)
    ensures |EncodeFields(Fruit(index, kind) + [Field(TimestampKey, Num(now))])| == 25 + |kind| + |IntToString(now)|
  {
    var f0, f1, f2 := Field("index", Num(index)), Field("type", Str(kind)), Field(TimestampKey, Num(now));
    assert Fruit(index, kind) + [f2] == [f0, f1, f2];
    EncodeThreeFields([f0, f1, f2]);
    KeysLowercase();
    EncodeFieldLength(f0);
    EncodeFieldLength(f1);
    EncodeFieldLength(f2);
    EscapeLowercase(kind);
    assert |Encode(f0.value)| == 1;
    assert |Encode(f1.value)| == |kind| + 2;
  }

  /** The length of the line one append of `{index, type}` writes. */
  lemma FruitLine(index: int, kind: string, now: int)
    requires 0 <= index < 10 && Lowercase(kind)
    ensures |Line(Stamp(Fruit(index, kind), now))| == 28 + |kind| + |IntToString(now)|
  {
    StampFruit(index, kind, now);
    EncodeFruitFields(index, kind, now);
    LineLength(Stamp(Fruit(index, kind), now));
  }

  /** The file of two records is their two lines. */
  lemma LinesOfTwo(a: Record, b: Record)
    ensures Lines([a, b]) == Line(a) + Line(b)
    ensures Lines([b]) == Line(b)
  {
    assert Lines([a]) == Line(a) + Lines([]);
    assert Lines([b]) == Line(b) + Lines([]);
    LinesSnoc([a], b);
    assert [a] + [b] == [a, b];
  }

  /** `Date.now()` stays below `10^13`, thirteen digits, until the year 2286. */
  lemma TimestampDigits(now: int)
    requires 0 <= now < 10_000_000_000_000
    ensures |IntToString(now)| <= 13
  {
    assert Pow10(13) == 10_000_000_000_000;
    NatToStringLength(now, 13);
  }

  /** The two newest records of the test never fit in 60 characters together, whatever their timestamps. */
  lemma NewestTwoExceedLimit(now5: int, now6: int)
    ensures |Lines([Stamp(Fruit(5, "apple"), now5), Stamp(Fruit(6, "banana"), now6)])| > 60
  {
    var a := Stamp(Fruit(5, "apple"), now5);
    var b := Stamp(Fruit(6, "banana"), now6);
    KindsLowercase();
    FruitLine(5, "apple", now5);
    FruitLine(6, "banana", now6);
    LinesOfTwo(a, b);
  }

  /** Rotating the file of two records when only the newer one fits drops exactly the older one. */
  lemma RotateTwo(a: Record, b: Record, limit: Option<nat>)
    requires Exceeds(|Lines([a, b])|, limit) && !Exceeds(|Lines([b])|, limit)
    ensures Rotate(Lines([a, b]), limit) == Lines([b])
  {
    var c := Lines([a, b]);
    SplitLines([a, b]);
    assert |Split(c)| == 3 && DropCount(3) == 1;
    TrailingRows([a, b], 1);
    assert [a, b][1..] == [b];
    assert Step(c) == Lines([b]);
  }

  /**
   * One append of the test on a log with limit 60 that holds at most one
   * earlier record: afterwards the file holds exactly the new record.
   */
  lemma AppendKeepsOnlyNewest(c: string, e: nat, prev: Option<Record>, x: Record, c2: string, e2: nat)
    requires e == |c|
    requires prev.None? ==> c == []
    requires prev.Some? ==> c == Lines([prev.value]) && |Line(prev.value)| > 30
    requires 30 < |Line(x)| <= 60
    requires Written(c, e, Line(x), Some(60), c2, e2)
    ensures c2 == Lines([x]) && e2 == |c2|
  {
    LinesOfTwo(x, x);
    if prev.None? {
      assert c + Line(x) == Line(x);
    } else {
      var a := prev.value;
      LinesOfTwo(a, x);
      LinesOfTwo(x, a);
      RotateTwo(a, x, Some(60));
    }
  }

  /** `await log.append({index, type})` in the test, with the log's state before and after. */
  method AppendFruit(log: QueryableLog, index: int, kind: string, now: int, ghost prev: Option<Record>)
    requires log.sizeLimit == Some(60)
    requires 0 <= index < 10 && (kind == "apple" || kind == "banana")
    requires 0 <= now < 10_000_000_000_000
    requires log.estimatedSize == |log.content|
    requires prev.None? ==> log.content == []
    requires prev.Some? ==> log.content == Lines([prev.value]) && |Line(prev.value)| > 30
    modifies log
    ensures log.content == Lines([Stamp(Fruit(index, kind), now)])
    ensures log.estimatedSize == |log.content|
    ensures |Line(Stamp(Fruit(index, kind), now))| > 30
  {
    KindsLowercase();
    FruitLine(index, kind, now);
    TimestampDigits(now);
    log.Append(Fruit(index, kind), now);
    AppendKeepsOnlyNewest(old(log.content), old(log.estimatedSize), prev,
      Stamp(Fruit(index, kind), now), log.content, log.estimatedSize);
  }

  /**
   * The test's six appends and its query, for any timestamps below `10^13`:
   * the query returns the newest record alone.
   */
  method SizeLimitRun(now: seq<int>) returns (r: Result<seq<Record>, QueryError>)
    requires |now| == 6
    requires forall i :: 0 <= i < 6 ==> 0 <= now[i] < 10_000_000_000_000
    ensures r == Ok([Stamp(Fruit(6, "banana"), now[5])])
  {
    var log := new QueryableLog("", Some(Options(Some(60))));
    AppendFruit(log, 1, "apple", now[0], None);
    AppendFruit(log, 2, "apple", now[1], Some(Stamp(Fruit(1, "apple"), now[0])));
    AppendFruit(log, 3, "banana", now[2], Some(Stamp(Fruit(2, "apple"), now[1])));
    AppendFruit(log, 4, "banana", now[3], Some(Stamp(Fruit(3, "banana"), now[2])));
    AppendFruit(log, 5, "apple", now[4], Some(Stamp(Fruit(4, "banana"), now[3])));
    AppendFruit(log, 6, "banana", now[5], Some(Stamp(Fruit(5, "apple"), now[4])));
    r := log.Query(None);
    QueryOfLog(log, [Stamp(Fruit(6, "banana"), now[5])], None);
  }
}
