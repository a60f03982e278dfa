/**
 * The "base api" test (tests/tests.js:6-34) replayed on the model: six
 * `{index, type}` objects appended to a new log at the default limit, then
 * a query for all records and a query for the bananas.
 */
module BaseApiTest {
  import opened Wrappers
  import opened Codec
  import opened LogFile
  import opened Log
  import opened SizeLimitTest

  /** `obj => obj.type === 'banana'`. */
  predicate IsBanana(r: Record)
  {
    Get(r, "type") == Some(Str("banana"))
  }

  /** A stamped `{index, type}` is a banana exactly when its type is. */
  lemma BananaOf(index: int, kind: string, now: int)
    ensures IsBanana(Stamp(Fruit(index, kind), now)) <==> kind == "banana"
  {
    StampFruit(index, kind, now);
    var s := Stamp(Fruit(index, kind), now);
    assert |s[0].key| == 5 && s[1..][0].key == "type";
    assert Get(s, "type") == Get(s[1..], "type") == Some(Str(kind));
  }

  /** The six records the test appends, stamped with the clock readings `now`. */
  function Appended(now: seq<int>): seq<Record>
    requires |now| == 6
  {
    [Stamp(Fruit(1, "apple"), now[0]), Stamp(Fruit(2, "apple"), now[1]),
     Stamp(Fruit(3, "banana"), now[2]), Stamp(Fruit(4, "banana"), now[3]),
     Stamp(Fruit(5, "apple"), now[4]), Stamp(Fruit(6, "banana"), now[5])]
  }

  /** One step of the filter: the first record is kept exactly when the predicate accepts it. */
  lemma SelectCons(x: Record, rest: seq<Record>, p: Option<Record -> bool>)
    ensures Select([x] + rest, p) == if Keep(p, x) then [x] + Select(rest, p) else Select(rest, p)
  {
    assert ([x] + rest)[1..] == rest;
  }

  /** Filtering six records of which the predicate accepts the third, fourth and sixth. */
  lemma SelectSix(r1: Record, r2: Record, r3: Record, r4: Record, r5: Record, r6: Record, p: Option<Record -> bool>)
    requires !Keep(p, r1) && !Keep(p, r2) && Keep(p, r3) && Keep(p, r4) && !Keep(p, r5) && Keep(p, r6)
    ensures Select([r1, r2, r3, r4, r5, r6], p) == [r3, r4, r6]
  {
    var t6 := [r6] + [];
    var t5 := [r5] + t6;
    var t4 := [r4] + t5;
    var t3 := [r3] + t4;
    var t2 := [r2] + t3;
    var t1 := [r1] + t2;
    assert Select(t6, p) == [r6] by { SelectCons(r6, [], p); }
    assert Select(t5, p) == [r6] by { SelectCons(r5, t6, p); }
    assert Select(t4, p) == [r4, r6] by { SelectCons(r4, t5, p); }
    assert Select(t3, p) == [r3, r4, r6] by { SelectCons(r3, t4, p); }
    assert Select(t2, p) == [r3, r4, r6] by { SelectCons(r2, t3, p); }
    assert Select(t1, p) == [r3, r4, r6] by { SelectCons(r1, t2, p); }
    SixCons(r1, r2, r3, r4, r5, r6);
  }

  /** Six elements put in front of the empty list, last first, give the list of the six. */
  lemma SixCons<T>(a: T, b: T, c: T, d: T, e: T, f: T)
    ensures [a] + ([b] + ([c] + ([d] + ([e] + ([f] + []))))) == [a, b, c, d, e, f]
  {
  }

  /** Six appends to an empty list give the list of the six. */
  lemma SixSnoc<T>(a: T, b: T, c: T, d: T, e: T, f: T)
    ensures [] + [a] + [b] + [c] + [d] + [e] + [f] == [a, b, c, d, e, f]
  {
  }

  /** The banana query keeps records 3, 4 and 6. */
  lemma SelectBananas(now: seq<int>)
    requires |now| == 6
    ensures Select(Appended(now), Some(IsBanana)) == [Appended(now)[2], Appended(now)[3], Appended(now)[5]]
  {
    BananaOf(1, "apple", now[0]);
    BananaOf(2, "apple", now[1]);
    BananaOf(3, "banana", now[2]);
    BananaOf(4, "banana", now[3]);
    BananaOf(5, "apple", now[4]);
    BananaOf(6, "banana", now[5]);
    var rs := Appended(now);
    SelectSix(rs[0], rs[1], rs[2], rs[3], rs[4], rs[5], Some(IsBanana));
  }

  /** `await log.append({index, type})` far below the limit: the record's line is appended, no rotation. */
  method AppendBelowLimit(log: QueryableLog, index: int, kind: string, now: int, ghost rs: seq<Record>)
    requires log.sizeLimit == Some(DefaultSizeLimit)
    requires 0 <= index < 10 && (kind == "apple" || kind == "banana")
    requires 0 <= now < 10_000_000_000_000
    requires log.content == Lines(rs) && log.estimatedSize == |log.content| <= 1000
    modifies log
    ensures log.content == Lines(rs + [Stamp(Fruit(index, kind), now)])
    ensures log.estimatedSize == |log.content| <= old(|log.content|) + 47
  {
    KindsLowercase();
    FruitLine(index, kind, now);
    TimestampDigits(now);
    log.Append(Fruit(index, kind), now);
    LinesSnoc(rs, Stamp(Fruit(index, kind), now));
  }

  /**
   * The test's six appends and its two queries, for any timestamps below
   * `10^13`: `query()` returns the six records in order and the banana query
   * returns records 3, 4 and 6.
   */
  method BaseApiRun(now: seq<int>) returns (all: Result<seq<Record>, QueryError>, bananas: Result<seq<Record>, QueryError>)
    requires |now| == 6
    requires forall i :: 0 <= i < 6 ==> 0 <= now[i] < 10_000_000_000_000
    ensures all == Ok(Appended(now))
    ensures bananas == Ok([Appended(now)[2], Appended(now)[3], Appended(now)[5]])
  {
    var log := new QueryableLog("", None);
    ghost var x1, x2, x3 := Stamp(Fruit(1, "apple"), now[0]), Stamp(Fruit(2, "apple"), now[1]), Stamp(Fruit(3, "banana"), now[2]);
    ghost var x4, x5, x6 := Stamp(Fruit(4, "banana"), now[3]), Stamp(Fruit(5, "apple"), now[4]), Stamp(Fruit(6, "banana"), now[5]);
    AppendBelowLimit(log, 1, "apple", now[0], []);
    AppendBelowLimit(log, 2, "apple", now[1], [] + [x1]);
    AppendBelowLimit(log, 3, "banana", now[2], [] + [x1] + [x2]);
    AppendBelowLimit(log, 4, "banana", now[3], [] + [x1] + [x2] + [x3]);
    AppendBelowLimit(log, 5, "apple", now[4], [] + [x1] + [x2] + [x3] + [x4]);
    AppendBelowLimit(log, 6, "banana", now[5], [] + [x1] + [x2] + [x3] + [x4] + [x5]);
    SixSnoc(x1, x2, x3, x4, x5, x6);
    ghost var rs := Appended(now);
    assert rs == [x1, x2, x3, x4, x5, x6];
    all := log.Query(None);
    bananas := log.Query(Some(IsBanana));
    QueryOfLog(log, rs, Some(IsBanana));
    SelectBananas(now);
  }
}
