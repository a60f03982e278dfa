/**
 * The record codec: one record per text line. The log writes each record with
 * `JSON.stringify` and reads lines back with a newline-delimited JSON parser.
 * This module gives a concrete codec in that format for flat records (named
 * fields holding null, booleans, integers and strings), with the two laws the
 * log relies on: an encoded line holds no newline, and it parses back to the
 * record it came from.
 */
module Codec {
  import opened Wrappers
  import opened TextLines

  datatype Value = Null | Bool(b: bool) | Num(n: int) | Str(s: string)

  datatype Field = Field(key: string, value: Value)

  /** A record is an object: its fields in insertion order, as `JSON.stringify` emits them. */
  type Record = seq<Field>

  /** Name of the timestamp field the log stamps on every appended record. */
  const TimestampKey := "ts"

  /** The value of `key` in `r` (property lookup). */
  function Get(r: Record, key: string): Option<Value>
  {
    if r == [] then None
    else if r[0].key == key then Some(r[0].value)
    else Get(r[1..], key)
  }

  predicate DistinctKeys(r: Record)
  {
    forall i, j :: 0 <= i < j < |r| ==> r[i].key != r[j].key
  }

  /**
   * `obj.ts = now`: an existing `ts` keeps its place and takes the new value,
   * otherwise `ts` is added as the last field.
   */
  function Stamp(r: Record, now: int): Record
  {
    if r == [] then [Field(TimestampKey, Num(now))]
    else if r[0].key == TimestampKey then [Field(TimestampKey, Num(now))] + r[1..]
    else [r[0]] + Stamp(r[1..], now)
  }

  /** After stamping, `ts` reads as `now` and every other field reads as before. */
  lemma {:induction false} StampGet(r: Record, now: int)
    ensures Get(Stamp(r, now), TimestampKey) == Some(Num(now))
    ensures forall k :: k != TimestampKey ==> Get(Stamp(r, now), k) == Get(r, k)
    decreases |r|
  {
    var s := Stamp(r, now);
    if r == [] {
      assert s[1..] == [];
    } else if r[0].key == TimestampKey {
      assert s[1..] == r[1..];
    } else {
      StampGet(r[1..], now);
      assert s[1..] == Stamp(r[1..], now);
    }
  }

  /** Stamping keeps every existing field in its place and adds `ts` at the end only when absent. */
  lemma {:induction false} StampShape(r: Record, now: int)
    ensures |Stamp(r, now)| == if Get(r, TimestampKey).Some? then |r| else |r| + 1
    ensures forall i :: 0 <= i < |r| ==> Stamp(r, now)[i].key == r[i].key
    ensures Get(r, TimestampKey).None? ==> Stamp(r, now)[|r|] == Field(TimestampKey, Num(now))
    decreases |r|
  {
    if r != [] && r[0].key != TimestampKey {
      StampShape(r[1..], now);
    }
  }

  /** Stamping an object with distinct keys gives an object with distinct keys. */
  lemma {:induction false} StampKeepsKeysDistinct(r: Record, now: int)
    requires DistinctKeys(r)
    ensures DistinctKeys(Stamp(r, now))
    decreases |r|
  {
    var s := Stamp(r, now);
    if r != [] && r[0].key != TimestampKey {
      var t := Stamp(r[1..], now);
      StampKeepsKeysDistinct(r[1..], now);
      StampShape(r[1..], now);
      assert s == [r[0]] + t;
      forall j | 0 < j < |s| ensures s[0].key != s[j].key {
        assert s[j] == t[j - 1];
        if j - 1 < |r| - 1 {
          assert t[j - 1].key == r[1..][j - 1].key == r[j].key;
        } else {
          assert t[j - 1].key == TimestampKey;
        }
      }
    } else if r != [] {
      assert s == [Field(TimestampKey, Num(now))] + r[1..];
    }
  }

  // ---------------------------------------------------------------- strings

  const Backspace: char := 8 as char
  const FormFeed: char := 12 as char

  /** The lower-case hexadecimal digit for `d`. */
  function HexDigit(d: nat): (c: char)
    requires d < 16
  {
    if d < 10 then ('0' as int + d) as char else ('a' as int + d - 10) as char
  }

  /** The value of a hexadecimal digit of either case. */
  function HexValue(c: char): (d: Option<nat>)
    ensures d.Some? ==> d.value < 16
  {
    if '0' <= c <= '9' then Some(c as int - '0' as int)
    else if 'a' <= c <= 'f' then Some(c as int - 'a' as int + 10)
    else if 'A' <= c <= 'F' then Some(c as int - 'A' as int + 10)
    else None
  }

  /** The character four hexadecimal digits `\uXXXX` stand for; a lone surrogate is no character. */
  function HexCode(h: string): Option<char>
    requires |h| == 4
  {
    match (HexValue(h[0]), HexValue(h[1]), HexValue(h[2]), HexValue(h[3]))
    case (Some(a), Some(b), Some(c), Some(d)) =>
      var n := ((a * 16 + b) * 16 + c) * 16 + d;
      if n < 0xD800 || 0xE000 <= n then Some(n as char) else None
    case _ => None
  }

  /**
   * How `JSON.stringify` writes one character of a string: quote and
   * backslash escaped, the control characters with a short escape where JSON
   * has one and `\u00XX` otherwise, everything else as it is.
   */
  function EscapeChar(c: char): string
  {
    if c == '"' then "\\\""
    else if c == '\\' then "\\\\"
    else if c == '\n' then "\\n"
    else if c == '\r' then "\\r"
    else if c == '\t' then "\\t"
    else if c == Backspace then "\\b"
    else if c == FormFeed then "\\f"
    else if c < ' ' then "\\u00" + [HexDigit(c as int / 16), HexDigit(c as int % 16)]
    else [c]
  }

  /** The character a short escape sequence `\c` stands for. */
  function Unescaped(c: char): Option<char>
  {
    if c == 'n' then Some('\n')
    else if c == 'r' then Some('\r')
    else if c == 't' then Some('\t')
    else if c == 'b' then Some(Backspace)
    else if c == 'f' then Some(FormFeed)
    else if c == '"' || c == '\\' || c == '/' then Some(c)
    else None
  }

  function Escape(s: string): string
  {
    if s == [] then [] else EscapeChar(s[0]) + Escape(s[1..])
  }

  /** Escaping removes every newline from a string. */
  lemma {:induction false} EscapeOneLine(s: string)
    ensures '\n' !in Escape(s)
    decreases |s|
  {
    if s != [] {
      EscapeOneLine(s[1..]);
    }
  }

  function Quote(s: string): (q: string)
    ensures |q| >= 2 && q[0] == '"'
  {
    "\"" + Escape(s) + "\""
  }

  /**
   * Reads string characters up to the closing quote; gives the string and
   * what follows the quote. As in `JSON.parse`, an unknown escape and a raw
   * control character fail the read.
   */
  function Unquote(s: string): (r: Option<(string, string)>)
    ensures r.Some? ==> |r.value.1| < |s|
    decreases |s|
  {
    if s == [] then None
    else if s[0] == '"' then Some(([], s[1..]))
    else if s[0] == '\\' then
      if |s| < 2 then None
      else if s[1] == 'u' then
        if |s| < 6 then None
        else match HexCode(s[2..6])
          case None => None
          case Some(c) =>
            match Unquote(s[6..])
            case None => None
            case Some((t, rest)) => Some(([c] + t, rest))
      else match Unescaped(s[1])
        case None => None
        case Some(c) =>
          match Unquote(s[2..])
          case None => None
          case Some((t, rest)) => Some(([c] + t, rest))
    else if s[0] < ' ' then None
    else
      match Unquote(s[1..])
      case None => None
      case Some((t, rest)) => Some(([s[0]] + t, rest))
  }

  lemma UnquotePlain(c: char, u: string, t: string, rest: string)
    requires ' ' <= c && c != '"' && c != '\\'
    requires Unquote(u) == Some((t, rest))
    ensures Unquote([c] + u) == Some(([c] + t, rest))
  {
    var s := [c] + u;
    assert s[0] == c && s[1..] == u;
  }

  lemma UnquoteShort(e: char, c: char, u: string, t: string, rest: string)
    requires e != 'u' && Unescaped(e) == Some(c)
    requires Unquote(u) == Some((t, rest))
    ensures Unquote(['\\', e] + u) == Some(([c] + t, rest))
  {
    var s := ['\\', e] + u;
    assert s[0] == '\\' && s[1] == e && s[2..] == u;
  }

  lemma UnquoteHex(c: char, u: string, t: string, rest: string)
    requires c < ' '
    requires Unquote(u) == Some((t, rest))
    ensures Unquote("\\u00" + [HexDigit(c as int / 16), HexDigit(c as int % 16)] + u) == Some(([c] + t, rest))
  {
    var h := "00" + [HexDigit(c as int / 16), HexDigit(c as int % 16)];
    var s := "\\u00" + [HexDigit(c as int / 16), HexDigit(c as int % 16)] + u;
    assert s[0] == '\\' && s[1] == 'u' && s[2..6] == h && s[6..] == u;
    assert HexValue(h[2]) == Some(c as int / 16) && HexValue(h[3]) == Some(c as int % 16);
    assert HexCode(h) == Some(c);
  }

  /** Reading one escaped character, then the rest of the string. */
  lemma UnquoteStep(c: char, u: string, t: string, rest: string)
    requires Unquote(u) == Some((t, rest))
    ensures Unquote(EscapeChar(c) + u) == Some(([c] + t, rest))
  {
    if c == '"' {
      UnquoteShort('"', c, u, t, rest);
    } else if c == '\\' {
      UnquoteShort('\\', c, u, t, rest);
    } else if c == '\n' {
      UnquoteShort('n', c, u, t, rest);
    } else if c == '\r' {
      UnquoteShort('r', c, u, t, rest);
    } else if c == '\t' {
      UnquoteShort('t', c, u, t, rest);
    } else if c == Backspace {
      UnquoteShort('b', c, u, t, rest);
    } else if c == FormFeed {
      UnquoteShort('f', c, u, t, rest);
    } else if c < ' ' {
      UnquoteHex(c, u, t, rest);
    } else {
      UnquotePlain(c, u, t, rest);
    }
  }

  lemma {:induction false} UnquoteEscape(s: string, rest: string)
    ensures Unquote(Escape(s) + "\"" + rest) == Some((s, rest))
    decreases |s|
  {
    var input := Escape(s) + "\"" + rest;
    if s == [] {
      assert input == "\"" + rest;
      assert input[1..] == rest;
    } else {
      var e0 := EscapeChar(s[0]);
      var e1 := Escape(s[1..]);
      var u := e1 + "\"" + rest;
      UnquoteEscape(s[1..], rest);
      UnquoteStep(s[0], u, s[1..], rest);
      assert Escape(s) == e0 + e1;
      AppendAssoc(e0, e1, "\"");
      AppendAssoc(e0, e1 + "\"", rest);
      assert [s[0]] + s[1..] == s;
    }
  }

  // ---------------------------------------------------------------- integers

  predicate IsDigit(c: char)
  {
    '0' <= c <= '9'
  }

  predicate AllDigits(s: string)
  {
    forall i :: 0 <= i < |s| ==> IsDigit(s[i])
  }

  function DigitChar(d: nat): (c: char)
    requires d < 10
    ensures IsDigit(c)
  {
    ('0' as int + d) as char
  }

  function DigitOf(c: char): (d: nat)
    requires IsDigit(c)
    ensures d < 10
  {
    c as int - '0' as int
  }

  /** Decimal digits of `n`, most significant first, no leading zero. */
  function NatToString(n: nat): (s: string)
    ensures |s| >= 1 && AllDigits(s)
    decreases n
  {
    if n < 10 then [DigitChar(n)] else NatToString(n / 10) + [DigitChar(n % 10)]
  }

  /** The number a run of decimal digits denotes. */
  function DigitsValue(ds: string): nat
    requires AllDigits(ds)
    decreases |ds|
  {
    if ds == [] then 0 else DigitsValue(ds[..|ds| - 1]) * 10 + DigitOf(ds[|ds| - 1])
  }

  /** Length of the run of digits at the front of `s`. */
  function DigitRun(s: string): (k: nat)
    ensures k <= |s| && AllDigits(s[..k])
    ensures k < |s| ==> !IsDigit(s[k])
    decreases |s|
  {
    if s != [] && IsDigit(s[0]) then
      var k := 1 + DigitRun(s[1..]);
      assert s[..k] == [s[0]] + s[1..][..k - 1];
      k
    else 0
  }

  function IntToString(n: int): (s: string)
    ensures |s| >= 1 && (s[0] == '-' || IsDigit(s[0])) && '\n' !in s
  {
    if n < 0 then "-" + NatToString(-n) else NatToString(n)
  }

  /** Reads a run of decimal digits; as in JSON, a number of several digits does not start with 0. */
  function ParseDigits(s: string): (r: Option<(nat, string)>)
    ensures r.Some? ==> |r.value.1| < |s|
  {
    var k := DigitRun(s);
    if k == 0 || (k > 1 && s[0] == '0') then None else Some((DigitsValue(s[..k]), s[k..]))
  }

  /** Reads an optional minus sign and a run of digits. */
  function ParseInt(s: string): (r: Option<(int, string)>)
    ensures r.Some? ==> |r.value.1| < |s|
  {
    if s != [] && s[0] == '-' then
      match ParseDigits(s[1..])
      case None => None
      case Some((d, rest)) => Some((0 - d, rest))
    else
      match ParseDigits(s)
      case None => None
      case Some((d, rest)) => Some((d as int, rest))
  }

  lemma {:induction false} DigitsValueOfNat(n: nat)
    ensures DigitsValue(NatToString(n)) == n
    decreases n
  {
    var s := NatToString(n);
    if n >= 10 {
      DigitsValueOfNat(n / 10);
      assert s[..|s| - 1] == NatToString(n / 10);
    }
  }

  lemma {:induction false} DigitRunOf(ds: string, rest: string)
    requires AllDigits(ds)
    requires rest == [] || !IsDigit(rest[0])
    ensures DigitRun(ds + rest) == |ds|
    decreases |ds|
  {
    if ds == [] {
      assert ds + rest == rest;
    } else {
      assert (ds + rest)[0] == ds[0];
      assert (ds + rest)[1..] == ds[1..] + rest;
      DigitRunOf(ds[1..], rest);
    }
  }

  /** `NatToString` writes no leading zero. */
  lemma {:induction false} NatToStringLeading(n: nat)
    ensures |NatToString(n)| > 1 ==> NatToString(n)[0] != '0'
    decreases n
  {
    if n >= 10 {
      NatToStringLeading(n / 10);
      assert NatToString(n)[0] == NatToString(n / 10)[0];
    }
  }

  lemma ParseDigitsOfNat(n: nat, rest: string)
    requires rest == [] || !IsDigit(rest[0])
    ensures ParseDigits(NatToString(n) + rest) == Some((n, rest))
  {
    var ds := NatToString(n);
    var s := ds + rest;
    NatToStringLeading(n);
    assert s[0] == ds[0];
    DigitRunOf(ds, rest);
    assert s[..|ds|] == ds && s[|ds|..] == rest;
    DigitsValueOfNat(n);
  }

  lemma ParseNegative(m: nat, rest: string)
    requires rest == [] || !IsDigit(rest[0])
    ensures ParseInt("-" + NatToString(m) + rest) == Some((0 - m, rest))
  {
    var s := "-" + NatToString(m) + rest;
    assert s[0] == '-' && s[1..] == NatToString(m) + rest;
    ParseDigitsOfNat(m, rest);
  }

  lemma ParseNonNegative(n: nat, rest: string)
    requires rest == [] || !IsDigit(rest[0])
    ensures ParseInt(NatToString(n) + rest) == Some((n, rest))
  {
    var s := NatToString(n) + rest;
    assert s[0] == NatToString(n)[0];
    ParseDigitsOfNat(n, rest);
  }

  lemma ParseIntToString(n: int, rest: string)
    requires rest == [] || !IsDigit(rest[0])
    ensures ParseInt(IntToString(n) + rest) == Some((n, rest))
  {
    if n < 0 {
      ParseNegative(-n, rest);
    } else {
      ParseNonNegative(n, rest);
    }
  }

  // ---------------------------------------------------------------- values and records

  function Encode(v: Value): (e: string)
    ensures |e| >= 1
  {
    match v
    case Null => "null"
    case Bool(b) => if b then "true" else "false"
    case Num(n) => IntToString(n)
    case Str(s) => Quote(s)
  }

  /** Reads the literal `word`, which stands for `v`, at the front of `s`. */
  function ParseLiteral(s: string, word: string, v: Value): (r: Option<(Value, string)>)
    requires word != []
    ensures r.Some? ==> |r.value.1| < |s|
  {
    if |word| <= |s| && s[..|word|] == word then Some((v, s[|word|..])) else None
  }

  function ParseValue(s: string): (r: Option<(Value, string)>)
    ensures r.Some? ==> |r.value.1| < |s|
  {
    if s == [] then None
    else if s[0] == 'n' then ParseLiteral(s, "null", Null)
    else if s[0] == 't' then ParseLiteral(s, "true", Bool(true))
    else if s[0] == 'f' then ParseLiteral(s, "false", Bool(false))
    else if s[0] == '"' then
      match Unquote(s[1..])
      case None => None
      case Some((t, rest)) => Some((Str(t), rest))
    else
      match ParseInt(s)
      case None => None
      case Some((n, rest)) => Some((Num(n), rest))
  }

  lemma ParseLiteralOf(word: string, v: Value, rest: string)
    requires word != []
    ensures ParseLiteral(word + rest, word, v) == Some((v, rest))
  {
    assert (word + rest)[..|word|] == word && (word + rest)[|word|..] == rest;
  }

  lemma ParseEncodeLiteral(word: string, v: Value, rest: string)
    requires word in ["null", "true", "false"]
    requires v == (if word == "null" then Null else Bool(word == "true"))
    ensures ParseValue(word + rest) == Some((v, rest))
  {
    assert (word + rest)[0] == word[0];
    ParseLiteralOf(word, v, rest);
  }

  lemma ParseEncodeNum(n: int, rest: string)
    requires rest == [] || !IsDigit(rest[0])
    ensures ParseValue(IntToString(n) + rest) == Some((Num(n), rest))
  {
    var s := IntToString(n) + rest;
    assert s[0] == IntToString(n)[0];
    ParseIntToString(n, rest);
  }

  lemma ParseEncodeStr(t: string, rest: string)
    ensures ParseValue(Quote(t) + rest) == Some((Str(t), rest))
  {
    var s := Quote(t) + rest;
    assert s[0] == '"' && s[1..] == Escape(t) + "\"" + rest;
    UnquoteEscape(t, rest);
  }

  lemma ParseEncode(v: Value, rest: string)
    requires rest == [] || !IsDigit(rest[0])
    ensures ParseValue(Encode(v) + rest) == Some((v, rest))
  {
    match v
    case Null => ParseEncodeLiteral("null", Null, rest);
    case Bool(b) =>
      if b {
        ParseEncodeLiteral("true", Bool(true), rest);
      } else {
        ParseEncodeLiteral("false", Bool(false), rest);
      }
    case Num(n) => ParseEncodeNum(n, rest);
    case Str(t) => ParseEncodeStr(t, rest);
  }

  function EncodeField(f: Field): (e: string)
    ensures |e| >= 2 && e[0] == '"'
  {
    Quote(f.key) + ":" + Encode(f.value)
  }

  /** Fields separated by commas. */
  function EncodeFields(fs: seq<Field>): (e: string)
    ensures fs != [] ==> |e| >= 2 && e[0] == '"'
  {
    if |fs| == 0 then []
    else if |fs| == 1 then EncodeField(fs[0])
    else EncodeField(fs[0]) + "," + EncodeFields(fs[1..])
  }

  /** An encoded field holds no newline: keys and string values are escaped. */
  lemma EncodeFieldOneLine(f: Field)
    ensures '\n' !in EncodeField(f)
  {
    EscapeOneLine(f.key);
    if f.value.Str? {
      EscapeOneLine(f.value.s);
    }
  }

  lemma {:induction false} EncodeFieldsOneLine(fs: seq<Field>)
    ensures '\n' !in EncodeFields(fs)
    decreases |fs|
  {
    if fs != [] {
      EncodeFieldOneLine(fs[0]);
      EncodeFieldsOneLine(fs[1..]);
    }
  }

  /** `JSON.stringify(r)`: the line a record is written as. */
  function Serialize(r: Record): (line: string)
    ensures '\n' !in line
    ensures |line| >= 2 && line[0] == '{'
  {
    EncodeFieldsOneLine(r);
    "{" + EncodeFields(r) + "}"
  }

  /** Reads `':' value` after a field's key. */
  function ParseFieldValue(key: string, s: string): (r: Option<(Field, string)>)
    ensures r.Some? ==> |r.value.1| < |s|
  {
    if s == [] || s[0] != ':' then None
    else
      match ParseValue(s[1..])
      case None => None
      case Some((v, rest)) => Some((Field(key, v), rest))
  }

  function ParseField(s: string): (r: Option<(Field, string)>)
    ensures r.Some? ==> |r.value.1| < |s|
  {
    if s == [] || s[0] != '"' then None
    else
      match Unquote(s[1..])
      case None => None
      case Some((key, rest)) => ParseFieldValue(key, rest)
  }

  /** Reads `field (',' field)* '}'`; gives the fields and what follows the brace. */
  function ParseFields(s: string): (r: Option<(seq<Field>, string)>)
    ensures r.Some? ==> |r.value.1| < |s|
    decreases |s|
  {
    match ParseField(s)
    case None => None
    case Some((f, rest)) =>
      if rest != [] && rest[0] == '}' then Some(([f], rest[1..]))
      else if rest != [] && rest[0] == ',' then
        match ParseFields(rest[1..])
        case None => None
        case Some((fs, rest')) => Some(([f] + fs, rest'))
      else None
  }

  /** Parses one line as a record; `None` when the line is not one whole record. */
  function Parse(line: string): Option<Record>
  {
    if |line| >= 2 && line[0] == '{' && line[1] == '}' then
      if |line| == 2 then Some([]) else None
    else if line != [] && line[0] == '{' then
      match ParseFields(line[1..])
      case None => None
      case Some((fs, rest)) => if rest == [] then Some(fs) else None
    else None
  }

  lemma ParseQuotedKey(key: string, tail: string)
    ensures ParseField(Quote(key) + tail) == ParseFieldValue(key, tail)
  {
    var s := Quote(key) + tail;
    assert s[0] == '"' && s[1..] == Escape(key) + "\"" + tail;
    UnquoteEscape(key, tail);
  }

  lemma ParseColonValue(key: string, v: Value, rest: string)
    requires rest == [] || !IsDigit(rest[0])
    ensures ParseFieldValue(key, ":" + Encode(v) + rest) == Some((Field(key, v), rest))
  {
    var tail := ":" + Encode(v) + rest;
    assert tail[0] == ':' && tail[1..] == Encode(v) + rest;
    ParseEncode(v, rest);
  }

  lemma ParseEncodeField(f: Field, rest: string)
    requires rest != [] && (rest[0] == ',' || rest[0] == '}')
    ensures ParseField(EncodeField(f) + rest) == Some((f, rest))
  {
    var tail := ":" + Encode(f.value) + rest;
    assert EncodeField(f) + rest == Quote(f.key) + tail;
    ParseQuotedKey(f.key, tail);
    ParseColonValue(f.key, f.value, rest);
  }

  /** The last field of a list, closed by `}`. */
  lemma ParseLastField(f: Field, rest: string)
    ensures ParseFields(EncodeField(f) + "}" + rest) == Some(([f], rest))
  {
    var tail := "}" + rest;
    assert EncodeField(f) + "}" + rest == EncodeField(f) + tail;
    ParseEncodeField(f, tail);
    assert tail[1..] == rest;
  }

  /** A field followed by a comma and more fields. */
  lemma ParseNextField(f: Field, more: string, fs: seq<Field>, rest: string)
    requires ParseFields(more) == Some((fs, rest))
    ensures ParseFields(EncodeField(f) + "," + more) == Some(([f] + fs, rest))
  {
    var tail := "," + more;
    assert EncodeField(f) + "," + more == EncodeField(f) + tail;
    ParseEncodeField(f, tail);
    assert tail[1..] == more;
  }

  /** A list of one field. */
  lemma ParseSingleFieldList(fs: seq<Field>, rest: string)
    requires |fs| == 1
    ensures ParseFields(EncodeFields(fs) + "}" + rest) == Some((fs, rest))
  {
    assert EncodeFields(fs) == EncodeField(fs[0]);
    ParseLastField(fs[0], rest);
    assert [fs[0]] == fs;
  }

  /** A list of two or more fields, given that its tail reads back. */
  lemma ParseLongerFieldList(fs: seq<Field>, rest: string)
    requires |fs| >= 2
    requires ParseFields(EncodeFields(fs[1..]) + "}" + rest) == Some((fs[1..], rest))
    ensures ParseFields(EncodeFields(fs) + "}" + rest) == Some((fs, rest))
  {
    var head := EncodeField(fs[0]) + ",";
    var fields := EncodeFields(fs[1..]);
    var more := fields + "}" + rest;
    assert EncodeFields(fs) == head + fields;
    AppendAssoc(head, fields, "}");
    AppendAssoc(head, fields + "}", rest);
    ParseNextField(fs[0], more, fs[1..], rest);
    assert [fs[0]] + fs[1..] == fs;
  }

  lemma {:induction false} ParseEncodeFields(fs: seq<Field>, rest: string)
    requires fs != []
    ensures ParseFields(EncodeFields(fs) + "}" + rest) == Some((fs, rest))
    decreases |fs|
  {
    if |fs| == 1 {
      ParseSingleFieldList(fs, rest);
    } else {
      ParseEncodeFields(fs[1..], rest);
      ParseLongerFieldList(fs, rest);
    }
  }

  /** The codec law the log depends on: a serialised record parses back to itself. */
  lemma ParseSerialize(r: Record)
    ensures Parse(Serialize(r)) == Some(r)
  {
    var line := Serialize(r);
    if r == [] {
      assert line == "{}";
    } else {
      var fields := EncodeFields(r);
      AppendAssoc("{", fields, "}");
      assert line[1..] == fields + "}" + [];
      assert line[1] == '"';
      ParseEncodeFields(r, []);
    }
  }

  /** `JSON.parse` rejects a number with a leading zero, and so does `Parse`. */
  lemma ParseRejectsLeadingZero()
    ensures Parse("{\"a\":01}") == None
  {
    assert DigitRun("}") == 0;
    assert DigitRun("1}") == 1;
    assert DigitRun("01}") == 2;
    assert ParseValue("01}") == None;
    assert ":01}"[1..] == "01}";
    assert ParseFieldValue("a", ":01}") == None;
    assert Escape("a") == "a";
    ParseQuotedKey("a", ":01}");
    assert Quote("a") + ":01}" == "\"a\":01}";
  }

  /** `JSON.parse` rejects a raw control character inside a string, and so does `Parse`. */
  lemma ParseRejectsControlChar()
    ensures Parse("{\"a\":\"\t\"}") == None
  {
    assert Unquote("\t\"}") == None;
    assert ParseValue("\"\t\"}") == None;
    assert ParseFieldValue("a", ":\"\t\"}") == None;
    assert Escape("a") == "a";
    ParseQuotedKey("a", ":\"\t\"}");
    assert Quote("a") + ":\"\t\"}" == "\"a\":\"\t\"}";
  }
}
