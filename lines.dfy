/**
 * The file is handled as raw text whose lines are separated by '\n'.
 * `Split` is JavaScript's `s.split('\n')` and `Join` is `lines.join('\n')`,
 * the two conversions the log uses to read and rewrite its file.
 */
module TextLines {

  /** `s.split('\n')`: the pieces between newlines, always at least one (`"".split('\n')` is `[""]`). */
  function Split(s: string): (pieces: seq<string>)
    ensures |pieces| >= 1
    ensures forall i :: 0 <= i < |pieces| ==> '\n' !in pieces[i]
    decreases |s|
  {
    if s == [] then [[]]
    else
      var rest := Split(s[1..]);
      if s[0] == '\n' then [[]] + rest
      else [[s[0]] + rest[0]] + rest[1..]
  }

  /** `pieces.join('\n')`. */
  function Join(pieces: seq<string>): string
  {
    if |pieces| == 0 then []
    else if |pieces| == 1 then pieces[0]
    else pieces[0] + "\n" + Join(pieces[1..])
  }

  /** The total length of the pieces. */
  function TotalLength(pieces: seq<string>): nat
  {
    if pieces == [] then 0 else |pieces[0]| + TotalLength(pieces[1..])
  }

  /** `join('\n')` puts exactly one newline between consecutive pieces and nothing else. */
  lemma {:induction false} JoinLength(pieces: seq<string>)
    requires |pieces| >= 1
    ensures |Join(pieces)| == TotalLength(pieces) + |pieces| - 1
    decreases |pieces|
  {
    if |pieces| >= 2 {
      JoinLength(pieces[1..]);
    }
  }

  /** No piece holds a newline, so the pieces are lines. */
  predicate NoNewlines(pieces: seq<string>)
  {
    forall i :: 0 <= i < |pieces| ==> '\n' !in pieces[i]
  }

  /**
   * `t` is what is left of `c` after dropping whole leading lines: a suffix of `c`
   * that is all of `c`, empty, or starts right after a newline.
   */
  predicate LineAlignedSuffix(t: string, c: string)
  {
    |t| <= |c| && c[|c| - |t|..] == t &&
    (t == c || t == [] || c[|c| - |t| - 1] == '\n')
  }

  lemma AppendAssoc<T>(a: seq<T>, b: seq<T>, c: seq<T>)
    ensures a + b + c == a + (b + c)
  {
  }

  /** Dropping a prefix that lies inside the first part of a concatenation. */
  lemma SliceOfAppend<T>(a: seq<T>, b: seq<T>, j: nat)
    requires j <= |a|
    ensures (a + b)[j..] == a[j..] + b
  {
  }

  lemma JoinCons(x: string, xs: seq<string>)
    requires |xs| >= 1
    ensures Join([x] + xs) == x + "\n" + Join(xs)
  {
    assert ([x] + xs)[1..] == xs;
  }

  /** Joining the pieces of a split gives back the string. */
  lemma {:induction false} JoinSplit(s: string)
    ensures Join(Split(s)) == s
    decreases |s|
  {
    if s != [] {
      var rest := Split(s[1..]);
      JoinSplit(s[1..]);
      if s[0] == '\n' {
        JoinCons([], rest);
        assert s == "\n" + s[1..];
      } else {
        var head := [s[0]] + rest[0];
        if |rest| == 1 {
          assert Split(s) == [head];
          assert s == [s[0]] + s[1..];
        } else {
          JoinCons(head, rest[1..]);
          JoinCons(rest[0], rest[1..]);
          assert rest == [rest[0]] + rest[1..];
          assert s == [s[0]] + s[1..];
        }
      }
    }
  }

  /** Splitting a string that begins with a newline-free `x`: `x` becomes the front of the first piece. */
  lemma {:induction false} SplitPrefix(x: string, t: string)
    requires '\n' !in x
    ensures Split(x + t) == [x + Split(t)[0]] + Split(t)[1..]
    decreases |x|
  {
    if x != [] {
      assert (x + t)[0] == x[0];
      assert (x + t)[1..] == x[1..] + t;
      SplitPrefix(x[1..], t);
      var rest := Split(x[1..] + t);
      assert rest[0] == x[1..] + Split(t)[0] && rest[1..] == Split(t)[1..];
      assert Split(x + t) == [[x[0]] + rest[0]] + rest[1..];
      assert [x[0]] + (x[1..] + Split(t)[0]) == x + Split(t)[0];
    } else {
      assert x + t == t && x + Split(t)[0] == Split(t)[0];
      assert Split(t) == [Split(t)[0]] + Split(t)[1..];
    }
  }

  /** Splitting lines joined with newlines gives back the lines. */
  lemma {:induction false} SplitJoin(pieces: seq<string>)
    requires |pieces| >= 1
    requires NoNewlines(pieces)
    ensures Split(Join(pieces)) == pieces
    decreases |pieces|
  {
    var x := pieces[0];
    assert '\n' !in x;
    if |pieces| == 1 {
      SplitPrefix(x, []);
      assert x + [] == x;
    } else {
      var j := Join(pieces[1..]);
      SplitJoin(pieces[1..]);
      assert Join(pieces) == x + ("\n" + j);
      SplitPrefix(x, "\n" + j);
      assert ("\n" + j)[0] == '\n' && ("\n" + j)[1..] == j;
      var sj := Split("\n" + j);
      assert sj == [[]] + pieces[1..];
      assert sj[0] == [] && sj[1..] == pieces[1..];
      assert x + sj[0] == x;
      assert pieces == [x] + pieces[1..];
    }
  }

  /** The joined text is the first `k` lines, a newline, then the remaining lines. */
  lemma {:induction false} JoinSlices(pieces: seq<string>, k: nat)
    requires 0 < k < |pieces|
    ensures Join(pieces) == Join(pieces[..k]) + "\n" + Join(pieces[k..])
    decreases k
  {
    if k == 1 {
      assert pieces[..1] == [pieces[0]];
    } else {
      var tail := pieces[1..];
      JoinSlices(tail, k - 1);
      assert tail[..k - 1] == pieces[1..k];
      assert tail[k - 1..] == pieces[k..];
      assert pieces[..k] == [pieces[0]] + pieces[1..k];
      JoinCons(pieces[0], pieces[1..k]);
    }
  }

  /** Dropping whole leading lines leaves a line-aligned suffix of the text. */
  lemma {:induction false} DropLinesIsAlignedSuffix(pieces: seq<string>, j: nat)
    requires 1 <= |pieces| && j <= |pieces|
    ensures LineAlignedSuffix(Join(pieces[j..]), Join(pieces))
  {
    var c, t := Join(pieces), Join(pieces[j..]);
    if j == 0 {
      assert pieces[0..] == pieces;
    } else if j == |pieces| {
      assert t == [];
    } else {
      JoinSlices(pieces, j);
      var p := Join(pieces[..j]) + "\n";
      assert c == p + t;
      assert c[|c| - |t|..] == t;
      assert c[|c| - |t| - 1] == p[|p| - 1];
    }
  }

  /** A line-aligned suffix of a line-aligned suffix is one of the original. */
  lemma AlignedSuffixTransitive(a: string, b: string, c: string)
    requires LineAlignedSuffix(a, b) && LineAlignedSuffix(b, c)
    ensures LineAlignedSuffix(a, c)
  {
    assert c[|c| - |a|..] == b[|b| - |a|..];
    if a != b && a != [] {
      assert c[|c| - |a| - 1] == b[|b| - |a| - 1];
    }
  }
}
