/**
 * Size-limit rotation: while the file is over the limit, drop the oldest
 * quarter of its lines (at least one) and rewrite it.
 */
module Rotation {
  import opened Wrappers
  import opened TextLines

  /**
   * `size > sizeLimit` in JavaScript. An absent limit is `undefined`, and any
   * comparison with `undefined` is false.
   */
  predicate Exceeds(size: int, limit: Option<nat>)
  {
    limit.Some? && size > limit.value
  }

  /** `size <= sizeLimit`, equally false when the limit is `undefined`. */
  predicate Within(size: int, limit: Option<nat>)
  {
    limit.Some? && size <= limit.value
  }

  /**
   * `Math.max(n / 4, 1) | 0`: a quarter of the lines, rounded down, but at least
   * one. For a non-negative count the float quotient truncated by `| 0` is the
   * integer quotient.
   */
  function DropCount(n: nat): (k: nat)
    ensures 1 <= k
    ensures n >= 1 ==> k <= n
    ensures n >= 4 ==> 4 * k <= n < 4 * k + 4
    ensures n < 8 ==> k == 1
  {
    var quarter := n / 4;
    if quarter > 1 then quarter else 1
  }

  /** One pass of the loop body: split, drop the oldest lines, join. */
  function Step(c: string): string
  {
    var lines := Split(c);
    Join(lines[DropCount(|lines|)..])
  }

  /** A pass keeps a line-aligned suffix of the text, and a shorter one unless the text was already empty. */
  lemma StepShrinks(c: string)
    ensures LineAlignedSuffix(Step(c), c)
    ensures c != [] ==> |Step(c)| < |c|
  {
    var lines := Split(c);
    var k := DropCount(|lines|);
    JoinSplit(c);
    DropLinesIsAlignedSuffix(lines, k);
    if k < |lines| {
      // the dropped prefix holds at least one whole line and its newline
      JoinSlices(lines, k);
    }
  }

  /** Line count: the pass removes lines, or it has emptied the text. */
  lemma StepDropsLines(c: string)
    ensures |Split(Step(c))| < |Split(c)| || Step(c) == []
  {
    var lines := Split(c);
    var k := DropCount(|lines|);
    if k < |lines| {
      SplitJoin(lines[k..]);
    }
  }

  /**
   * Where the rotation loop leaves the text: passes are applied while the text
   * exceeds the limit. It ends because each pass shortens non-empty text and
   * the empty text is within any limit.
   */
  function Rotate(c: string, limit: Option<nat>): (r: string)
    ensures !Exceeds(|r|, limit)
    ensures LineAlignedSuffix(r, c)
    decreases |c|
  {
    if !Exceeds(|c|, limit) then
      c
    else
      StepShrinks(c);
      var r := Rotate(Step(c), limit);
      AlignedSuffixTransitive(r, Step(c), c);
      r
  }

  /** The text after `n` passes of the loop body. */
  function Passes(c: string, n: nat): string
    decreases n
  {
    if n == 0 then c else Passes(Step(c), n - 1)
  }

  /**
   * The loop as written with a negative limit, which the constructor accepts:
   * `size > sizeLimit` holds after any number of passes, because a pass over
   * the empty file leaves it empty and its size 0 still exceeds the limit.
   */
  lemma {:induction false} NegativeLimitNeverEnds(c: string, limit: int, n: nat)
    requires limit < 0
    ensures |Passes(c, n)| > limit
    ensures c == [] ==> Passes(c, n) == []
    decreases n
  {
    if n > 0 {
      assert Split([]) == [[]];
      assert Step([]) == [];
      NegativeLimitNeverEnds(Step(c), limit, n - 1);
    }
  }

  /** The lines the rotation keeps: some trailing lines `Split(c)[j..]` of the old text. */
  ghost predicate KeepsLastLines(t: string, c: string)
  {
    exists j :: 0 <= j <= |Split(c)| && t == Join(Split(c)[j..])
  }

  /** Trailing lines of trailing lines are trailing lines. */
  lemma LastLinesTransitive(a: string, b: string, c: string)
    requires KeepsLastLines(a, b) && KeepsLastLines(b, c)
    ensures KeepsLastLines(a, c)
  {
    var L := Split(c);
    var j :| 0 <= j <= |L| && b == Join(L[j..]);
    var i :| 0 <= i <= |Split(b)| && a == Join(Split(b)[i..]);
    if j < |L| {
      SplitJoin(L[j..]);
      assert Split(b)[i..] == L[j + i..];
    } else {
      assert b == [];
      assert Split(b) == [[]];
      assert a == [] && a == Join(L[|L|..]);
    }
  }

  /** The rotation result is some trailing lines of the old text, in their order. */
  lemma {:induction false} RotateKeepsLastLines(c: string, limit: Option<nat>)
    ensures KeepsLastLines(Rotate(c, limit), c)
    decreases |c|
  {
    if !Exceeds(|c|, limit) {
      assert Split(c)[0..] == Split(c);
      JoinSplit(c);
    } else {
      StepShrinks(c);
      RotateKeepsLastLines(Step(c), limit);
      var lines := Split(c);
      assert KeepsLastLines(Step(c), c) by {
        assert Step(c) == Join(lines[DropCount(|lines|)..]);
      }
      LastLinesTransitive(Rotate(Step(c), limit), Step(c), c);
    }
  }
}
