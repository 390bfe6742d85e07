/** The per-chunk worker of the `all_goes` variant: `process_chunk` reads every
    newline-separated piece of the chunk as one number and folds the whole
    chunk into a single `(min, sum, max, total)` tuple, skipping empty pieces,
    pieces that start with a zero byte and pieces that do not parse;
    `spawned_thread` then folds that tuple into the shared totals. */
module AllGoesParser {
  import opened Common
  import opened Stats
  import opened Text
  import opened Records

  /** `(min, sum, max, total)`, in the order `process_chunk` returns them. */
  datatype Scalar = Scalar(min: int, sum: int, max: int, total: nat)

  /** The starting tuple: `min = f64::MAX`, `sum = 0`, `max = 0.0`, `total = 0`. */
  const Start: Scalar := Scalar(F64_MAX, 0, 0, 0)

  /** Folding one parsed number: `sum += n`, `min = n if n < min`,
      `max = n if n > max`, `total += 1`. */
  function Fold(acc: Scalar, n: Value): (r: Scalar)
    ensures r.sum == acc.sum + n && r.total == acc.total + 1
    ensures r.min <= n && r.min <= acc.min && (r.min == n || r.min == acc.min)
    ensures r.max >= n && r.max >= acc.max && (r.max == n || r.max == acc.max)
  {
    Scalar(if n < acc.min then n else acc.min,
           acc.sum + n,
           if n > acc.max then n else acc.max,
           acc.total + 1)
  }

  /** A piece the loop skips before parsing: empty, or starting with a zero byte. */
  predicate Blank(line: seq<byte>)
  {
    |line| == 0 || line[0] == NUL
  }

  /** The numbers of the pieces that are not blank and parse, in order. */
  function LineValues(lines: seq<seq<byte>>, parse: Parser): (vs: seq<Value>)
    ensures |vs| <= |lines|
  {
    if |lines| == 0 then []
    else
      var init, line := lines[..|lines| - 1], lines[|lines| - 1];
      if Blank(line) then LineValues(init, parse)
      else match parse(line)
        case None => LineValues(init, parse)
        case Some(n) => LineValues(init, parse) + [n]
  }

  /** Every collected number is the parse of a piece that is not blank. */
  lemma {:induction false} LineValuesFrom(lines: seq<seq<byte>>, parse: Parser)
    ensures forall n :: n in LineValues(lines, parse) ==>
      exists i :: 0 <= i < |lines| && !Blank(lines[i]) && parse(lines[i]) == Some(n)
  {
    if |lines| > 0 {
      var init := lines[..|lines| - 1];
      LineValuesFrom(init, parse);
      forall n | n in LineValues(lines, parse)
        ensures exists i :: 0 <= i < |lines| && !Blank(lines[i]) && parse(lines[i]) == Some(n)
      {
        if n in LineValues(init, parse) {
          var i :| 0 <= i < |init| && !Blank(init[i]) && parse(init[i]) == Some(n);
          assert lines[i] == init[i];
        } else {
          assert parse(lines[|lines| - 1]) == Some(n);
        }
      }
    }
  }

  /** The tuple obtained by folding `vs`, in order, into the starting tuple. */
  function ScalarOf(vs: seq<Value>): Scalar
  {
    if |vs| == 0 then Start else Fold(ScalarOf(vs[..|vs| - 1]), vs[|vs| - 1])
  }

  lemma SnocLine(lines: seq<seq<byte>>, line: seq<byte>, parse: Parser)
    ensures LineValues(lines + [line], parse) ==
      if Blank(line) || parse(line).None? then LineValues(lines, parse)
      else LineValues(lines, parse) + [parse(line).value]
  {
    assert (lines + [line])[..|lines|] == lines;
  }

  lemma ScalarSnoc(vs: seq<Value>, n: Value)
    ensures ScalarOf(vs + [n]) == Fold(ScalarOf(vs), n)
  {
    assert (vs + [n])[..|vs|] == vs;
  }

  /** The tuple after one more piece: unchanged when the piece is blank or
      does not parse, one `Fold` further otherwise. */
  lemma NextLine(lines: seq<seq<byte>>, i: nat, parse: Parser)
    requires i < |lines|
    ensures ScalarOf(LineValues(lines[..i + 1], parse)) ==
      if Blank(lines[i]) || parse(lines[i]).None? then ScalarOf(LineValues(lines[..i], parse))
      else Fold(ScalarOf(LineValues(lines[..i], parse)), parse(lines[i]).value)
  {
    assert lines[..i + 1] == lines[..i] + [lines[i]];
    SnocLine(lines[..i], lines[i], parse);
    if !Blank(lines[i]) && parse(lines[i]).Some? {
      ScalarSnoc(LineValues(lines[..i], parse), parse(lines[i]).value);
    }
  }

  /** `process_chunk`: the tuple of the numbers on the chunk's pieces; a piece
      that is blank or does not parse leaves the tuple unchanged. */
  method ProcessChunk(chunk: seq<byte>, parse: Parser) returns (res: Scalar)
    ensures res == ScalarOf(LineValues(Split(chunk), parse))
  {
    var min, sum, max, total := F64_MAX, 0, 0, 0;
    var lines := Split(chunk);
    for i := 0 to |lines|
      invariant Scalar(min, sum, max, total) == ScalarOf(LineValues(lines[..i], parse))
    {
      var line := lines[i];
      NextLine(lines, i, parse);
      if |line| == 0 || line[0] == NUL {
        continue;
      }
      match parse(line)
      case Some(number) =>
        sum := sum + number;
        if number < min {
          min := number;
        }
        if number > max {
          max := number;
        }
        total := total + 1;
      case None =>
    }
    assert lines[..|lines|] == lines;
    return Scalar(min, sum, max, total);
  }

  /** What the tuple means: `total` counts the folded numbers and `sum` adds
      them; `min` is their least (`f64::MAX` when there are none) and `max` is
      their greatest, but never below the starting `0.0`. */
  lemma {:induction false} ScalarMeaning(vs: seq<Value>)
    ensures ScalarOf(vs).total == |vs| && ScalarOf(vs).sum == Sum(vs)
    ensures ScalarOf(vs).min == Summary(vs).min
    ensures ScalarOf(vs).max == if Summary(vs).max > 0 then Summary(vs).max else 0
  {
    if |vs| > 0 {
      ScalarMeaning(vs[..|vs| - 1]);
    }
  }

  /** Hence the tuple's `max` is never negative, and `min`/`max` bound every folded number. */
  lemma ScalarBounds(vs: seq<Value>)
    ensures ScalarOf(vs).max >= 0 && ScalarOf(vs).min <= F64_MAX
    ensures forall i :: 0 <= i < |vs| ==> ScalarOf(vs).min <= vs[i] <= ScalarOf(vs).max
    ensures |vs| > 0 ==> ScalarOf(vs).min in vs
  {
    ScalarMeaning(vs);
    SummaryExtremes(vs);
  }

  lemma {:induction false} LineValuesAppend(a: seq<seq<byte>>, b: seq<seq<byte>>, parse: Parser)
    ensures LineValues(a + b, parse) == LineValues(a, parse) + LineValues(b, parse)
    decreases |b|
  {
    if |b| == 0 {
      assert a + b == a;
    } else {
      var init, line := b[..|b| - 1], b[|b| - 1];
      assert a + b == (a + init) + [line];
      LineValuesAppend(a, init, parse);
      SnocLine(a + init, line, parse);
      SnocLine(init, line, parse);
    }
  }

  /** The zero bytes a short read leaves at the end of a buffer are never read
      as a number: a chunk ending in a newline reads the same with any number
      of zero bytes after it. */
  lemma ZeroTailIgnored(s: seq<byte>, n: nat, parse: Parser)
    requires |s| == 0 || s[|s| - 1] == NL
    ensures LineValues(Split(s + Zeros(n)), parse) == LineValues(Split(s), parse)
  {
    LinesAppend(s, Zeros(n));
    ZerosLines(n);
    assert Lines(s + Zeros(n)) == Lines(s);
    assert Rest(s) == [] by { LinesAppend(s, []); assert s + [] == s; }
    SnocLine(Lines(s), Zeros(n), parse);
    SnocLine(Lines(s), [], parse);
  }

  lemma {:induction false} ZerosLines(n: nat)
    ensures Lines(Zeros(n)) == [] && Rest(Zeros(n)) == Zeros(n)
  {
    NoNewlineTail([], Zeros(n));
    assert [] + Zeros(n) == Zeros(n);
  }

  /** `spawned_thread`'s update of the shared totals, taken one chunk at a
      time: the smaller `min`, the larger `max`, and the sums of `sum` and `total`. */
  function Absorb(g: Scalar, c: Scalar): (r: Scalar)
    ensures r.sum == g.sum + c.sum && r.total == g.total + c.total
    ensures r.min <= g.min && r.min <= c.min && (r.min == g.min || r.min == c.min)
    ensures r.max >= g.max && r.max >= c.max && (r.max == g.max || r.max == c.max)
  {
    Scalar(if c.min < g.min then c.min else g.min,
           g.sum + c.sum,
           if c.max > g.max then c.max else g.max,
           g.total + c.total)
  }

  /** Absorbing the tuples of two groups of numbers, one after the other, gives
      the tuple of all the numbers: the shared totals, which start out as the
      starting tuple, end as the tuple of every number of every chunk. */
  lemma {:induction false} AbsorbScalars(a: seq<Value>, b: seq<Value>)
    ensures Absorb(ScalarOf(a), ScalarOf(b)) == ScalarOf(a + b)
    decreases |b|
  {
    if |b| == 0 {
      assert a + b == a;
      ScalarBounds(a);
    } else {
      var init, n := b[..|b| - 1], b[|b| - 1];
      assert a + b == (a + init) + [n];
      AbsorbScalars(a, init);
      ScalarSnoc(a + init, n);
      AbsorbFold(ScalarOf(a), ScalarOf(init), n);
    }
  }

  lemma AbsorbFold(g: Scalar, c: Scalar, n: Value)
    ensures Absorb(g, Fold(c, n)) == Fold(Absorb(g, c), n)
  {
  }

  /** The shared totals behind the four mutexes. */
  class Totals {
    var min: int
    var sum: int
    var max: int
    var total: nat

    function Current(): Scalar
      reads this
    {
      Scalar(min, sum, max, total)
    }

    /** The totals as `main` creates them: `f64::MAX`, `0.0`, `0.0`, `0`. */
    constructor ()
      ensures Current() == Start
    {
      min, sum, max, total := F64_MAX, 0, 0, 0;
    }

    /** `spawned_thread`, run without interference from other chunks. */
    method SpawnedThread(chunk: seq<byte>, parse: Parser)
      modifies this
      ensures Current() == Absorb(old(Current()), ScalarOf(LineValues(Split(chunk), parse)))
    {
      var c := ProcessChunk(chunk, parse);
      if c.min < min {
        min := c.min;
      }
      if c.max > max {
        max := c.max;
      }
      sum := sum + c.sum;
      total := total + c.total;
    }
  }
}
