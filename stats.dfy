/** Per-key statistics `(min, max, sum, count)`, the fold of one value into
    them, and the merge of two of them. The source keeps these as
    `(f64, f64, f64, u32)`; here every number is an exact integer and the
    identity entry uses the integer value of `f64::MAX` and `f64::MIN`. */
module Stats {

  /** `f64::MAX`, the largest finite double, exactly: (2^53 - 1) * 2^971. */
  const F64_MAX: int := 179769313486231570814527423731704356798070567525844996598917476803157260780028538760589558632766878171540458953514382464234321326889464182768467546703537516986049910576551282076245490090389328944075868508455133942304583236903222948165808559332123348274797826204144723168738177180919299881250404026184124858368

  /** `f64::MIN`, the most negative finite double. */
  const F64_MIN: int := -F64_MAX

  /** A parsed value. Values lie strictly between the two bounds, so that the
      strict comparisons against the identity entry always take the new value. */
  type Value = v: int | F64_MIN < v < F64_MAX witness 0

  datatype Stats = Stats(min: int, max: int, sum: int, count: nat)

  /** The entry `or_insert((f64::MAX, f64::MIN, 0.0, 0))` creates for an unseen key. */
  const Identity: Stats := Stats(F64_MAX, F64_MIN, 0, 0)

  /** Folding one value into an entry: `sum += v`, `min = v if v < min`,
      `max = v if v > max`, `count += 1`. */
  function Add(s: Stats, v: Value): (r: Stats)
    ensures r.count == s.count + 1 && r.sum == s.sum + v
    ensures r.min <= v && r.min <= s.min && (r.min == v || r.min == s.min)
    ensures r.max >= v && r.max >= s.max && (r.max == v || r.max == s.max)
  {
    Stats(if v < s.min then v else s.min,
          if v > s.max then v else s.max,
          s.sum + v,
          s.count + 1)
  }

  /** Merging an incoming entry `l` into the global entry `g`: sums and counts
      add, the smaller minimum and the larger maximum are kept. */
  function Merge(g: Stats, l: Stats): (r: Stats)
    ensures r.sum == g.sum + l.sum && r.count == g.count + l.count
    ensures r.min <= g.min && r.min <= l.min && (r.min == g.min || r.min == l.min)
    ensures r.max >= g.max && r.max >= l.max && (r.max == g.max || r.max == l.max)
  {
    Stats(if l.min < g.min then l.min else g.min,
          if l.max > g.max then l.max else g.max,
          g.sum + l.sum,
          g.count + l.count)
  }

  function Sum(vs: seq<Value>): int
  {
    if |vs| == 0 then 0 else Sum(vs[..|vs| - 1]) + vs[|vs| - 1]
  }

  /** The entry obtained by folding `vs`, in order, into the identity entry. */
  function Summary(vs: seq<Value>): (r: Stats)
    ensures r.count == |vs| && r.sum == Sum(vs)
    ensures |vs| == 0 ==> r == Identity
    ensures F64_MIN <= r.max && r.min <= F64_MAX
  {
    if |vs| == 0 then Identity else Add(Summary(vs[..|vs| - 1]), vs[|vs| - 1])
  }

  lemma SummarySnoc(vs: seq<Value>, v: Value)
    ensures Summary(vs + [v]) == Add(Summary(vs), v)
  {
    assert (vs + [v])[..|vs|] == vs;
  }

  /** The summary's minimum and maximum are the least and the greatest value folded. */
  lemma {:induction false} SummaryExtremes(vs: seq<Value>)
    ensures |vs| > 0 ==> Summary(vs).min in vs && Summary(vs).max in vs
    ensures forall i :: 0 <= i < |vs| ==> Summary(vs).min <= vs[i] <= Summary(vs).max
  {
    if |vs| > 0 {
      var init := vs[..|vs| - 1];
      SummaryExtremes(init);
      assert vs == init + [vs[|vs| - 1]];
    }
  }

  /** A key's first fold turns the identity entry into `(v, v, v, 1)`. */
  lemma FirstFold(v: Value)
    ensures Add(Identity, v) == Stats(v, v, v, 1)
  {
  }

  /** The identity entry is neutral for the merge on every entry within the bounds. */
  lemma MergeIdentity(s: Stats)
    requires s.min <= F64_MAX && F64_MIN <= s.max
    ensures Merge(Identity, s) == s && Merge(s, Identity) == s
  {
  }

  lemma MergeCommutes(a: Stats, b: Stats)
    ensures Merge(a, b) == Merge(b, a)
  {
  }

  lemma MergeAssociates(a: Stats, b: Stats, c: Stats)
    ensures Merge(Merge(a, b), c) == Merge(a, Merge(b, c))
  {
  }

  lemma SumAppend(xs: seq<Value>, ys: seq<Value>)
    ensures Sum(xs + ys) == Sum(xs) + Sum(ys)
    decreases |ys|
  {
    if |ys| > 0 {
      var init := ys[..|ys| - 1];
      assert (xs + ys)[..|xs + ys| - 1] == xs + init;
      SumAppend(xs, init);
    } else {
      assert xs + ys == xs;
    }
  }

  /** Folding two groups of values separately and merging the two entries gives
      the entry of folding all the values in one pass. */
  lemma {:induction false} MergeSummaries(xs: seq<Value>, ys: seq<Value>)
    ensures Merge(Summary(xs), Summary(ys)) == Summary(xs + ys)
    decreases |ys|
  {
    if |ys| == 0 {
      assert xs + ys == xs;
      MergeIdentity(Summary(xs));
    } else {
      var init, y := ys[..|ys| - 1], ys[|ys| - 1];
      assert (xs + ys)[..|xs + ys| - 1] == xs + init;
      assert (xs + ys)[|xs + ys| - 1] == y;
      MergeSummaries(xs, init);
    }
  }
}
