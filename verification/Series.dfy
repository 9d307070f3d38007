/**
  Running summaries in constant memory (src/miner/stats.cpp, Series::add), over reals:
  Welford's update agrees with the whole history.
 */
module Series {
  function Sum(xs: seq<real>): real { if xs == [] then 0.0 else Sum(xs[..|xs| - 1]) + xs[|xs| - 1] }

  function Square(x: real): real { x * x }

  /** Sum of squared deviations from c. */
  function SquaredDeviations(xs: seq<real>, c: real): real
  {
    if xs == [] then 0.0 else SquaredDeviations(xs[..|xs| - 1], c) + Square(xs[|xs| - 1] - c)
  }

  predicate IsMinimum(xs: seq<real>, m: real) { m in xs && forall i :: 0 <= i < |xs| ==> m <= xs[i] }

  predicate IsMaximum(xs: seq<real>, m: real) { m in xs && forall i :: 0 <= i < |xs| ==> xs[i] <= m }

  /** n, mean, min, max and m2 are those of the values added so far. */
  predicate Summarises(n: nat, mean: real, min: real, max: real, m2: real, xs: seq<real>)
  {
    && n == |xs|
    && n as real * mean == Sum(xs)
    && m2 == SquaredDeviations(xs, mean)
    && (n > 0 ==> IsMinimum(xs, min) && IsMaximum(xs, max))
    && (n == 0 ==> mean == 0.0 && m2 == 0.0)
  }

  class Series {
    var n: nat
    var mean: real
    var min: real
    var max: real
    var m2: real
    ghost var values: seq<real>

    ghost predicate Valid() reads this { Summarises(n, mean, min, max, m2, values) }

    constructor ()
      ensures Valid() && values == []
    {
      n, mean, min, max, m2, values := 0, 0.0, 0.0, 0.0, 0.0, [];
    }

    method Add(v: real)
      requires Valid()
      modifies this
      ensures Valid() && values == old(values) + [v]
    {
      hide SquaredDeviations, Sum, Square;
      ghost var xs := values;
      values := values + [v];
      AddedMin(xs, min, v);
      AddedMax(xs, max, v);
      if n == 0 {
        min, max := v, v;
      } else {
        if v < min { min := v; }
        if v > max { max := v; }
      }
      ghost var oldMean := mean;
      n := n + 1;
      var delta := v - mean;
      mean := mean + delta / n as real;
      m2 := m2 + delta * (v - mean);
      Welford(xs, v, oldMean, delta / n as real);
    }
  }

  lemma AddedMin(xs: seq<real>, m: real, v: real)
    requires xs == [] || IsMinimum(xs, m)
    ensures IsMinimum(xs + [v], if xs == [] || v < m then v else m)
  {
    assert (xs + [v])[|xs|] == v;
    if xs != [] {
      var i :| 0 <= i < |xs| && xs[i] == m;
      assert (xs + [v])[i] == m;
    }
  }

  lemma AddedMax(xs: seq<real>, m: real, v: real)
    requires xs == [] || IsMaximum(xs, m)
    ensures IsMaximum(xs + [v], if xs == [] || v > m then v else m)
  {
    assert (xs + [v])[|xs|] == v;
    if xs != [] {
      var i :| 0 <= i < |xs| && xs[i] == m;
      assert (xs + [v])[i] == m;
    }
  }

  /** A sum of squared deviations of n values with this sum, moved from centre c to c + d. */
  function Moved(squares: real, sum: real, n: real, c: real, d: real): real
  {
    squares - 2.0 * d * (sum - n * c) + n * Square(d)
  }

  lemma {:induction false} Recentre(xs: seq<real>, c: real, d: real)
    ensures SquaredDeviations(xs, c + d) == Moved(SquaredDeviations(xs, c), Sum(xs), |xs| as real, c, d)
  {
    hide Square, Moved;
    if xs == [] {
      MovedNothing(c, d);
    } else {
      var pre, x := xs[..|xs| - 1], xs[|xs| - 1];
      Recentre(pre, c, d);
      MovedOne(SquaredDeviations(pre, c), Sum(pre), |pre| as real, x, c, d);
    }
  }

  lemma MovedNothing(c: real, d: real)
    ensures Moved(0.0, 0.0, 0.0, c, d) == 0.0
  {
  }

  lemma MovedOne(squares: real, sum: real, n: real, x: real, c: real, d: real)
    ensures Moved(squares, sum, n, c, d) + Square(x - (c + d))
         == Moved(squares + Square(x - c), sum + x, n + 1.0, c, d)
  {
    var e := x - c;
    assert Square(e - d) == Square(e) - 2.0 * d * e + Square(d);
    assert sum + x - (n + 1.0) * c == (sum - n * c) + e;
    assert 2.0 * d * ((sum - n * c) + e) == 2.0 * d * (sum - n * c) + 2.0 * d * e;
    assert (n + 1.0) * Square(d) == n * Square(d) + Square(d);
  }

  /** One update of the running mean and the running sum of squared deviations is exact. */
  lemma Welford(xs: seq<real>, v: real, mean: real, step: real)
    requires |xs| as real * mean == Sum(xs)
    requires step == (v - mean) / (|xs| + 1) as real
    ensures (|xs| + 1) as real * (mean + step) == Sum(xs + [v])
    ensures SquaredDeviations(xs, mean) + (v - mean) * (v - (mean + step)) == SquaredDeviations(xs + [v], mean + step)
  {
    hide Square, Moved;
    var ys, n := xs + [v], |xs| as real;
    assert ys[..|ys| - 1] == xs;
    DivideBack(v - mean, n + 1.0);
    NewMean(n, mean, step, v);
    Recentre(xs, mean, step);
    Cross(SquaredDeviations(xs, mean), Sum(xs), n, mean, step, v);
  }

  lemma DivideBack(x: real, n: real)
    requires n > 0.0
    ensures n * (x / n) == x
  {
  }

  lemma NewMean(n: real, mean: real, step: real, v: real)
    requires (n + 1.0) * step == v - mean
    ensures (n + 1.0) * (mean + step) == n * mean + v
  {
  }

  lemma Cross(squares: real, sum: real, n: real, mean: real, step: real, v: real)
    requires n * mean == sum && (n + 1.0) * step == v - mean
    ensures squares + (v - mean) * (v - (mean + step)) == Moved(squares, sum, n, mean, step) + Square(v - (mean + step))
  {
    var k := n * step;
    assert v - mean == k + step;
    assert (k + step) * k == k * k + step * k;
    Regroup(n, step);
  }

  lemma Regroup(n: real, d: real)
    ensures d * (n * d) == n * Square(d)
  {
  }
}
