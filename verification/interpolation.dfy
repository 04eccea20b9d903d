/** The piecewise-linear interpolator `piecewise_linear_interpolation`. For
    every pair of consecutive samples it lays `num_points` evenly spaced
    abscissae over the segment, keeps all but the last one (the next segment
    starts there), takes their values on the segment, and records the
    segment's (slope, intercept) equation. After the last segment it appends
    the final sample once. */
module Interpolation {
  import opened Results
  import opened Lines

  /** The three lists the interpolator returns: the dense abscissae, their
      values, and one equation per segment. */
  datatype Interpolation = Interpolation(xs: seq<real>, ys: seq<real>, equations: seq<Line>)

  predicate StrictlyIncreasing(s: seq<real>) {
    forall i, j :: 0 <= i < j < |s| ==> s[i] < s[j]
  }

  // ---------------------------------------------------------------------
  // np.linspace and np.interp on one segment

  /** The k-th of num evenly spaced points from start to stop. */
  function GridPoint(start: real, stop: real, num: nat, k: nat): real
    requires num >= 2
  {
    start + (k as real) * (stop - start) / ((num - 1) as real)
  }

  /** `np.linspace(start, stop, num)` for a non-negative num: no point for
      num == 0, just start for num == 1, and both ends included otherwise. */
  function Linspace(start: real, stop: real, num: nat): (r: seq<real>)
    ensures |r| == num
  {
    if num == 1 then [start]
    else seq(num, k requires 0 <= k < num => GridPoint(start, stop, num, k))
  }

  /** Python's `s[:-1]`: everything but the last element, and nothing for an
      empty list. */
  function DropLast<T>(s: seq<T>): (r: seq<T>)
    ensures r <= s
    ensures |r| == if |s| == 0 then 0 else |s| - 1
  {
    if |s| == 0 then [] else s[..|s| - 1]
  }

  /** `np.interp(t, [x0, x1], [y0, y1])`: y0 left of the table, y1 from its
      right end on, and the chord in between. */
  function Interp(t: real, x0: real, x1: real, y0: real, y1: real): real
    requires x0 < x1
  {
    if t < x0 then y0
    else if t >= x1 then y1
    else (y1 - y0) / (x1 - x0) * (t - x0) + y0
  }

  /** `np.interp` applied to every abscissa in ts. */
  function InterpAll(ts: seq<real>, x0: real, x1: real, y0: real, y1: real): (r: seq<real>)
    requires x0 < x1
    ensures |r| == |ts|
  {
    seq(|ts|, k requires 0 <= k < |ts| => Interp(ts[k], x0, x1, y0, y1))
  }

  /** The equation of the segment from (x0, y0) to (x1, y1), computed as
      `piecewise_linear_interpolation` does: the slope first, then the
      intercept from the left end. */
  function SegmentEquation(x0: real, y0: real, x1: real, y1: real): (l: Line)
    requires x0 != x1
    ensures Eval(l, x0) == y0 && Eval(l, x1) == y1
  {
    var slope := (y1 - y0) / (x1 - x0);
    assert slope * (x1 - x0) == y1 - y0;
    Line(slope, y0 - slope * x0)
  }

  // ---------------------------------------------------------------------
  // The interpolator

  /** How many points one segment contributes: `num_points` minus the shared
      end point, and none at all when `num_points` is 0. */
  function Emitted(num: nat): nat {
    if num == 0 then 0 else num - 1
  }

  /** The lists after the first n iterations of the loop at lines 21-30. */
  function Segments(x: seq<real>, y: seq<real>, num: nat, n: nat): (r: Interpolation)
    requires n < |x| <= |y| && StrictlyIncreasing(x)
    ensures |r.equations| == n && |r.ys| == |r.xs|
  {
    if n == 0 then Interpolation([], [], [])
    else
      var prev := Segments(x, y, num, n - 1);
      var grid := Linspace(x[n - 1], x[n], num);
      Interpolation(prev.xs + DropLast(grid),
                    prev.ys + DropLast(InterpAll(grid, x[n - 1], x[n], y[n - 1], y[n])),
                    prev.equations + [SegmentEquation(x[n - 1], y[n - 1], x[n], y[n])])
  }

  /** Models `piecewise_linear_interpolation`. x must be non-empty (the
      final append reads x[-1]) and strictly increasing (np.interp needs an
      increasing table, and equal neighbours divide by zero); y needs an
      entry for every x. `num_points` defaults to 100. A negative
      `num_points` makes np.linspace raise, but only once the loop runs,
      that is for two or more samples. */
  function PiecewiseLinearInterpolation(x: seq<real>, y: seq<real>, numPoints: int := 100)
    : (r: Result<Interpolation>)
    requires 1 <= |x| <= |y| && StrictlyIncreasing(x)
    ensures r.Err? <==> |x| >= 2 && numPoints < 0
    ensures r.Err? ==> r.error == NegativeSampleCount
    ensures r.Ok? ==> |r.value.equations| == |x| - 1 && |r.value.ys| == |r.value.xs| >= 1
    ensures r.Ok? ==> (r.value.xs[|r.value.xs| - 1] == x[|x| - 1]
                       && r.value.ys[|r.value.ys| - 1] == y[|y| - 1])
  {
    if |x| >= 2 && numPoints < 0 then Err(NegativeSampleCount)
    else
      var body := Segments(x, y, if numPoints < 0 then 0 else numPoints, |x| - 1);
      Ok(Interpolation(body.xs + [x[|x| - 1]], body.ys + [y[|y| - 1]], body.equations))
  }

  // ---------------------------------------------------------------------
  // Scalar facts about the grid

  lemma FractionBounds(d: real, k: real, m: real)
    requires d > 0.0 && 0.0 <= k < m
    ensures 0.0 <= k * d / m < d
  {
    assert k * d / m == (k / m) * d;
    assert 0.0 <= k / m < 1.0;
  }

  lemma FractionMonotone(d: real, k: real, k': real, m: real)
    requires d > 0.0 && m > 0.0 && k < k'
    ensures k * d / m < k' * d / m
  {
    assert k' * d - k * d == (k' - k) * d;
  }

  lemma FractionWhole(d: real, m: real)
    requires m > 0.0
    ensures m * d / m == d
  {
  }

  /** The grid starts at start, ends at stop, and climbs strictly in between. */
  lemma GridPointBounds(start: real, stop: real, num: nat, k: nat)
    requires num >= 2 && start < stop && k < num
    ensures k == 0 ==> GridPoint(start, stop, num, k) == start
    ensures k < num - 1 ==> start <= GridPoint(start, stop, num, k) < stop
    ensures k == num - 1 ==> GridPoint(start, stop, num, k) == stop
  {
    if k < num - 1 {
      FractionBounds(stop - start, k as real, (num - 1) as real);
    } else {
      FractionWhole(stop - start, (num - 1) as real);
    }
  }

  lemma GridPointIncreasing(start: real, stop: real, num: nat, k: nat, k': nat)
    requires num >= 2 && start < stop && k < k'
    ensures GridPoint(start, stop, num, k) < GridPoint(start, stop, num, k')
  {
    FractionMonotone(stop - start, k as real, k' as real, (num - 1) as real);
  }

  /** `np.linspace` with num >= 2 over an increasing interval is strictly
      increasing, starts at start and ends at stop. */
  lemma LinspaceShape(start: real, stop: real, num: nat)
    requires num >= 2 && start < stop
    ensures StrictlyIncreasing(Linspace(start, stop, num))
    ensures Linspace(start, stop, num)[0] == start
    ensures Linspace(start, stop, num)[num - 1] == stop
  {
    forall i, j | 0 <= i < j < num
      ensures Linspace(start, stop, num)[i] < Linspace(start, stop, num)[j]
    {
      GridPointIncreasing(start, stop, num, i, j);
    }
    GridPointBounds(start, stop, num, 0);
    GridPointBounds(start, stop, num, num - 1);
  }

  // ---------------------------------------------------------------------
  // Segment equations and np.interp

  lemma ChordIsLine(slope: real, t: real, x0: real, y0: real)
    ensures slope * (t - x0) + y0 == slope * t + (y0 - slope * x0)
  {
  }

  /** On the segment itself np.interp is the segment's line. */
  lemma InterpOnSegment(t: real, x0: real, x1: real, y0: real, y1: real)
    requires x0 < x1 && x0 <= t <= x1
    ensures Interp(t, x0, x1, y0, y1) == Eval(SegmentEquation(x0, y0, x1, y1), t)
  {
    if t < x1 {
      ChordIsLine((y1 - y0) / (x1 - x0), t, x0, y0);
    }
  }

  /** A line passes through both ends of a segment exactly when it is the
      segment's equation. */
  lemma SegmentEquationUnique(l: Line, x0: real, y0: real, x1: real, y1: real)
    requires x0 != x1
    ensures Eval(l, x0) == y0 && Eval(l, x1) == y1 <==> l == SegmentEquation(x0, y0, x1, y1)
  {
    if Eval(l, x0) == y0 && Eval(l, x1) == y1 {
      TwoPointsDetermineLine(l, SegmentEquation(x0, y0, x1, y1), x0, x1);
    }
  }

  // ---------------------------------------------------------------------
  // What the loop builds

  lemma {:induction false} SegmentsLength(x: seq<real>, y: seq<real>, num: nat, n: nat)
    requires n < |x| <= |y| && StrictlyIncreasing(x)
    ensures |Segments(x, y, num, n).xs| == n * Emitted(num)
    ensures num >= 1 ==> |Segments(x, y, num, n).xs| == n * (num - 1)
  {
    if n > 0 {
      SegmentsLength(x, y, num, n - 1);
      assert (n - 1) * Emitted(num) + Emitted(num) == n * Emitted(num);
    }
  }

  lemma {:induction false} SegmentsEquations(x: seq<real>, y: seq<real>, num: nat, n: nat, i: nat)
    requires n < |x| <= |y| && StrictlyIncreasing(x) && i < n
    ensures Segments(x, y, num, n).equations[i] == SegmentEquation(x[i], y[i], x[i + 1], y[i + 1])
  {
    if i < n - 1 {
      SegmentsEquations(x, y, num, n - 1, i);
    }
  }

  /** A prefix of b is a prefix of anything b is extended to. */
  lemma PrefixTransitive<T>(a: seq<T>, b: seq<T>, d: seq<T>, c: seq<T>)
    requires a <= b && b + d == c
    ensures a <= c
  {
    assert forall i :: 0 <= i < |a| ==> c[i] == b[i];
  }

  /** Later iterations only append: the lists after m iterations are
      prefixes of those after n >= m. */
  lemma {:induction false} SegmentsPrefix(x: seq<real>, y: seq<real>, num: nat, m: nat, n: nat)
    requires m <= n < |x| <= |y| && StrictlyIncreasing(x)
    ensures Segments(x, y, num, m).xs <= Segments(x, y, num, n).xs
    ensures Segments(x, y, num, m).ys <= Segments(x, y, num, n).ys
  {
    if m < n {
      SegmentsPrefix(x, y, num, m, n - 1);
      var grid := Linspace(x[n - 1], x[n], num);
      PrefixTransitive(Segments(x, y, num, m).xs, Segments(x, y, num, n - 1).xs,
                       DropLast(grid), Segments(x, y, num, n).xs);
      PrefixTransitive(Segments(x, y, num, m).ys, Segments(x, y, num, n - 1).ys,
                       DropLast(InterpAll(grid, x[n - 1], x[n], y[n - 1], y[n])),
                       Segments(x, y, num, n).ys);
    }
  }

  /** Entry k of the block appended after a. */
  lemma Appended<T>(a: seq<T>, b: seq<T>, c: seq<T>, j: nat, k: nat)
    requires a + b <= c && j == |a| + k && k < |b|
    ensures j < |c| && c[j] == b[k]
  {
    assert (a + b)[j] == b[k];
  }

  /** Point k of segment i sits at index j = i * (num - 1) + k, on the grid
      of that segment, with np.interp's value there. */
  lemma SegmentsPoint(x: seq<real>, y: seq<real>, num: nat, n: nat, i: nat, k: nat, j: nat)
    requires n < |x| <= |y| && StrictlyIncreasing(x)
    requires num >= 2 && i < n && k < num - 1 && j == i * (num - 1) + k
    ensures j < |Segments(x, y, num, n).xs|
    ensures Segments(x, y, num, n).xs[j] == GridPoint(x[i], x[i + 1], num, k)
    ensures Segments(x, y, num, n).ys[j]
         == Interp(GridPoint(x[i], x[i + 1], num, k), x[i], x[i + 1], y[i], y[i + 1])
  {
    var grid := Linspace(x[i], x[i + 1], num);
    assert Segments(x, y, num, i + 1).xs == Segments(x, y, num, i).xs + DropLast(grid);
    assert Segments(x, y, num, i + 1).ys
        == Segments(x, y, num, i).ys + DropLast(InterpAll(grid, x[i], x[i + 1], y[i], y[i + 1]));
    SegmentsLength(x, y, num, i);
    SegmentsPrefix(x, y, num, i + 1, n);
    Appended(Segments(x, y, num, i).xs, DropLast(grid), Segments(x, y, num, n).xs, j, k);
    Appended(Segments(x, y, num, i).ys, DropLast(InterpAll(grid, x[i], x[i + 1], y[i], y[i + 1])),
             Segments(x, y, num, n).ys, j, k);
  }

  /** The abscissae one segment contributes climb strictly within
      [start, stop). */
  lemma BlockShape(start: real, stop: real, num: nat)
    requires start < stop
    ensures StrictlyIncreasing(DropLast(Linspace(start, stop, num)))
    ensures forall j :: 0 <= j < |DropLast(Linspace(start, stop, num))| ==>
              start <= DropLast(Linspace(start, stop, num))[j] < stop
  {
    if num >= 2 {
      LinspaceShape(start, stop, num);
      forall j | 0 <= j < num - 1
        ensures start <= Linspace(start, stop, num)[j] < stop
      {
        GridPointBounds(start, stop, num, j);
      }
    }
  }

  /** Two climbing runs, the first below c and the second from c on, climb
      together, within the bounds of both. */
  lemma ConcatIncreasing(a: seq<real>, b: seq<real>, lo: real, c: real, hi: real)
    requires StrictlyIncreasing(a) && StrictlyIncreasing(b) && lo <= c <= hi
    requires forall i :: 0 <= i < |a| ==> lo <= a[i] < c
    requires forall j :: 0 <= j < |b| ==> c <= b[j] < hi
    ensures StrictlyIncreasing(a + b)
    ensures forall i :: 0 <= i < |a + b| ==> lo <= (a + b)[i] < hi
  {
    forall i | 0 <= i < |a + b|
      ensures lo <= (a + b)[i] < hi
    {
      if i < |a| {
        assert (a + b)[i] == a[i];
      } else {
        assert (a + b)[i] == b[i - |a|];
      }
    }
  }

  /** Every abscissa the first n segments emit lies in [x[0], x[n]), and they
      climb strictly. */
  lemma {:induction false} SegmentsIncreasing(x: seq<real>, y: seq<real>, num: nat, n: nat)
    requires n < |x| <= |y| && StrictlyIncreasing(x)
    ensures StrictlyIncreasing(Segments(x, y, num, n).xs)
    ensures forall j :: 0 <= j < |Segments(x, y, num, n).xs| ==>
              x[0] <= Segments(x, y, num, n).xs[j] < x[n]
  {
    if n > 0 {
      var prev := Segments(x, y, num, n - 1).xs;
      var block := DropLast(Linspace(x[n - 1], x[n], num));
      assert Segments(x, y, num, n).xs == prev + block;
      assert x[0] <= x[n - 1] < x[n] by {
        if n > 1 {
          assert x[0] < x[n - 1];
        }
      }
      SegmentsIncreasing(x, y, num, n - 1);
      BlockShape(x[n - 1], x[n], num);
      ConcatIncreasing(prev, block, x[0], x[n - 1], x[n]);
    }
  }

  // ---------------------------------------------------------------------
  // Properties of piecewise_linear_interpolation

  /** One equation per segment, and (num_points - 1) points per segment plus
      the final sample. */
  lemma InterpolationLength(x: seq<real>, y: seq<real>, numPoints: int)
    requires 1 <= |x| <= |y| && StrictlyIncreasing(x) && numPoints >= 0
    ensures PiecewiseLinearInterpolation(x, y, numPoints).Ok?
    ensures |PiecewiseLinearInterpolation(x, y, numPoints).value.equations| == |x| - 1
    ensures numPoints >= 1 ==>
              |PiecewiseLinearInterpolation(x, y, numPoints).value.xs| == (|x| - 1) * (numPoints - 1) + 1
    ensures numPoints == 0 ==> |PiecewiseLinearInterpolation(x, y, numPoints).value.xs| == 1
  {
    SegmentsLength(x, y, numPoints, |x| - 1);
  }

  /** With the default of 100 points per segment every segment contributes
      99 abscissae, and the call never fails. */
  lemma DefaultInterpolationLength(x: seq<real>, y: seq<real>)
    requires 1 <= |x| <= |y| && StrictlyIncreasing(x)
    ensures PiecewiseLinearInterpolation(x, y).Ok?
    ensures |PiecewiseLinearInterpolation(x, y).value.xs| == 99 * (|x| - 1) + 1
  {
    InterpolationLength(x, y, 100);
  }

  /** The dense abscissae climb strictly, start at x[0] when a segment emits
      anything, and end at the last sample, which appears only there. */
  lemma InterpolationIncreasing(x: seq<real>, y: seq<real>, numPoints: int)
    requires 1 <= |x| <= |y| && StrictlyIncreasing(x) && numPoints >= 0
    ensures StrictlyIncreasing(PiecewiseLinearInterpolation(x, y, numPoints).value.xs)
    ensures forall j :: 0 <= j < |PiecewiseLinearInterpolation(x, y, numPoints).value.xs| - 1 ==>
              PiecewiseLinearInterpolation(x, y, numPoints).value.xs[j] < x[|x| - 1]
    ensures |x| >= 2 && numPoints >= 2 ==> PiecewiseLinearInterpolation(x, y, numPoints).value.xs[0] == x[0]
  {
    var body := Segments(x, y, numPoints, |x| - 1);
    SegmentsIncreasing(x, y, numPoints, |x| - 1);
    ConcatIncreasing(body.xs, [x[|x| - 1]], x[0], x[|x| - 1], x[|x| - 1] + 1.0);
    if |x| >= 2 && numPoints >= 2 {
      SegmentsPoint(x, y, numPoints, |x| - 1, 0, 0, 0);
      GridPointBounds(x[0], x[1], numPoints, 0);
    }
  }

  /** Each segment's equation passes through both of its samples, and it is
      the only line that does. */
  lemma InterpolationEquations(x: seq<real>, y: seq<real>, numPoints: int, i: nat, l: Line)
    requires 1 <= |x| <= |y| && StrictlyIncreasing(x) && numPoints >= 0 && i < |x| - 1
    ensures Eval(PiecewiseLinearInterpolation(x, y, numPoints).value.equations[i], x[i]) == y[i]
    ensures Eval(PiecewiseLinearInterpolation(x, y, numPoints).value.equations[i], x[i + 1]) == y[i + 1]
    ensures Eval(l, x[i]) == y[i] && Eval(l, x[i + 1]) == y[i + 1]
        <==> l == PiecewiseLinearInterpolation(x, y, numPoints).value.equations[i]
  {
    SegmentsEquations(x, y, numPoints, |x| - 1, i);
    SegmentEquationUnique(l, x[i], y[i], x[i + 1], y[i + 1]);
  }

  /** Point k of segment i, at index j = i * (num_points - 1) + k, is
      x[i] + k * (x[i+1] - x[i]) / (num_points - 1), and its value is
      segment i's equation evaluated there. */
  lemma InterpolationPoint(x: seq<real>, y: seq<real>, numPoints: int, i: nat, k: nat, j: nat)
    requires 1 <= |x| <= |y| && StrictlyIncreasing(x)
    requires numPoints >= 2 && i < |x| - 1 && k < numPoints - 1 && j == i * (numPoints - 1) + k
    ensures j < |PiecewiseLinearInterpolation(x, y, numPoints).value.xs|
    ensures PiecewiseLinearInterpolation(x, y, numPoints).value.xs[j]
         == x[i] + (k as real) * (x[i + 1] - x[i]) / ((numPoints - 1) as real)
    ensures PiecewiseLinearInterpolation(x, y, numPoints).value.ys[j]
         == Eval(PiecewiseLinearInterpolation(x, y, numPoints).value.equations[i],
                 PiecewiseLinearInterpolation(x, y, numPoints).value.xs[j])
  {
    SegmentsPoint(x, y, numPoints, |x| - 1, i, k, j);
    SegmentsEquations(x, y, numPoints, |x| - 1, i);
    GridPointBounds(x[i], x[i + 1], numPoints, k);
    InterpOnSegment(GridPoint(x[i], x[i + 1], numPoints, k), x[i], x[i + 1], y[i], y[i + 1]);
  }

  /** Samples on one line l give l as every segment's equation. */
  lemma InterpolationCollinear(x: seq<real>, y: seq<real>, numPoints: int, l: Line)
    requires 1 <= |x| <= |y| && StrictlyIncreasing(x) && numPoints >= 0
    requires forall i :: 0 <= i < |x| ==> y[i] == Eval(l, x[i])
    ensures forall i :: 0 <= i < |x| - 1 ==>
              PiecewiseLinearInterpolation(x, y, numPoints).value.equations[i] == l
  {
    forall i | 0 <= i < |x| - 1
      ensures PiecewiseLinearInterpolation(x, y, numPoints).value.equations[i] == l
    {
      InterpolationEquations(x, y, numPoints, i, l);
    }
  }
}
