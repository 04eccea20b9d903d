/** A straight line y = slope * x + intercept, the shape of both a segment
    equation of the interpolator and the fit line of the solver. */
module Lines {

  datatype Line = Line(slope: real, intercept: real)

  /** The line's value at t. */
  function Eval(l: Line, t: real): real {
    l.slope * t + l.intercept
  }

  /** Every sample (x[i], y[i]) lies on l, stated sample by sample from the
      back so that proofs by induction unfold it one step at a time. */
  predicate OnLine(l: Line, x: seq<real>, y: seq<real>)
    decreases |x|
  {
    |y| == |x|
    && (|x| == 0
        || (OnLine(l, x[..|x| - 1], y[..|x| - 1]) && y[|x| - 1] == Eval(l, x[|x| - 1])))
  }

  /** `OnLine` holds exactly when every sample lies on the line. */
  lemma {:induction false} OnLineEverywhere(l: Line, x: seq<real>, y: seq<real>)
    ensures OnLine(l, x, y) <==> |y| == |x| && forall i :: 0 <= i < |x| ==> y[i] == Eval(l, x[i])
  {
    if |y| == |x| && |x| > 0 {
      OnLineEverywhere(l, x[..|x| - 1], y[..|x| - 1]);
      assert forall i :: 0 <= i < |x| - 1 ==> x[..|x| - 1][i] == x[i] && y[..|x| - 1][i] == y[i];
    }
  }

  /** Two distinct abscissae pin a line down: lines that agree at both are equal. */
  lemma TwoPointsDetermineLine(l: Line, k: Line, x0: real, x1: real)
    requires x0 != x1
    requires Eval(l, x0) == Eval(k, x0) && Eval(l, x1) == Eval(k, x1)
    ensures l == k
  {
    assert (l.slope - k.slope) * (x1 - x0) == 0.0;
    assert l.slope == k.slope;
  }
}
