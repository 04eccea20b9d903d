/** The least-squares line fit of `least_squares_approximation`: it builds the
    design matrix with rows [x_i, 1], forms the normal equations
    (X^T X) beta = X^T y with the matrix kit, and solves them with the
    closed-form 2x2 inverse. beta[0] is the slope and beta[1] the intercept. */
module LeastSquares {
  import opened Results
  import opened Lines
  import opened Matrices

  /** The sum of the squared entries, the dot product of s with itself. */
  function SumOfSquares(s: Vector): real {
    Dot(s, s)
  }

  function Square(d: real): real {
    d * d
  }

  /** Sum of the squared deviations of the entries from a. */
  function SquaredDeviation(s: Vector, a: real): real {
    if |s| == 0 then 0.0 else SquaredDeviation(s[..|s| - 1], a) + Square(s[|s| - 1] - a)
  }

  function Ones(n: nat): (v: Vector)
    ensures |v| == n && forall k :: 0 <= k < n ==> v[k] == 1.0
  {
    seq(n, k => 1.0)
  }

  /** Every sample has the same abscissa. */
  predicate AllEqual(x: Vector) {
    forall i, j :: 0 <= i < |x| && 0 <= j < |x| ==> x[i] == x[j]
  }

  /** n times the sum of squares minus the squared sum: the determinant of
      X^T X for the samples x. */
  function Spread(x: Vector): real {
    SumOfSquares(x) * (|x| as real) - Sum(x) * Sum(x)
  }

  /** The design matrix, one row [x_i, 1] per sample. */
  function DesignMatrix(x: Vector): (m: Matrix)
    ensures IsMatrix(m, |x|, 2)
  {
    seq(|x|, i requires 0 <= i < |x| => [x[i], 1.0])
  }

  /** Models `least_squares_approximation`. Empty x is excluded, since
      `invert_2x2` would then index an empty X^T X. A y of another length
      than x is paired with x by `zip`, as `least_squares_approximation`
      pairs them. */
  function Fit(x: Vector, y: Vector): (r: Result<Line>)
    requires |x| > 0
  {
    var design := DesignMatrix(x);
    var designT := Transpose(design);
    var normal := MatMult(designT, design);
    var moments := MatVecMult(designT, y);
    match Invert2x2(normal)
    case Err(e) => Err(e)
    case Ok(inverse) =>
      var beta := MatVecMult(inverse, moments);
      Ok(Line(beta[0], beta[1]))
  }

  // ---------------------------------------------------------------------
  // Scalar algebra, kept apart so that the sequence proofs stay linear

  lemma SquareNonNegative(d: real)
    ensures Square(d) >= 0.0
  {
  }

  lemma ProductPositive(a: real, b: real)
    requires a > 0.0 && b > 0.0
    ensures a * b > 0.0
  {
  }

  /** The identity on reals. It names the second factor of d * d, so that
      d * d is read as a product of two positive factors. */
  function Same(d: real): real {
    d
  }

  /** A non-zero real has a positive square: d * d is the product of two
      positive factors, d and d when d is positive, -d and -d otherwise. */
  lemma SquarePositive(d: real)
    requires d != 0.0
    ensures Square(d) > 0.0
  {
    if d > 0.0 {
      ProductPositive(d, Same(d));
      assert d * Same(d) == Square(d);
    } else {
      ProductPositive(-d, Same(-d));
      assert (-d) * Same(-d) == Square(d);
    }
  }

  lemma SpreadAlgebra(n: real, s1: real, s2: real, a: real, n': real, t1: real, t2: real)
    requires n' == n + 1.0 && t1 == s1 + a && t2 == s2 + a * a
    ensures t2 * n' - t1 * t1 == (s2 * n - s1 * s1) + (s2 - 2.0 * a * s1 + n * a * a)
  {
  }

  lemma DeviationAlgebra(s1: real, s2: real, n: real, dev: real, last: real, a: real,
                         s1': real, s2': real, n': real, dev': real)
    requires dev == s2 - 2.0 * a * s1 + n * a * a
    requires s1' == s1 + last && s2' == s2 + last * last && n' == n + 1.0
    requires dev' == dev + Square(last - a)
    ensures dev' == s2' - 2.0 * a * s1' + n' * a * a
  {
  }

  lemma CollinearAlgebra(m: real, b: real, n: real, s1: real, s2: real, dot: real, sy: real,
                         xk: real, yk: real, n': real, s1': real, s2': real, dot': real, sy': real)
    requires dot == s2 * m + s1 * b && sy == s1 * m + n * b && yk == m * xk + b
    requires n' == n + 1.0 && s1' == s1 + xk && s2' == s2 + xk * xk
    requires dot' == dot + xk * yk && sy' == sy + yk
    ensures dot' == s2' * m + s1' * b
    ensures sy' == s1' * m + n' * b
  {
    assert xk * yk == m * (xk * xk) + b * xk;
  }

  // ---------------------------------------------------------------------
  // Sums as dot products

  lemma DotWithOnes(s: Vector)
    ensures Dot(s, Ones(|s|)) == Sum(s)
  {
    var p := Products(s, Ones(|s|));
    assert forall i :: 0 <= i < |p| ==> p[i] == s[i];
    assert p == s;
  }

  lemma {:induction false} SumOfOnes(n: nat)
    ensures Sum(Ones(n)) == n as real
  {
    if n > 0 {
      assert Ones(n)[..n - 1] == Ones(n - 1);
      SumStep(Ones(n));
      SumOfOnes(n - 1);
    }
  }

  /** Ones(n) paired with y by `zip` sums the first min(n, |y|) entries of y. */
  lemma OnesDotTruncates(n: nat, y: Vector)
    ensures Dot(Ones(n), y) == Sum(y[..Min(n, |y|)])
  {
    var p := Products(Ones(n), y);
    assert forall i :: 0 <= i < |p| ==> p[i] == y[i];
    assert p == y[..Min(n, |y|)];
  }

  // ---------------------------------------------------------------------
  // The normal equations in closed form

  /** The transposed design matrix has the abscissae as its first row and
      ones as its second. */
  lemma DesignTransposed(x: Vector)
    requires |x| > 0
    ensures Transpose(DesignMatrix(x)) == [x, Ones(|x|)]
  {
    var t := Transpose(DesignMatrix(x));
    TransposeShape(DesignMatrix(x), |x|, 2);
    assert t[0] == x;
    assert t[1] == Ones(|x|);
  }

  /** X^T X for rows [x_i, 1] is the symmetric matrix
      [[sum x_i^2, sum x_i], [sum x_i, n]]. */
  lemma NormalMatrixClosedForm(x: Vector)
    requires |x| > 0
    ensures MatMult(Transpose(DesignMatrix(x)), DesignMatrix(x)) ==
      [[SumOfSquares(x), Sum(x)], [Sum(x), |x| as real]]
  {
    var n := |x|;
    var design := DesignMatrix(x);
    DesignTransposed(x);
    var designT := Transpose(design);
    MatMultShape(designT, design, 2, n, 2);
    assert Column(design, 0) == x;
    assert Column(design, 1) == Ones(n);
    DotWithOnes(x);
    DotCommutes(Ones(n), x);
    DotWithOnes(Ones(n));
    SumOfOnes(n);
    var normal := MatMult(designT, design);
    assert normal[0] == [SumOfSquares(x), Sum(x)];
    assert normal[1] == [Sum(x), n as real];
  }

  /** X^T y is [sum x_i y_i, sum y_i], each sum running over the pairs `zip`
      forms. */
  lemma MomentsClosedForm(x: Vector, y: Vector)
    requires |x| > 0
    ensures MatVecMult(Transpose(DesignMatrix(x)), y) == [Dot(x, y), Sum(y[..Min(|x|, |y|)])]
  {
    DesignTransposed(x);
    OnesDotTruncates(|x|, y);
  }

  // ---------------------------------------------------------------------
  // When the fit is singular

  lemma {:induction false} SquaredDeviationExpands(s: Vector, a: real)
    ensures SquaredDeviation(s, a) == SumOfSquares(s) - 2.0 * a * Sum(s) + (|s| as real) * a * a
  {
    if |s| > 0 {
      var init := s[..|s| - 1];
      assert SquaredDeviation(init, a)
          == SumOfSquares(init) - 2.0 * a * Sum(init) + (|init| as real) * a * a by {
        SquaredDeviationExpands(init, a);
      }
      assert SumOfSquares(s) == SumOfSquares(init) + s[|s| - 1] * s[|s| - 1] by {
        DotStep(s, s);
      }
      SumStep(s);
      DeviationAlgebra(Sum(init), SumOfSquares(init), |init| as real, SquaredDeviation(init, a),
                       s[|s| - 1], a, Sum(s), SumOfSquares(s), |s| as real, SquaredDeviation(s, a));
    }
  }

  /** The squared deviation from a is never negative, and it is zero exactly
      when every entry equals a. */
  lemma {:induction false} SquaredDeviationZero(s: Vector, a: real)
    ensures SquaredDeviation(s, a) >= 0.0
    ensures SquaredDeviation(s, a) == 0.0 <==> forall i :: 0 <= i < |s| ==> s[i] == a
  {
    if |s| > 0 {
      var init, last := s[..|s| - 1], s[|s| - 1];
      SquaredDeviationZero(init, a);
      SquareNonNegative(last - a);
      if last != a {
        SquarePositive(last - a);
      }
      assert forall i :: 0 <= i < |init| ==> init[i] == s[i];
    }
  }

  /** Adding a sample a grows the spread by the squared deviation of the
      earlier samples from a. */
  lemma SpreadStep(s: Vector, a: real)
    ensures Spread(s + [a]) == Spread(s) + SquaredDeviation(s, a)
  {
    assert Sum(s + [a]) == Sum(s) + a by {
      SumStep(s + [a]);
      assert (s + [a])[..|s|] == s;
    }
    assert SumOfSquares(s + [a]) == SumOfSquares(s) + a * a by {
      DotAppend(s, s, a, a);
    }
    assert SquaredDeviation(s, a) == SumOfSquares(s) - 2.0 * a * Sum(s) + (|s| as real) * a * a by {
      SquaredDeviationExpands(s, a);
    }
    SpreadAlgebra(|s| as real, Sum(s), SumOfSquares(s), a, |s + [a]| as real, Sum(s + [a]), SumOfSquares(s + [a]));
    assert Spread(s + [a]) == SumOfSquares(s + [a]) * (|s + [a]| as real) - Sum(s + [a]) * Sum(s + [a]);
    assert Spread(s) == SumOfSquares(s) * (|s| as real) - Sum(s) * Sum(s);
    assert Spread(s + [a]) == Spread(s) + (SumOfSquares(s) - 2.0 * a * Sum(s) + (|s| as real) * a * a);
  }

  /** The spread of a non-empty sample is never negative, and it is zero
      exactly when all abscissae are equal. */
  lemma {:induction false} SpreadZeroIffAllEqual(x: Vector)
    requires |x| > 0
    ensures Spread(x) >= 0.0
    ensures Spread(x) == 0.0 <==> AllEqual(x)
  {
    if |x| == 1 {
      assert Sum(x) == PrefixSum(x, 1) == x[0];
      assert SumOfSquares(x) == x[0] * x[0] by {
        assert PrefixSum(Products(x, x), 1) == x[0] * x[0];
      }
    } else {
      var init, last := x[..|x| - 1], x[|x| - 1];
      assert x == init + [last];
      SpreadZeroIffAllEqual(init);
      SpreadStep(init, last);
      SquaredDeviationZero(init, last);
      if AllEqual(x) {
        assert AllEqual(init);
        assert forall i :: 0 <= i < |init| ==> init[i] == last;
      }
      if Spread(x) == 0.0 {
        assert forall i :: 0 <= i < |init| ==> init[i] == last;
        assert AllEqual(init);
        assert AllEqual(x) by {
          forall i, j | 0 <= i < |x| && 0 <= j < |x|
            ensures x[i] == x[j]
          {
            assert x[i] == last && x[j] == last by {
              assert i < |init| ==> x[i] == init[i];
              assert j < |init| ==> x[j] == init[j];
            }
          }
        }
      }
    }
  }

  /** The fit raises the singular-matrix error exactly when all abscissae are
      equal, which includes every one-sample input. */
  lemma FitFailsIffAllEqual(x: Vector, y: Vector)
    requires |x| > 0
    ensures Fit(x, y).Err? <==> AllEqual(x)
    ensures Fit(x, y).Err? ==> Fit(x, y).error == SingularMatrix
  {
    var normal := MatMult(Transpose(DesignMatrix(x)), DesignMatrix(x));
    assert Det2(normal) == Spread(x) by {
      NormalMatrixClosedForm(x);
      Det2OfPairs(SumOfSquares(x), Sum(x), Sum(x), |x| as real);
    }
    SpreadZeroIffAllEqual(x);
  }

  // ---------------------------------------------------------------------
  // What a successful fit satisfies

  /** A fitted line satisfies the normal equations X^T X beta = X^T y. */
  lemma FitSolvesNormalMatrix(x: Vector, y: Vector)
    requires |x| > 0 && Fit(x, y).Ok?
    ensures MatVecMult(MatMult(Transpose(DesignMatrix(x)), DesignMatrix(x)),
                       [Fit(x, y).value.slope, Fit(x, y).value.intercept])
         == MatVecMult(Transpose(DesignMatrix(x)), y)
  {
    var normal := MatMult(Transpose(DesignMatrix(x)), DesignMatrix(x));
    var moments := MatVecMult(Transpose(DesignMatrix(x)), y);
    assert [Fit(x, y).value.slope, Fit(x, y).value.intercept]
        == MatVecMult(Invert2x2(normal).value, moments);
    InverseSolves(normal, moments);
  }

  /** The normal equations with both sides in closed form: the fitted slope
      and intercept solve [[Sxx, Sx], [Sx, n]] * [slope, intercept] == [Sxy, Sy]. */
  lemma FitSolvesClosedSystem(x: Vector, y: Vector)
    requires |x| > 0 && Fit(x, y).Ok?
    ensures MatVecMult([[SumOfSquares(x), Sum(x)], [Sum(x), |x| as real]],
                       [Fit(x, y).value.slope, Fit(x, y).value.intercept])
         == [Dot(x, y), Sum(y[..Min(|x|, |y|)])]
  {
    FitSolvesNormalMatrix(x, y);
    NormalMatrixClosedForm(x);
    MomentsClosedForm(x, y);
  }

  /** Moments that satisfy the scalar normal equations for [p, q] make
      [p, q] a solution of the closed-form system. */
  lemma MomentsSolveClosedSystem(x: Vector, y: Vector, p: real, q: real)
    requires Dot(x, y) == SumOfSquares(x) * p + Sum(x) * q
    requires Sum(y) == Sum(x) * p + (|x| as real) * q
    ensures MatVecMult([[SumOfSquares(x), Sum(x)], [Sum(x), |x| as real]], [p, q])
         == [Dot(x, y), Sum(y)]
  {
    SystemOfPairs(SumOfSquares(x), Sum(x), Sum(x), |x| as real, p, q, Dot(x, y), Sum(y));
  }

  /** One step of `CollinearMoments`: the moments of x and y from those of
      their prefixes without the last sample. */
  lemma CollinearStep(x: Vector, y: Vector, l: Line)
    requires |x| > 0 && |y| == |x|
    requires Dot(x[..|x| - 1], y[..|x| - 1])
          == SumOfSquares(x[..|x| - 1]) * l.slope + Sum(x[..|x| - 1]) * l.intercept
    requires Sum(y[..|x| - 1]) == Sum(x[..|x| - 1]) * l.slope + (|x[..|x| - 1]| as real) * l.intercept
    requires y[|x| - 1] == Eval(l, x[|x| - 1])
    ensures Dot(x, y) == SumOfSquares(x) * l.slope + Sum(x) * l.intercept
    ensures Sum(y) == Sum(x) * l.slope + (|x| as real) * l.intercept
  {
    DotStep(x, y);
    DotStep(x, x);
    SumStep(x);
    SumStep(y);
    CollinearAlgebra(l.slope, l.intercept, |x[..|x| - 1]| as real, Sum(x[..|x| - 1]),
                     SumOfSquares(x[..|x| - 1]), Dot(x[..|x| - 1], y[..|x| - 1]), Sum(y[..|x| - 1]),
                     x[|x| - 1], y[|x| - 1],
                     |x| as real, Sum(x), SumOfSquares(x), Dot(x, y), Sum(y));
  }

  /** The moments of samples lying on the line l. */
  lemma {:induction false} CollinearMoments(x: Vector, y: Vector, l: Line)
    requires OnLine(l, x, y)
    ensures Dot(x, y) == SumOfSquares(x) * l.slope + Sum(x) * l.intercept
    ensures Sum(y) == Sum(x) * l.slope + (|x| as real) * l.intercept
  {
    if |x| > 0 {
      CollinearMoments(x[..|x| - 1], y[..|x| - 1], l);
      CollinearStep(x, y, l);
    }
  }

  /** A line through every sample solves the normal equations. */
  lemma LineSolvesNormalMatrix(x: Vector, y: Vector, l: Line)
    requires |x| > 0 && OnLine(l, x, y)
    ensures MatVecMult(MatMult(Transpose(DesignMatrix(x)), DesignMatrix(x)), [l.slope, l.intercept])
         == MatVecMult(Transpose(DesignMatrix(x)), y)
  {
    assert MatVecMult([[SumOfSquares(x), Sum(x)], [Sum(x), |x| as real]], [l.slope, l.intercept])
        == [Dot(x, y), Sum(y)] by {
      CollinearMoments(x, y, l);
      MomentsSolveClosedSystem(x, y, l.slope, l.intercept);
    }
    assert |y| == |x| && y[..Min(|x|, |y|)] == y;
    NormalMatrixClosedForm(x);
    MomentsClosedForm(x, y);
  }

  /** Samples that lie exactly on a line, at two or more distinct abscissae,
      are fitted by that very line. */
  lemma FitRecoversLine(x: Vector, y: Vector, l: Line)
    requires |x| > 0 && !AllEqual(x) && OnLine(l, x, y)
    ensures Fit(x, y) == Ok(l)
  {
    var normal := MatMult(Transpose(DesignMatrix(x)), DesignMatrix(x));
    FitFailsIffAllEqual(x, y);
    assert IsMatrix(normal, 2, 2) && Det2(normal) != 0.0 by {
      NormalMatrixClosedForm(x);
      InverseEntries(normal);
    }
    FitSolvesNormalMatrix(x, y);
    LineSolvesNormalMatrix(x, y, l);
    RegularSystemHasOneSolution(normal, [Fit(x, y).value.slope, Fit(x, y).value.intercept],
                                [l.slope, l.intercept]);
    assert [Fit(x, y).value.slope, Fit(x, y).value.intercept][0] == [l.slope, l.intercept][0];
    assert [Fit(x, y).value.slope, Fit(x, y).value.intercept][1] == [l.slope, l.intercept][1];
  }
}
