# Line fitting and piecewise-linear interpolation of sensor samples

This project models the numeric core of a small tool. The tool reads per-core CPU
temperature samples. For each core it builds a denser piecewise-linear curve and
fits one least-squares line. Two Python files make up that core.

- `least_squares_approximation.py` is a hand-rolled dense-matrix kit: `transpose`,
  `mat_mult`, `mat_vec_mult`, and `invert_2x2` with its singular-matrix error.
  On top of the kit, `least_squares_approximation` solves the normal equations
  (XᵀX) β = Xᵀy. The design matrix X has one row `[x_i, 1]` per sample.
- `interpolation.py` holds `piecewise_linear_interpolation`. For each pair of
  consecutive samples it does three things:
  - it lays `num_points` evenly spaced abscissae over the segment (100 unless
    the caller says otherwise) and keeps all but the last;
  - it takes their values with `np.interp`;
  - it records the segment's `(slope, intercept)`.

  After the loop it appends the final sample once.

All arithmetic is exact `real` arithmetic. Matrices are `seq<seq<real>>` and
vectors are `seq<real>`. A raised `ValueError` becomes an `Err` of the `Result`
type in `results.dfy`.

The modules follow the source:

- `Results` holds the error cases.
- `Lines` holds the line `y = slope * x + intercept` shared by both components.
- `Matrices` is the matrix kit.
- `LeastSquares` is the line fit.
- `Interpolation` is the interpolator.

Python's `zip` stops at the shorter of its arguments. The model keeps that
behaviour rather than excluding it:
- `Dot` pairs entries up to the shorter length.
- `Transpose` yields as many rows as the shortest input row has entries.
- Consequently `MatMult` and `MatVecMult` are total.
- A `y` longer or shorter than `x` is paired with `x` as the fit pairs it.

The code validates none of its inputs, and the model follows the code:

- `piecewise_linear_interpolation` does not reject a single sample. For one
  sample it returns `[x[0]]`, `[y[-1]]` and no equations. The model does the same.
- Mismatched lengths are not rejected either:
  - the interpolator reads `y[i+1]` and `y[-1]`, so it needs `len(y) >= len(x)`,
    and a longer `y` contributes its own last entry;
  - the fit pairs `x` and `y` with `zip`.
- A negative `num_points` makes `np.linspace` raise `ValueError`. That happens
  only when the loop runs, so only for two or more samples. It is modelled as
  `Err(NegativeSampleCount)`.

`np.linspace(a, b, n)` is modelled as follows:
- for `n >= 2`, point k is `a + k * (b - a) / (n - 1)`;
- for `n == 1` it is `[a]`;
- for `n == 0` it is empty.

`np.interp` on the two-point table `[x0, x1]` is modelled with its clamping:
- `y0` left of `x0`;
- `y1` from `x1` on;
- the chord in between.

## Model

| member | source | states |
|---|---|---|
| Matrices.DotTruncates | least_squares_approximation.py:26 | a `zip`-paired sum of products only sees the first min(len u, len v) entries of either vector |
| Matrices.DotCommutes | least_squares_approximation.py:56 | the paired sum of products does not depend on which vector comes first |
| Matrices.DotAppend | least_squares_approximation.py:26 | appending one pair to two equally long vectors adds exactly that pair's product to their paired sum |
| Matrices.Width | least_squares_approximation.py:13 | `zip(*m)` yields as many columns as the shortest row has entries: a lower bound on every row length that some row attains, and 0 for no rows |
| Matrices.TransposeShape | least_squares_approximation.py:13 | an r x c matrix with r > 0 transposes to a c x r matrix with T[j][i] == M[i][j] |
| Matrices.TransposeInvolution | least_squares_approximation.py:13 | transposing twice gives back any rectangular matrix with at least one row and one column |
| Matrices.TransposeOfEmptyRows | least_squares_approximation.py:13 | rows without entries do not survive a double transpose: the result is empty and differs from the input |
| Matrices.MatMultShape | least_squares_approximation.py:26 | r x k times k x c (k > 0) is r x c, and entry (i, j) is the paired sum of row i of A with column j of B |
| Matrices.MatMultEmptyInner | least_squares_approximation.py:26 | with an empty inner dimension every row of the product is empty |
| Matrices.MatMult2x2 | least_squares_approximation.py:26 | the product of two 2x2 matrices, entry by entry, as the four sums a_i0*b_0j + a_i1*b_1j |
| Matrices.MatVecMultIsMatMultByColumn | least_squares_approximation.py:56 | for rows of the vector's length, `mat_vec_mult` equals `mat_mult` with the vector as a one-column matrix, read back as a column |
| Matrices.MatVecMult2x2 | least_squares_approximation.py:56 | a 2x2 matrix times a pair, written out as m_i0*v_0 + m_i1*v_1 |
| Matrices.SystemOfPairs | least_squares_approximation.py:56 | [[a, b], [c, d]] * [p, q] == [r0, r1] holds exactly when a*p + b*q == r0 and c*p + d*q == r1 |
| Matrices.Invert2x2 | least_squares_approximation.py:39-43 | fails with the singular-matrix error exactly when m00*m11 - m01*m10 == 0, and otherwise returns a 2x2 matrix |
| Matrices.InverseIsTwoSided | least_squares_approximation.py:39-43 | M * inverse and inverse * M are both the 2x2 identity |
| Matrices.InverseSolves | least_squares_approximation.py:39-43 | for every pair v, M * (inverse * v) == v |
| Matrices.DetOfProduct | least_squares_approximation.py:39 | the determinant of a product of 2x2 matrices is the product of their determinants |
| Matrices.SingularHasNoInverse | least_squares_approximation.py:39-41 | when the error is raised, no 2x2 matrix N gives M * N == identity, so the error is never spurious |
| Matrices.RegularSystemHasOneSolution | least_squares_approximation.py:39-43 | with non-zero determinant, two pairs that M maps to the same vector are equal |
| LeastSquares.DesignTransposed | least_squares_approximation.py:70-73 | Xᵀ has the abscissae as its first row and n ones as its second |
| LeastSquares.NormalMatrixClosedForm | least_squares_approximation.py:70-74 | XᵀX == [[Σx², Σx], [Σx, n]] for n >= 1 samples |
| LeastSquares.MomentsClosedForm | least_squares_approximation.py:70-77 | Xᵀy == [Σ x_i y_i, Σ y_i], both sums over the pairs `zip` forms |
| LeastSquares.SquaredDeviationZero | least_squares_approximation.py:70-80 | Σ (x_i - a)² is never negative, and it is zero exactly when every x_i equals a |
| LeastSquares.SpreadStep | least_squares_approximation.py:70-80 | adding a sample a grows the determinant nΣx² - (Σx)² by Σ (x_i - a)² over the earlier samples |
| LeastSquares.SpreadZeroIffAllEqual | least_squares_approximation.py:70-80 | for n >= 1 the determinant nΣx² - (Σx)² is never negative, and it is zero exactly when all abscissae are equal |
| LeastSquares.FitFailsIffAllEqual | least_squares_approximation.py:70-80 | the fit raises the singular-matrix error exactly when all abscissae are equal, which includes every single-sample input |
| LeastSquares.FitSolvesNormalMatrix | least_squares_approximation.py:77-86 | a returned (slope, intercept) satisfies XᵀX β = Xᵀy |
| LeastSquares.FitSolvesClosedSystem | least_squares_approximation.py:70-86 | a returned (slope, intercept) solves [[Σx², Σx], [Σx, n]] β == [Σxy, Σy]; with `SystemOfPairs` these are the two scalar normal equations |
| LeastSquares.MomentsSolveClosedSystem | least_squares_approximation.py:70-77 | the converse direction: a pair satisfying the two scalar normal equations solves the closed-form system |
| LeastSquares.CollinearMoments | least_squares_approximation.py:70-77 | for samples on the line (m, b): Σxy == mΣx² + bΣx and Σy == mΣx + nb |
| LeastSquares.LineSolvesNormalMatrix | least_squares_approximation.py:70-77 | a line through every sample satisfies the normal equations XᵀX [m, b] = Xᵀy |
| LeastSquares.FitRecoversLine | least_squares_approximation.py:58-86 | samples lying exactly on a line, at two or more distinct abscissae, are fitted by exactly that line |
| Lines.TwoPointsDetermineLine | interpolation.py:25-26 | two lines that agree at two distinct abscissae are the same line |
| Lines.OnLineEverywhere | interpolation.py:25-26 | the recursive statement "every sample lies on l" holds exactly when y[i] == slope*x[i] + intercept for every i |
| Interpolation.GridPointBounds | interpolation.py:22 | grid point 0 is the segment's start, point num-1 its end, and every point before the end lies in [start, end) |
| Interpolation.GridPointIncreasing | interpolation.py:22 | on an increasing segment, a later grid point lies strictly to the right of an earlier one |
| Interpolation.LinspaceShape | interpolation.py:22 | for num >= 2 over start < stop, `np.linspace` climbs strictly from exactly start to exactly stop |
| Interpolation.DropLast | interpolation.py:29-30 | `[:-1]` is a prefix one shorter than its input, and empty for an empty input |
| Interpolation.InterpOnSegment | interpolation.py:23-26 | on [x0, x1], `np.interp` on the two-point table equals the segment equation evaluated there |
| Interpolation.SegmentEquation | interpolation.py:25-26 | the computed (slope, intercept) reproduces both endpoints of its segment |
| Interpolation.SegmentEquationUnique | interpolation.py:25-26 | a line passes through both endpoints exactly when it equals the computed segment equation |
| Interpolation.SegmentsLength | interpolation.py:21-30 | after n iterations there are n * (num_points - 1) abscissae, and none when num_points is 0 |
| Interpolation.SegmentsEquations | interpolation.py:21-27 | equation i is the equation of the segment from sample i to sample i+1 |
| Interpolation.SegmentsPrefix | interpolation.py:29-30 | the loop only appends: earlier output is a prefix of later output |
| Interpolation.SegmentsPoint | interpolation.py:22-30 | point k of segment i sits at index i*(num_points-1)+k, on that segment's grid, with `np.interp`'s value there |
| Interpolation.SegmentsIncreasing | interpolation.py:22-30 | after n iterations the abscissae climb strictly and lie in [x[0], x[n]) |
| Interpolation.PiecewiseLinearInterpolation | interpolation.py:17-35 | fails exactly for two or more samples with a negative `num_points`; otherwise it returns len(x)-1 equations, equally many abscissae and values, and ends with x[-1] and y[-1] |
| Interpolation.DefaultInterpolationLength | interpolation.py:4 | with the default `num_points = 100` the call succeeds and returns 99 abscissae per segment plus the final sample |
| Interpolation.InterpolationLength | interpolation.py:21-33 | for num_points >= 1 there are (len(x)-1)*(num_points-1)+1 abscissae; for num_points == 0 only the final sample |
| Interpolation.InterpolationIncreasing | interpolation.py:22-33 | the output abscissae climb strictly; every one before the last lies below x[-1], so the final sample appears once; with two samples and num_points >= 2 the first is x[0] |
| Interpolation.InterpolationEquations | interpolation.py:25-27 | equation i passes through samples i and i+1, and it is the only line that does |
| Interpolation.InterpolationPoint | interpolation.py:22-30 | the entry at i*(num_points-1)+k is x[i] + k*(x[i+1]-x[i])/(num_points-1), and its value is equation i evaluated there |
| Interpolation.InterpolationCollinear | interpolation.py:25-27 | samples on one line (m, b) make every segment equation equal to (m, b) |

## Left out

- `main.py`, the command-line driver, is not part of this model. It reads arguments,
  reads and writes files, formats report lines and plots. None of that is numeric logic.
- `input_library.py` is not part of this model. It reads a text file and parses
  lines with Python's `float`, which is I/O plus a foreign parser.
- IEEE-754 double arithmetic is replaced by exact reals. This covers rounding in
  the sums, divisions and products, and `np.linspace` pinning its last point to
  `stop`. Exact reals need no pinning. NaN and infinities are left out too.
- That the fitted line minimises the sum of squared residuals is left out. It is
  an optimisation argument. The model stops at the normal equations and at exact
  recovery of collinear data.
- Empty `x` for the fit is a precondition. The source then indexes an empty XᵀX
  and raises `IndexError`.
- `invert_2x2` on a matrix without two rows of two entries is a precondition.
  The source raises `IndexError` there.
- Interpolation requires `x` to be strictly increasing. Equal neighbours divide by
  zero at line 25. `np.interp` documents results only for an increasing table.
- Interpolation requires `len(x) >= 1` and `len(y) >= len(x)`. Otherwise the
  source raises `IndexError`.
- The fit returns a `Line` record rather than a Python tuple. `num_points` is an
  integer; non-integer arguments to `np.linspace` are not modelled.
