/** Dense real matrices stored as a sequence of rows, and the small kit the
    least-squares solver is built from: transpose, matrix product,
    matrix-vector product and the closed-form 2x2 inverse.

    Rows and columns are paired up the way Python's `zip` pairs them: a
    longer sequence is cut down to the length of the shorter one. On
    rectangular matrices of matching shapes this is ordinary linear algebra. */
module Matrices {
  import opened Results

  type Vector = seq<real>
  type Matrix = seq<Vector>

  function Min(a: int, b: int): int {
    if a <= b then a else b
  }

  /** m has exactly `rows` rows, each holding exactly `cols` entries. */
  predicate IsMatrix(m: Matrix, rows: nat, cols: nat) {
    |m| == rows && forall i :: 0 <= i < |m| ==> |m[i]| == cols
  }

  /** The j-th column of m; every row must reach column j. */
  function Column(m: Matrix, j: nat): (c: Vector)
    requires forall i :: 0 <= i < |m| ==> j < |m[i]|
    ensures |c| == |m|
  {
    seq(|m|, i requires 0 <= i < |m| => m[i][j])
  }

  /** The running total of the first n entries, added left to right. */
  function PrefixSum(s: Vector, n: nat): real
    requires n <= |s|
  {
    if n == 0 then 0.0 else PrefixSum(s, n - 1) + s[n - 1]
  }

  /** Python's `sum`: every entry, added left to right. */
  function Sum(s: Vector): real {
    PrefixSum(s, |s|)
  }

  /** Running totals only look at the entries they have passed. */
  lemma {:induction false} PrefixSumAgrees(s: Vector, t: Vector, n: nat)
    requires n <= |s| && n <= |t|
    requires forall i :: 0 <= i < n ==> s[i] == t[i]
    ensures PrefixSum(s, n) == PrefixSum(t, n)
  {
    if n > 0 {
      PrefixSumAgrees(s, t, n - 1);
    }
  }

  /** The sum of a non-empty vector is the sum without its last entry plus
      that entry. */
  lemma SumStep(s: Vector)
    requires |s| > 0
    ensures Sum(s) == Sum(s[..|s| - 1]) + s[|s| - 1]
  {
    PrefixSumAgrees(s, s[..|s| - 1], |s| - 1);
  }

  /** The products of paired entries; the pairing stops at the end of the
      shorter vector, as `zip` does. */
  function Products(a: Vector, b: Vector): (p: Vector)
    ensures |p| == Min(|a|, |b|)
    ensures forall i :: 0 <= i < |p| ==> p[i] == a[i] * b[i]
  {
    seq(Min(|a|, |b|), i requires 0 <= i < Min(|a|, |b|) => a[i] * b[i])
  }

  /** `sum(a * b for a, b in zip(u, v))`, the inner loop of both products. */
  function Dot(u: Vector, v: Vector): real {
    Sum(Products(u, v))
  }

  /** Only the first min(|u|, |v|) entries of either vector take part. */
  lemma DotTruncates(u: Vector, v: Vector)
    ensures Dot(u, v) == Dot(u[..Min(|u|, |v|)], v[..Min(|u|, |v|)])
  {
    var n := Min(|u|, |v|);
    var p, q := Products(u, v), Products(u[..n], v[..n]);
    assert forall i :: 0 <= i < |q| ==> q[i] == p[i];
    assert p == q;
  }

  lemma DotCommutes(u: Vector, v: Vector)
    ensures Dot(u, v) == Dot(v, u)
  {
    var p, q := Products(u, v), Products(v, u);
    assert forall i :: 0 <= i < |q| ==> q[i] == p[i];
    assert p == q;
  }

  /** The last pair of two equally long vectors adds its product to the dot
      product of the rest. */
  lemma DotStep(u: Vector, v: Vector)
    requires |u| == |v| > 0
    ensures Dot(u, v) == Dot(u[..|u| - 1], v[..|u| - 1]) + u[|u| - 1] * v[|u| - 1]
  {
    var p, q := Products(u, v), Products(u[..|u| - 1], v[..|u| - 1]);
    assert forall i :: 0 <= i < |q| ==> q[i] == p[i];
    assert p[..|p| - 1] == q;
    SumStep(p);
  }

  /** Appending a pair to two equally long vectors adds its product. */
  lemma DotAppend(u: Vector, v: Vector, a: real, b: real)
    requires |u| == |v|
    ensures Dot(u + [a], v + [b]) == Dot(u, v) + a * b
  {
    var p, q := Products(u + [a], v + [b]), Products(u, v);
    assert forall i :: 0 <= i < |q| ==> p[i] == q[i];
    assert p[|q|] == a * b;
    assert p[..|p| - 1] == q;
    SumStep(p);
  }

  /** A dot product of two pairs, written out. */
  lemma DotOfPairs(u: Vector, v: Vector)
    requires |u| == 2 && |v| == 2
    ensures Dot(u, v) == u[0] * v[0] + u[1] * v[1]
  {
    var p := Products(u, v);
    assert PrefixSum(p, 1) == p[0];
  }

  /** Number of columns `zip(*m)` yields: the length of the shortest row, and
      0 for a matrix without rows. */
  function Width(m: Matrix): (w: nat)
    ensures forall i :: 0 <= i < |m| ==> w <= |m[i]|
    ensures |m| > 0 ==> exists i :: 0 <= i < |m| && |m[i]| == w
    ensures |m| == 0 ==> w == 0
  {
    if |m| == 0 then 0
    else if |m| == 1 then |m[0]|
    else
      var rest := Width(m[1..]);
      assert forall i :: 1 <= i < |m| ==> m[i] == m[1..][i - 1];
      if |m[0]| <= rest then |m[0]| else rest
  }

  /** Models `transpose`: column j of m becomes row j of the result. */
  function Transpose(m: Matrix): (t: Matrix)
    ensures |t| == Width(m)
    ensures forall j :: 0 <= j < |t| ==> |t[j]| == |m|
  {
    var w := Width(m);
    seq(w, j requires 0 <= j < w =>
      seq(|m|, i requires 0 <= i < |m| => m[i][j]))
  }

  /** An r x c matrix with at least one row transposes to a c x r matrix
      whose entry (j, i) is the original entry (i, j). */
  lemma TransposeShape(m: Matrix, rows: nat, cols: nat)
    requires IsMatrix(m, rows, cols) && rows > 0
    ensures IsMatrix(Transpose(m), cols, rows)
    ensures forall j, i :: 0 <= j < cols && 0 <= i < rows ==> Transpose(m)[j][i] == m[i][j]
  {
  }

  /** Transposing twice gives back a rectangular matrix that has at least
      one row and one column. */
  lemma TransposeInvolution(m: Matrix, rows: nat, cols: nat)
    requires IsMatrix(m, rows, cols) && rows > 0 && cols > 0
    ensures Transpose(Transpose(m)) == m
  {
    TransposeShape(m, rows, cols);
    TransposeShape(Transpose(m), cols, rows);
    var back := Transpose(Transpose(m));
    forall i | 0 <= i < rows
      ensures back[i] == m[i]
    {
      assert forall j :: 0 <= j < cols ==> back[i][j] == m[i][j];
    }
  }

  /** Without columns the round trip loses the rows: `zip(*m)` of a matrix of
      empty rows is empty, and so is its transpose. */
  lemma TransposeOfEmptyRows(m: Matrix, rows: nat)
    requires IsMatrix(m, rows, 0) && rows > 0
    ensures Transpose(Transpose(m)) == []
    ensures Transpose(Transpose(m)) != m
  {
  }

  /** Models `mat_mult`: entry (i, j) pairs row i of a with column j of b. */
  function MatMult(a: Matrix, b: Matrix): (c: Matrix)
    ensures |c| == |a|
    ensures forall i :: 0 <= i < |c| ==> |c[i]| == Width(b)
  {
    var bt := Transpose(b);
    seq(|a|, i requires 0 <= i < |a| =>
      seq(|bt|, j requires 0 <= j < |bt| => Dot(a[i], bt[j])))
  }

  /** An r x k matrix times a k x c matrix (k > 0) is r x c, and entry (i, j)
      is the sum over k of a[i][k] * b[k][j]. */
  lemma MatMultShape(a: Matrix, b: Matrix, rows: nat, inner: nat, cols: nat)
    requires IsMatrix(a, rows, inner) && IsMatrix(b, inner, cols) && inner > 0
    ensures IsMatrix(MatMult(a, b), rows, cols)
    ensures forall i, j :: 0 <= i < rows && 0 <= j < cols ==> MatMult(a, b)[i][j] == Dot(a[i], Column(b, j))
  {
    TransposeShape(b, inner, cols);
    forall j | 0 <= j < cols
      ensures Transpose(b)[j] == Column(b, j)
    {
    }
  }

  /** With an empty inner dimension `zip(*b)` is empty, so every row of the
      product is empty rather than a row of zeros. */
  lemma MatMultEmptyInner(a: Matrix, b: Matrix, rows: nat)
    requires IsMatrix(a, rows, 0) && |b| == 0
    ensures IsMatrix(MatMult(a, b), rows, 0)
  {
  }

  /** The product of two 2x2 matrices, written out entry by entry. */
  lemma MatMult2x2(a: Matrix, b: Matrix)
    requires IsMatrix(a, 2, 2) && IsMatrix(b, 2, 2)
    ensures MatMult(a, b) ==
      [[a[0][0] * b[0][0] + a[0][1] * b[1][0], a[0][0] * b[0][1] + a[0][1] * b[1][1]],
       [a[1][0] * b[0][0] + a[1][1] * b[1][0], a[1][0] * b[0][1] + a[1][1] * b[1][1]]]
  {
    MatMultShape(a, b, 2, 2, 2);
    var c := MatMult(a, b);
    var col0, col1 := Column(b, 0), Column(b, 1);
    assert col0[0] == b[0][0] && col0[1] == b[1][0];
    assert col1[0] == b[0][1] && col1[1] == b[1][1];
    DotOfPairs(a[0], col0);
    DotOfPairs(a[0], col1);
    DotOfPairs(a[1], col0);
    DotOfPairs(a[1], col1);
    var row0 := [a[0][0] * b[0][0] + a[0][1] * b[1][0], a[0][0] * b[0][1] + a[0][1] * b[1][1]];
    var row1 := [a[1][0] * b[0][0] + a[1][1] * b[1][0], a[1][0] * b[0][1] + a[1][1] * b[1][1]];
    assert c[0][0] == row0[0] && c[0][1] == row0[1];
    assert c[1][0] == row1[0] && c[1][1] == row1[1];
    assert c[0] == row0 && c[1] == row1;
    assert c == [row0, row1];
  }

  /** Models `mat_vec_mult`: one entry per row, pairing the row with v. */
  function MatVecMult(m: Matrix, v: Vector): (r: Vector)
    ensures |r| == |m|
  {
    seq(|m|, i requires 0 <= i < |m| => Dot(m[i], v))
  }

  /** v laid out as a matrix with a single column. */
  function AsColumn(v: Vector): (m: Matrix)
    ensures IsMatrix(m, |v|, 1)
  {
    seq(|v|, k requires 0 <= k < |v| => [v[k]])
  }

  /** The matrix-vector product is the matrix product with v taken as a
      one-column matrix: entry i is the sum over k of m[i][k] * v[k]. */
  lemma MatVecMultIsMatMultByColumn(m: Matrix, v: Vector, rows: nat)
    requires IsMatrix(m, rows, |v|) && |v| > 0
    ensures MatVecMult(m, v) == Column(MatMult(m, AsColumn(v)), 0)
  {
    MatMultShape(m, AsColumn(v), rows, |v|, 1);
    assert Column(AsColumn(v), 0) == v;
  }

  /** A 2x2 matrix-vector product, written out. */
  lemma MatVecMult2x2(m: Matrix, v: Vector)
    requires IsMatrix(m, 2, 2) && |v| == 2
    ensures MatVecMult(m, v) == [m[0][0] * v[0] + m[0][1] * v[1], m[1][0] * v[0] + m[1][1] * v[1]]
  {
    DotOfPairs(m[0], v);
    DotOfPairs(m[1], v);
    var r := MatVecMult(m, v);
    var e := [m[0][0] * v[0] + m[0][1] * v[1], m[1][0] * v[0] + m[1][1] * v[1]];
    assert r[0] == e[0] && r[1] == e[1];
    assert r == e;
  }

  function Identity2(): (m: Matrix)
    ensures IsMatrix(m, 2, 2)
  {
    [[1.0, 0.0], [0.0, 1.0]]
  }

  /** The determinant read off the top-left 2x2 corner, as `invert_2x2` does. */
  function Det2(m: Matrix): real
    requires |m| >= 2 && |m[0]| >= 2 && |m[1]| >= 2
  {
    m[0][0] * m[1][1] - m[0][1] * m[1][0]
  }

  lemma Det2OfPairs(a: real, b: real, c: real, d: real)
    ensures Det2([[a, b], [c, d]]) == a * d - b * c
  {
  }

  /** Models `invert_2x2`: fails with SingularMatrix exactly when the
      determinant is zero, otherwise returns the adjugate over the determinant. */
  function Invert2x2(m: Matrix): (r: Result<Matrix>)
    requires |m| >= 2 && |m[0]| >= 2 && |m[1]| >= 2
    ensures r.Err? <==> Det2(m) == 0.0
    ensures r.Err? ==> r.error == SingularMatrix
    ensures r.Ok? ==> IsMatrix(r.value, 2, 2)
  {
    var det := Det2(m);
    if det == 0.0 then Err(SingularMatrix)
    else Ok([[m[1][1] / det, -m[0][1] / det],
             [-m[1][0] / det, m[0][0] / det]])
  }

  /** The adjugate over the determinant, [[e, f], [g, h]], multiplies out to
      the identity on either side of [[a, b], [c, d]]. */
  lemma AdjugateIdentities(a: real, b: real, c: real, d: real, det: real,
                            e: real, f: real, g: real, h: real)
    requires det == a * d - b * c && det != 0.0
    requires e == d / det && f == -b / det && g == -c / det && h == a / det
    ensures a * e + b * g == 1.0 && a * f + b * h == 0.0
    ensures c * e + d * g == 0.0 && c * f + d * h == 1.0
    ensures e * a + f * c == 1.0 && e * b + f * d == 0.0
    ensures g * a + h * c == 0.0 && g * b + h * d == 1.0
  {
    assert a * e + b * g == det / det;
    assert c * f + d * h == det / det;
    assert e * a + f * c == det / det;
    assert g * b + h * d == det / det;
  }

  /** A returned inverse is a two-sided inverse. */
  lemma InverseIsTwoSided(m: Matrix)
    requires IsMatrix(m, 2, 2) && Invert2x2(m).Ok?
    ensures MatMult(m, Invert2x2(m).value) == Identity2()
    ensures MatMult(Invert2x2(m).value, m) == Identity2()
  {
    var inv := Invert2x2(m).value;
    assert && m[0][0] * inv[0][0] + m[0][1] * inv[1][0] == 1.0
           && m[0][0] * inv[0][1] + m[0][1] * inv[1][1] == 0.0
           && m[1][0] * inv[0][0] + m[1][1] * inv[1][0] == 0.0
           && m[1][0] * inv[0][1] + m[1][1] * inv[1][1] == 1.0
           && inv[0][0] * m[0][0] + inv[0][1] * m[1][0] == 1.0
           && inv[0][0] * m[0][1] + inv[0][1] * m[1][1] == 0.0
           && inv[1][0] * m[0][0] + inv[1][1] * m[1][0] == 0.0
           && inv[1][0] * m[0][1] + inv[1][1] * m[1][1] == 1.0 by {
      InverseEntries(m);
      AdjugateIdentities(m[0][0], m[0][1], m[1][0], m[1][1], Det2(m),
                         inv[0][0], inv[0][1], inv[1][0], inv[1][1]);
    }
    var p, q, id := MatMult(m, inv), MatMult(inv, m), Identity2();
    assert p[0][0] == 1.0 && p[0][1] == 0.0 && p[1][0] == 0.0 && p[1][1] == 1.0 by {
      MatMult2x2(m, inv);
    }
    assert q[0][0] == 1.0 && q[0][1] == 0.0 && q[1][0] == 0.0 && q[1][1] == 1.0 by {
      MatMult2x2(inv, m);
    }
    assert p[0] == id[0] && p[1] == id[1];
    assert q[0] == id[0] && q[1] == id[1];
  }

  /** Multiplying the inverse back in: with [[e, f], [g, h]] the adjugate
      inverse of [[a, b], [c, d]], the vector [p, q] = inverse * v solves the
      system for v. */
  lemma SolvesSystem(a: real, b: real, c: real, d: real, det: real,
                     e: real, f: real, g: real, h: real, v0: real, v1: real, p: real, q: real)
    requires det == a * d - b * c && det != 0.0
    requires e == d / det && f == -b / det && g == -c / det && h == a / det
    requires p == e * v0 + f * v1 && q == g * v0 + h * v1
    ensures a * p + b * q == v0
    ensures c * p + d * q == v1
  {
    AdjugateIdentities(a, b, c, d, det, e, f, g, h);
    assert a * (e * v0 + f * v1) + b * (g * v0 + h * v1) == (a * e + b * g) * v0 + (a * f + b * h) * v1;
    assert c * (e * v0 + f * v1) + d * (g * v0 + h * v1) == (c * e + d * g) * v0 + (c * f + d * h) * v1;
  }

  /** The adjugate formula of `invert_2x2`, entry by entry. */
  lemma InverseEntries(m: Matrix)
    requires IsMatrix(m, 2, 2) && Invert2x2(m).Ok?
    ensures var inv := Invert2x2(m).value;
      && Det2(m) == m[0][0] * m[1][1] - m[0][1] * m[1][0] && Det2(m) != 0.0
      && inv[0][0] == m[1][1] / Det2(m) && inv[0][1] == -m[0][1] / Det2(m)
      && inv[1][0] == -m[1][0] / Det2(m) && inv[1][1] == m[0][0] / Det2(m)
  {
  }

  /** m applied to w gives v back, when w is the adjugate solution
      [[e, f], [g, h]] * v. */
  lemma AdjugateSolution(m: Matrix, e: real, f: real, g: real, h: real, v: Vector, w: Vector)
    requires IsMatrix(m, 2, 2) && |v| == 2 && |w| == 2 && Det2(m) != 0.0
    requires e == m[1][1] / Det2(m) && f == -m[0][1] / Det2(m)
    requires g == -m[1][0] / Det2(m) && h == m[0][0] / Det2(m)
    requires w[0] == e * v[0] + f * v[1] && w[1] == g * v[0] + h * v[1]
    ensures MatVecMult(m, w) == v
  {
    MatVecMult2x2(m, w);
    SolvesSystem(m[0][0], m[0][1], m[1][0], m[1][1], Det2(m), e, f, g, h, v[0], v[1], w[0], w[1]);
    assert MatVecMult(m, w)[0] == v[0] && MatVecMult(m, w)[1] == v[1];
  }

  /** The adjugate inverse inv of m solves every system: m * (inv * v) == v. */
  lemma AdjugateSolves(m: Matrix, inv: Matrix, v: Vector)
    requires IsMatrix(m, 2, 2) && IsMatrix(inv, 2, 2) && |v| == 2
    requires Det2(m) != 0.0
    requires inv[0][0] == m[1][1] / Det2(m) && inv[0][1] == -m[0][1] / Det2(m)
    requires inv[1][0] == -m[1][0] / Det2(m) && inv[1][1] == m[0][0] / Det2(m)
    ensures MatVecMult(m, MatVecMult(inv, v)) == v
  {
    MatVecMult2x2(inv, v);
    AdjugateSolution(m, inv[0][0], inv[0][1], inv[1][0], inv[1][1], v, MatVecMult(inv, v));
  }

  /** The solution inverse * v that a successful inversion yields satisfies
      m * (inverse * v) == v. */
  lemma InverseSolves(m: Matrix, v: Vector)
    requires IsMatrix(m, 2, 2) && |v| == 2 && Invert2x2(m).Ok?
    ensures MatVecMult(m, MatVecMult(Invert2x2(m).value, v)) == v
  {
    InverseEntries(m);
    AdjugateSolves(m, Invert2x2(m).value, v);
  }

  /** A 2x2 system written with matrices is the pair of scalar equations. */
  lemma SystemOfPairs(a: real, b: real, c: real, d: real, p: real, q: real, r0: real, r1: real)
    ensures MatVecMult([[a, b], [c, d]], [p, q]) == [r0, r1]
        <==> a * p + b * q == r0 && c * p + d * q == r1
  {
    MatVecMult2x2([[a, b], [c, d]], [p, q]);
    if MatVecMult([[a, b], [c, d]], [p, q]) == [r0, r1] {
      assert [a * p + b * q, c * p + d * q][0] == [r0, r1][0];
      assert [a * p + b * q, c * p + d * q][1] == [r0, r1][1];
    }
  }

  /** The determinant of a product of 2x2 matrices is the product of their
      determinants. */
  lemma DetOfProduct(a: Matrix, b: Matrix)
    requires IsMatrix(a, 2, 2) && IsMatrix(b, 2, 2)
    ensures Det2(MatMult(a, b)) == Det2(a) * Det2(b)
  {
    MatMult2x2(a, b);
  }

  /** The error is raised exactly for matrices that have no inverse: a 2x2
      matrix with zero determinant has no right inverse at all. */
  lemma SingularHasNoInverse(m: Matrix, n: Matrix)
    requires IsMatrix(m, 2, 2) && IsMatrix(n, 2, 2) && Invert2x2(m).Err?
    ensures MatMult(m, n) != Identity2()
  {
    DetOfProduct(m, n);
  }

  /** Scalar core of `RegularSystemHasOneSolution`. */
  lemma CramerUnique(a: real, b: real, c: real, d: real, p: real, q: real, p': real, q': real)
    requires a * d - b * c != 0.0
    requires a * p + b * q == a * p' + b * q' && c * p + d * q == c * p' + d * q'
    ensures p == p' && q == q'
  {
    var u, v := p - p', q - q';
    assert a * u + b * v == 0.0 && c * u + d * v == 0.0;
    assert (a * d - b * c) * u == d * (a * u + b * v) - b * (c * u + d * v);
    assert (a * d - b * c) * v == a * (c * u + d * v) - c * (a * u + b * v);
  }

  /** A 2x2 system with non-zero determinant has at most one solution: two
      vectors that m maps to the same image are equal. */
  lemma RegularSystemHasOneSolution(m: Matrix, v: Vector, w: Vector)
    requires IsMatrix(m, 2, 2) && |v| == 2 && |w| == 2 && Det2(m) != 0.0
    requires MatVecMult(m, v) == MatVecMult(m, w)
    ensures v == w
  {
    assert m[0][0] * v[0] + m[0][1] * v[1] == m[0][0] * w[0] + m[0][1] * w[1]
        && m[1][0] * v[0] + m[1][1] * v[1] == m[1][0] * w[0] + m[1][1] * w[1] by {
      MatVecMult2x2(m, v);
      MatVecMult2x2(m, w);
      assert MatVecMult(m, v)[0] == MatVecMult(m, w)[0];
      assert MatVecMult(m, v)[1] == MatVecMult(m, w)[1];
    }
    CramerUnique(m[0][0], m[0][1], m[1][0], m[1][1], v[0], v[1], w[0], w[1]);
  }
}
