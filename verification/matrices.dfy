/** Real vectors and square matrices as sequences, with the operations the
    transition matrix needs: sums, the matrix product, powers and sums of
    powers. The product is defined row by row, each row of `a * b` being the
    combination of the rows of `b` weighted by a row of `a`;
    `MatMulEntry` connects it to the textbook entry-wise definition. */
module Matrices {

  type Vector = seq<real>
  type Matrix = seq<Vector>

  /** Sum of the entries, `v[0] + ... + v[|v| - 1]`. */
  function Sum(v: Vector): real
  {
    if |v| == 0 then 0.0 else Sum(v[..|v| - 1]) + v[|v| - 1]
  }

  function Dot(u: Vector, v: Vector): real
    requires |u| == |v|
  {
    if |u| == 0 then 0.0 else Dot(u[..|u| - 1], v[..|v| - 1]) + u[|u| - 1] * v[|v| - 1]
  }

  function Zeros(n: nat): (r: Vector)
    ensures |r| == n && forall j | 0 <= j < n :: r[j] == 0.0
  {
    seq(n, (j: int) => 0.0)
  }

  function VAdd(u: Vector, v: Vector): (r: Vector)
    requires |u| == |v|
    ensures |r| == |u| && forall j | 0 <= j < |u| :: r[j] == u[j] + v[j]
  {
    seq(|u|, (j: int) requires 0 <= j < |u| => u[j] + v[j])
  }

  function VScale(u: Vector, c: real): (r: Vector)
    ensures |r| == |u| && forall j | 0 <= j < |u| :: r[j] == c * u[j]
  {
    seq(|u|, (j: int) requires 0 <= j < |u| => c * u[j])
  }

  /* ------------------------------------------------------------ sums */

  lemma {:induction false} SumZeros(n: nat)
    ensures Sum(Zeros(n)) == 0.0
  {
    if n > 0 {
      assert Zeros(n)[..n - 1] == Zeros(n - 1);
      SumZeros(n - 1);
    }
  }

  /** Summing is additive. */
  lemma {:induction false} SumAdd(u: Vector, v: Vector)
    requires |u| == |v|
    ensures Sum(VAdd(u, v)) == Sum(u) + Sum(v)
  {
    var m := |u|;
    if m > 0 {
      assert VAdd(u, v)[..m - 1] == VAdd(u[..m - 1], v[..m - 1]);
      SumAdd(u[..m - 1], v[..m - 1]);
    }
  }

  /** Summing is homogeneous. */
  lemma {:induction false} SumScale(u: Vector, c: real)
    ensures Sum(VScale(u, c)) == c * Sum(u)
  {
    var m := |u|;
    if m > 0 {
      var w := VScale(u, c);
      var v := VScale(u[..m - 1], c);
      forall j: int | 0 <= j < m - 1
        ensures w[j] == v[j]
      {
        assert u[..m - 1][j] == u[j];
      }
      assert w[..m - 1] == v;
      SumScale(u[..m - 1], c);
      assert Sum(w) == Sum(w[..m - 1]) + w[m - 1];
    }
  }

  /** The dot product with a vector that is zero outside position `i`. */
  lemma {:induction false} DotUnit(u: Vector, v: Vector, i: nat)
    requires |u| == |v| && i < |u|
    requires forall k | 0 <= k < |u| && k != i :: u[k] == 0.0
    ensures Dot(u, v) == u[i] * v[i]
  {
    var m := |u|;
    if i == m - 1 {
      DotZero(u[..m - 1], v[..m - 1]);
    } else {
      DotUnit(u[..m - 1], v[..m - 1], i);
    }
  }

  lemma {:induction false} DotZero(u: Vector, v: Vector)
    requires |u| == |v| && forall k | 0 <= k < |u| :: u[k] == 0.0
    ensures Dot(u, v) == 0.0
  {
    if |u| > 0 {
      DotZero(u[..|u| - 1], v[..|v| - 1]);
    }
  }

  /** A sum of non-negative entries is non-negative, and positive as soon as
      one entry is. */
  lemma {:induction false} SumPositive(v: Vector, i: nat)
    requires forall k | 0 <= k < |v| :: v[k] >= 0.0
    ensures Sum(v) >= 0.0
    ensures i < |v| && v[i] > 0.0 ==> Sum(v) > 0.0
  {
    var m := |v|;
    if m > 0 {
      SumPositive(v[..m - 1], i);
    }
  }

  /* -------------------------------------------------------- matrices */

  predicate Square(m: Matrix, n: nat)
  {
    |m| == n && forall i | 0 <= i < n :: |m[i]| == n
  }

  /** Every row sums to `s`. */
  predicate RowsSumTo(m: Matrix, s: real)
  {
    forall i | 0 <= i < |m| :: Sum(m[i]) == s
  }

  predicate NonNegative(m: Matrix)
  {
    forall i, j | 0 <= i < |m| && 0 <= j < |m[i]| :: m[i][j] >= 0.0
  }

  /** Column `j` of `m`. */
  function Column(m: Matrix, j: nat): (r: Vector)
    requires forall k | 0 <= k < |m| :: j < |m[k]|
    ensures |r| == |m| && forall k | 0 <= k < |m| :: r[k] == m[k][j]
  {
    seq(|m|, (k: int) requires 0 <= k < |m| => m[k][j])
  }

  /** `c[0] * rows[0] + ... + c[|c| - 1] * rows[|c| - 1]`. */
  function Comb(c: Vector, rows: Matrix, n: nat): (r: Vector)
    requires |c| == |rows| && forall k | 0 <= k < |rows| :: |rows[k]| == n
    ensures |r| == n
  {
    if |c| == 0 then Zeros(n)
    else VAdd(Comb(c[..|c| - 1], rows[..|rows| - 1], n), VScale(rows[|rows| - 1], c[|c| - 1]))
  }

  /** Entry `j` of a combination of rows is the dot product of the weights
      with column `j`. */
  lemma {:induction false} CombEntry(c: Vector, rows: Matrix, n: nat, j: nat)
    requires |c| == |rows| && forall k | 0 <= k < |rows| :: |rows[k]| == n
    requires j < n
    ensures Comb(c, rows, n)[j] == Dot(c, Column(rows, j))
  {
    var m := |c|;
    if m > 0 {
      assert Column(rows[..m - 1], j) == Column(rows, j)[..m - 1];
      CombEntry(c[..m - 1], rows[..m - 1], n, j);
    }
  }

  /** A combination of rows that each sum to 1 sums to the sum of its
      weights. */
  lemma {:induction false} CombSum(c: Vector, rows: Matrix, n: nat)
    requires |c| == |rows| && forall k | 0 <= k < |rows| :: |rows[k]| == n
    requires forall k | 0 <= k < |rows| :: Sum(rows[k]) == 1.0
    ensures Sum(Comb(c, rows, n)) == Sum(c)
  {
    var m := |c|;
    if m == 0 {
      SumZeros(n);
    } else {
      var x, r := c[m - 1], rows[m - 1];
      var before := Comb(c[..m - 1], rows[..m - 1], n);
      assert Sum(before) == Sum(c[..m - 1]) by {
        CombSum(c[..m - 1], rows[..m - 1], n);
      }
      assert Sum(Comb(c, rows, n)) == Sum(before) + Sum(VScale(r, x)) by {
        CombSumStep(c, rows, n);
      }
      assert Sum(VScale(r, x)) == x by {
        SumScale(r, x);
      }
    }
  }

  lemma CombSumStep(c: Vector, rows: Matrix, n: nat)
    requires |c| == |rows| > 0 && forall k | 0 <= k < |rows| :: |rows[k]| == n
    ensures Sum(Comb(c, rows, n))
         == Sum(Comb(c[..|c| - 1], rows[..|rows| - 1], n)) + Sum(VScale(rows[|rows| - 1], c[|c| - 1]))
  {
    var m := |c|;
    var a := Comb(c[..m - 1], rows[..m - 1], n);
    var b := VScale(rows[m - 1], c[m - 1]);
    assert Comb(c, rows, n) == VAdd(a, b);
    SumAdd(a, b);
  }

  /** Weights that vanish outside position `i` pick out a multiple of row
      `i`. */
  lemma CombUnit(c: Vector, rows: Matrix, n: nat, i: nat)
    requires |c| == |rows| && forall k | 0 <= k < |rows| :: |rows[k]| == n
    requires i < |c| && forall k | 0 <= k < |c| && k != i :: c[k] == 0.0
    ensures Comb(c, rows, n) == VScale(rows[i], c[i])
  {
    var r, v := Comb(c, rows, n), VScale(rows[i], c[i]);
    forall j | 0 <= j < n
      ensures r[j] == v[j]
    {
      CombEntry(c, rows, n, j);
      DotUnit(c, Column(rows, j), i);
    }
    assert r == v;
  }

  /** A combination of non-negative rows with non-negative weights is
      non-negative. */
  lemma {:induction false} CombNonNegative(c: Vector, rows: Matrix, n: nat)
    requires |c| == |rows| && forall k | 0 <= k < |rows| :: |rows[k]| == n
    requires forall k | 0 <= k < |c| :: c[k] >= 0.0
    requires NonNegative(rows)
    ensures forall j | 0 <= j < n :: Comb(c, rows, n)[j] >= 0.0
  {
    var m := |c|;
    if m > 0 {
      CombNonNegative(c[..m - 1], rows[..m - 1], n);
      var last := VScale(rows[m - 1], c[m - 1]);
      forall j | 0 <= j < n
        ensures last[j] >= 0.0
      {
        assert rows[m - 1][j] >= 0.0;
      }
    }
  }

  /** `numpy.matmul` on square matrices. */
  function MatMul(a: Matrix, b: Matrix, n: nat): (r: Matrix)
    requires Square(a, n) && Square(b, n)
    ensures Square(r, n)
  {
    seq(n, (i: int) requires 0 <= i < n => Comb(a[i], b, n))
  }

  /** The product agrees with the entry-wise definition
      `(a * b)[i][j] == sum over k of a[i][k] * b[k][j]`. */
  lemma MatMulEntry(a: Matrix, b: Matrix, n: nat, i: nat, j: nat)
    requires Square(a, n) && Square(b, n) && i < n && j < n
    ensures MatMul(a, b, n)[i][j] == Dot(a[i], Column(b, j))
  {
    CombEntry(a[i], b, n, j);
  }

  /** Multiplying on the right by a matrix whose rows sum to 1 keeps the row
      sums. */
  lemma MatMulRows(a: Matrix, b: Matrix, n: nat, s: real)
    requires Square(a, n) && Square(b, n)
    requires RowsSumTo(a, s) && RowsSumTo(b, 1.0)
    ensures RowsSumTo(MatMul(a, b, n), s)
  {
    forall i | 0 <= i < n
      ensures Sum(MatMul(a, b, n)[i]) == s
    {
      CombSum(a[i], b, n);
    }
  }

  lemma MatMulNonNegative(a: Matrix, b: Matrix, n: nat)
    requires Square(a, n) && Square(b, n) && NonNegative(a) && NonNegative(b)
    ensures NonNegative(MatMul(a, b, n))
  {
    forall i | 0 <= i < n
      ensures forall j | 0 <= j < n :: MatMul(a, b, n)[i][j] >= 0.0
    {
      CombNonNegative(a[i], b, n);
    }
  }

  function MAdd(a: Matrix, b: Matrix, n: nat): (r: Matrix)
    requires Square(a, n) && Square(b, n)
    ensures Square(r, n)
  {
    seq(n, (i: int) requires 0 <= i < n => VAdd(a[i], b[i]))
  }

  function MScale(a: Matrix, c: real, n: nat): (r: Matrix)
    requires Square(a, n)
    ensures Square(r, n)
  {
    seq(n, (i: int) requires 0 <= i < n => VScale(a[i], c))
  }

  lemma MAddRows(a: Matrix, b: Matrix, n: nat, s: real, t: real)
    requires Square(a, n) && Square(b, n) && RowsSumTo(a, s) && RowsSumTo(b, t)
    ensures RowsSumTo(MAdd(a, b, n), s + t)
  {
    forall i | 0 <= i < n
      ensures Sum(MAdd(a, b, n)[i]) == s + t
    {
      SumAdd(a[i], b[i]);
    }
  }

  lemma MScaleRows(a: Matrix, c: real, n: nat, s: real)
    requires Square(a, n) && RowsSumTo(a, s)
    ensures RowsSumTo(MScale(a, c, n), c * s)
  {
    forall i | 0 <= i < n
      ensures Sum(MScale(a, c, n)[i]) == c * s
    {
      SumScale(a[i], c);
    }
  }

  /** `numpy.linalg.matrix_power(p, k)` for `k >= 1`, as repeated
      multiplication (numpy squares repeatedly; the product is associative,
      so the value is the same). */
  function MatPow(p: Matrix, k: nat, n: nat): (r: Matrix)
    requires k >= 1 && Square(p, n)
    ensures Square(r, n)
  {
    if k == 1 then p else MatMul(MatPow(p, k - 1, n), p, n)
  }

  /** `sum(matrix_power(p, i) for i in range(1, steps + 1))` for
      `steps >= 1`. */
  function PowerSum(p: Matrix, steps: nat, n: nat): (r: Matrix)
    requires steps >= 1 && Square(p, n)
    ensures Square(r, n)
  {
    if steps == 1 then MatPow(p, 1, n) else MAdd(PowerSum(p, steps - 1, n), MatPow(p, steps, n), n)
  }

  /** Every power of a row-stochastic matrix is row-stochastic. */
  lemma {:induction false} MatPowRows(p: Matrix, k: nat, n: nat)
    requires k >= 1 && Square(p, n) && RowsSumTo(p, 1.0)
    ensures RowsSumTo(MatPow(p, k, n), 1.0)
  {
    if k > 1 {
      MatPowRows(p, k - 1, n);
      MatMulRows(MatPow(p, k - 1, n), p, n, 1.0);
    }
  }

  lemma {:induction false} MatPowNonNegative(p: Matrix, k: nat, n: nat)
    requires k >= 1 && Square(p, n) && NonNegative(p)
    ensures NonNegative(MatPow(p, k, n))
  {
    if k > 1 {
      MatPowNonNegative(p, k - 1, n);
      MatMulNonNegative(MatPow(p, k - 1, n), p, n);
    }
  }

  /** Summing the first `steps` powers of a row-stochastic matrix gives rows
      summing to `steps`. */
  lemma {:induction false} PowerSumRows(p: Matrix, steps: nat, n: nat)
    requires steps >= 1 && Square(p, n) && RowsSumTo(p, 1.0)
    ensures RowsSumTo(PowerSum(p, steps, n), steps as real)
  {
    MatPowRows(p, steps, n);
    if steps > 1 {
      PowerSumRows(p, steps - 1, n);
      MAddRows(PowerSum(p, steps - 1, n), MatPow(p, steps, n), n, (steps - 1) as real, 1.0);
    }
  }

  /** Sums of powers of a non-negative matrix, and their non-negative
      multiples, are non-negative. */
  lemma {:induction false} PowerSumNonNegative(p: Matrix, steps: nat, n: nat, c: real)
    requires steps >= 1 && Square(p, n) && NonNegative(p) && c >= 0.0
    ensures NonNegative(PowerSum(p, steps, n))
    ensures NonNegative(MScale(PowerSum(p, steps, n), c, n))
  {
    MatPowNonNegative(p, steps, n);
    if steps > 1 {
      PowerSumNonNegative(p, steps - 1, n, c);
      MAddNonNegative(PowerSum(p, steps - 1, n), MatPow(p, steps, n), n);
    }
    MScaleNonNegative(PowerSum(p, steps, n), c, n);
  }

  lemma MAddNonNegative(a: Matrix, b: Matrix, n: nat)
    requires Square(a, n) && Square(b, n) && NonNegative(a) && NonNegative(b)
    ensures NonNegative(MAdd(a, b, n))
  {
    var r := MAdd(a, b, n);
    forall i, j | 0 <= i < n && 0 <= j < n
      ensures r[i][j] >= 0.0
    {
      assert r[i] == VAdd(a[i], b[i]);
      assert a[i][j] >= 0.0 && b[i][j] >= 0.0;
    }
  }

  lemma MScaleNonNegative(a: Matrix, c: real, n: nat)
    requires Square(a, n) && NonNegative(a) && c >= 0.0
    ensures NonNegative(MScale(a, c, n))
  {
    var r := MScale(a, c, n);
    forall i, j | 0 <= i < n && 0 <= j < n
      ensures r[i][j] >= 0.0
    {
      assert r[i] == VScale(a[i], c);
      assert a[i][j] >= 0.0;
    }
  }
}
