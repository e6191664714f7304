/** Rounding a real null-space vector to signs does not keep F*v = 0.
    `MBAIdentity` gives column i the sign of the i-th entry of the vectorised
    null-space basis, on the grounds that this only rescales the vector.
    That holds only when the entries are equal in magnitude. Below is one
    sampled 16 x 4 matrix whose real null space is spanned by (-1, 1, 1, -2).
    Every accepted basis for it rounds to the signs +-(-1, 1, 1, -1), which
    give row 7 a dot product of +-1. The generated expression is then 1, not
    0, at one-bit words x0 = 0, x1 = x2 = x3 = 1. */
module SignRounding {
  import opened Arith
  import opened Wrappers
  import opened MbaExpr
  import opened ZeroMatrix
  import opened SumOfProducts
  import opened Identity
  import opened SignSearch

  /** Row i of the matrix: row 7 is (0, 1, 1, 1), rows 8-11 are
      (1, 1, 0, 0), rows 12-15 are (1, 0, 1, 0), the others are 0. */
  function ExampleRow(i: nat): (r: seq<nat>)
    ensures |r| == 4 && forall j :: 0 <= j < 4 ==> r[j] <= 1
  {
    if i < 7 then [0, 0, 0, 0]
    else if i == 7 then [0, 1, 1, 1]
    else if i < 12 then [1, 1, 0, 0]
    else [1, 0, 1, 0]
  }

  /** Draws under which one attempt samples that matrix: draw 3i + j - 1
      fills entry (i, j) of the random columns. */
  function ExampleDraws(): (d: seq<nat>)
    ensures |d| == 48
  {
    seq(48, k requires 0 <= k < 48 => ExampleRow(k / 3)[k % 3 + 1])
  }

  /** The matrix sampled from those draws. */
  function ExampleGrid(): seq<seq<int>>
  {
    assert DrawsNeeded(4) == 48;
    SampledGrid(4, ExampleDraws())
  }

  /** Entry (i, j) of the sampled matrix is the one described above. */
  lemma ExampleEntry(i: nat, j: nat)
    requires i < 16 && j < 4
    ensures |ExampleGrid()| == 16 && |ExampleGrid()[i]| == 4
    ensures ExampleGrid()[i][j] == ExampleRow(i)[j]
  {
    var g, d := ExampleGrid(), ExampleDraws();
    assert Pow2(4) == 16 && Pow2(3) == 8;
    if j == 0 {
      TopBit(i, 3);
    } else {
      ExampleDrawEntry(i, j);
      assert g[i][j] == SampledEntry(4, d, i, j) == d[3 * i + (j - 1)] % 2;
    }
  }

  /** Draw 3i + j - 1 is entry j of row i. */
  lemma ExampleDrawEntry(i: nat, j: nat)
    requires i < 16 && 1 <= j < 4
    ensures ExampleDraws()[3 * i + (j - 1)] == ExampleRow(i)[j]
  {
    DivModUnique(3 * i + (j - 1), 3, i, j - 1);
  }

  /** The sampled matrix is the one described above. */
  lemma ExampleGridRows()
    ensures |ExampleGrid()| == 16 && IsMatrix(ExampleGrid(), 4) && ZeroOne(ExampleGrid())
    ensures forall i :: 0 <= i < 16 ==> ExampleGrid()[i] == ExampleRow(i)
  {
    var g := ExampleGrid();
    assert Pow2(4) == 16;
    forall i | 0 <= i < 16
      ensures g[i] == ExampleRow(i)
    {
      forall j | 0 <= j < 4
        ensures g[i][j] == ExampleRow(i)[j]
      {
        ExampleEntry(i, j);
      }
    }
  }

  /** Real dot product of the first k entries of a row with `u`. */
  function RealDotPrefix(row: seq<int>, u: seq<real>, k: nat): real
    requires k <= |row| && k <= |u|
  {
    if k == 0 then 0.0 else RealDotPrefix(row, u, k - 1) + (row[k - 1] as real) * u[k - 1]
  }

  /** `u` is in the real null space of `g`: what `arma::null` returns a basis of. */
  ghost predicate InNullSpace(g: seq<seq<int>>, u: seq<real>)
  {
    forall i :: 0 <= i < |g| ==> |g[i]| == |u| && RealDotPrefix(g[i], u, |u|) == 0.0
  }

  /** The integer dot product of a four-entry row, written out. */
  lemma IntDotFour(row: seq<int>, s: seq<int>)
    requires |row| == 4 && |s| == 4
    ensures RowDot(row, s) == row[0] * s[0] + row[1] * s[1] + row[2] * s[2] + row[3] * s[3]
  {
    assert DotPrefix(row, s, 1) == row[0] * s[0];
    assert DotPrefix(row, s, 2) == row[0] * s[0] + row[1] * s[1];
    assert DotPrefix(row, s, 3) == row[0] * s[0] + row[1] * s[1] + row[2] * s[2];
  }

  /** The real dot product of a four-entry row, written out. */
  lemma RealDotFour(row: seq<int>, u: seq<real>)
    requires |row| == 4 && |u| == 4
    ensures RealDotPrefix(row, u, 4) ==
      (row[0] as real) * u[0] + (row[1] as real) * u[1] + (row[2] as real) * u[2] + (row[3] as real) * u[3]
  {
    assert RealDotPrefix(row, u, 1) == (row[0] as real) * u[0];
    assert RealDotPrefix(row, u, 2) == (row[0] as real) * u[0] + (row[1] as real) * u[1];
    assert RealDotPrefix(row, u, 3) == (row[0] as real) * u[0] + (row[1] as real) * u[1] + (row[2] as real) * u[2];
  }

  /** The real dot product of row i with `u`, by row class. */
  lemma ExampleRealDot(i: nat, u: seq<real>)
    requires i < 16 && |u| == 4
    ensures |ExampleGrid()| == 16 && |ExampleGrid()[i]| == 4
    ensures RealDotPrefix(ExampleGrid()[i], u, 4) ==
      if i < 7 then 0.0 else if i == 7 then u[1] + u[2] + u[3] else if i < 12 then u[0] + u[1] else u[0] + u[2]
  {
    ExampleGridRows();
    RowRealDot(i, u);
  }

  /** The same for the rows themselves. */
  lemma RowRealDot(i: nat, u: seq<real>)
    requires |u| == 4
    ensures RealDotPrefix(ExampleRow(i), u, 4) ==
      if i < 7 then 0.0 else if i == 7 then u[1] + u[2] + u[3] else if i < 12 then u[0] + u[1] else u[0] + u[2]
  {
    var r := ExampleRow(i);
    RealDotFour(r, u);
    RowClasses(i);
  }

  /** The integer dot product of row i with `t`, by row class. */
  lemma ExampleIntDot(i: nat, t: seq<int>)
    requires i < 16 && |t| == 4
    ensures |ExampleGrid()| == 16 && |ExampleGrid()[i]| == 4
    ensures RowDot(ExampleGrid()[i], t) ==
      if i < 7 then 0 else if i == 7 then t[1] + t[2] + t[3] else if i < 12 then t[0] + t[1] else t[0] + t[2]
  {
    ExampleGridRows();
    RowIntDot(i, t);
  }

  /** The same for the rows themselves. */
  lemma RowIntDot(i: nat, t: seq<int>)
    requires |t| == 4
    ensures RowDot(ExampleRow(i), t) ==
      if i < 7 then 0 else if i == 7 then t[1] + t[2] + t[3] else if i < 12 then t[0] + t[1] else t[0] + t[2]
  {
    var r := ExampleRow(i);
    IntDotFour(r, t);
    RowClasses(i);
  }

  /** The entries of row i, by row class. */
  lemma RowClasses(i: nat)
    ensures var r := ExampleRow(i);
      r[0] == (if i >= 8 then 1 else 0) &&
      r[1] == (if 7 <= i < 12 then 1 else 0) &&
      r[2] == (if i == 7 || i >= 12 then 1 else 0) &&
      r[3] == (if i == 7 then 1 else 0)
  {
  }

  /** The real null space of the matrix is the line through (-1, 1, 1, -2). */
  lemma ExampleNullSpace(u: seq<real>)
    requires |u| == 4
    ensures InNullSpace(ExampleGrid(), u) <==> u[1] == -u[0] && u[2] == -u[0] && u[3] == 2.0 * u[0]
  {
    var g := ExampleGrid();
    ExampleRealDot(7, u);
    ExampleRealDot(8, u);
    ExampleRealDot(12, u);
    if u[1] == -u[0] && u[2] == -u[0] && u[3] == 2.0 * u[0] {
      forall i | 0 <= i < |g|
        ensures |g[i]| == |u| && RealDotPrefix(g[i], u, |u|) == 0.0
      {
        ExampleRealDot(i, u);
      }
    }
  }

  /** Whatever nonzero null-space vector is rounded, row 7's dot product with
      the signs is +-1, so the signs do not annihilate the matrix; nor does
      any other sign vector. */
  lemma RoundedSignsMissRow(u: seq<real>)
    requires |u| == 4 && InNullSpace(ExampleGrid(), u) && u[0] != 0.0
    ensures RowDot(ExampleGrid()[7], Signs(u, 4)) == (if u[0] > 0.0 then -1 else 1)
    ensures !Annihilates(ExampleGrid(), Signs(u, 4))
    ensures !Solvable(ExampleGrid(), 4)
  {
    var g, s := ExampleGrid(), Signs(u, 4);
    ExampleNullSpace(u);
    ExampleIntDot(7, s);
    forall t | IsSignVector(t, 4)
      ensures !Annihilates(g, t)
    {
      ExampleIntDot(7, t);
      ExampleIntDot(8, t);
      ExampleIntDot(12, t);
    }
  }

  /** Vectorising a one-vector basis gives that vector. */
  lemma VectoriseSingle(u: seq<real>)
    ensures Vectorise([u]) == u
  {
    assert [u][1..] == [];
    assert Vectorise([u]) == u + Vectorise([]);
  }

  /** `arma::null` returns an orthonormal basis. A unit vector on that line
      has entries of magnitude at least 1/sqrt(7), so it passes the near-zero
      filter. */
  lemma UnitNullVectorAccepted(u: seq<real>)
    requires |u| == 4 && InNullSpace(ExampleGrid(), u)
    requires u[0] * u[0] + u[1] * u[1] + u[2] * u[2] + u[3] * u[3] == 1.0
    ensures Accepted(Attempt(ExampleDraws(), [u]))
  {
    ExampleNullSpace(u);
    var a := u[0];
    assert 7.0 * (a * a) == 1.0;
    assert !NearZero(a);
    var v := Vectorise([u]);
    VectoriseSingle(u);
    forall k | 0 <= k < |v|
      ensures !NearZero(v[k])
    {
      assert v[k] == a || v[k] == -a || v[k] == 2.0 * a;
    }
  }

  /** With this matrix and an accepted null-space vector, the first attempt
      is taken, and its matrix and signs are the example's. */
  lemma ExampleAttemptTaken(u: seq<real>)
    requires |u| == 4 && Accepted(Attempt(ExampleDraws(), [u]))
    ensures WellFormedAttempts(4, [Attempt(ExampleDraws(), [u])])
    ensures FirstAccepted([Attempt(ExampleDraws(), [u])]) == Some(0)
    ensures AcceptedGrid(4, [Attempt(ExampleDraws(), [u])]) == ExampleGrid()
    ensures AcceptedSigns(4, [Attempt(ExampleDraws(), [u])]) == Signs(u, 4)
    ensures GeneratedIdentity(4, [Attempt(ExampleDraws(), [u])]).Ok?
  {
    var attempts := [Attempt(ExampleDraws(), [u])];
    assert DrawsNeeded(4) == 48;
    assert WellFormedAttempts(4, attempts);
    FirstAcceptedIs(attempts, 0);
    VectoriseSingle(u);
    ExampleColumnsHaveOnes();
  }

  /** Every column of the matrix has a 1, so every column has an expression. */
  lemma ExampleColumnsHaveOnes()
    ensures IsMatrix(ExampleGrid(), 4) && EveryColumnHasOne(ExampleGrid(), 4)
  {
    var g := ExampleGrid();
    ExampleEntry(8, 0);
    ExampleEntry(7, 1);
    ExampleEntry(7, 2);
    ExampleEntry(7, 3);
    assert IsMatrix(g, 4);
    forall c | 0 <= c < 4
      ensures ColumnHasOne(g, c)
    {
      var i := if c == 0 then 8 else 7;
      assert g[i][c] == 1;
    }
  }

  /** At one-bit words x0 = 0, x1 = x2 = x3 = 1 the per-bit sum is row 7's
      dot product with the signs. */
  lemma ExampleBitSum(s: seq<int>)
    requires IsSignVector(s, 4)
    ensures |ExampleGrid()| == Pow2(4) && IsMatrix(ExampleGrid(), 4)
    ensures BitSum(ExampleGrid(), s, [0, 1, 1, 1], 1) == RowDot(ExampleGrid()[7], s)
  {
    ExampleGridRows();
    var env := [0, 1, 1, 1];
    assert Pow2(4) == 16;
    assert Low(env) == [false, true, true, true];
    assert [false, true, true, true][..3] == [false, true, true];
    assert [false, true, true][..2] == [false, true];
    assert [false, true][..1] == [false];
    assert [false][..0] == [];
    assert RowIndex([false]) == 0;
    assert RowIndex([false, true]) == 1;
    assert RowIndex([false, true, true]) == 3;
    assert RowIndex(Low(env)) == 7;
  }

  /** The as-written fold: an attempt with this matrix and an accepted
      null-space vector yields an identity, and that identity is 1, not 0, at
      x0 = 0, x1 = x2 = x3 = 1 with one-bit words. */
  lemma RoundingBreaksIdentity(u: seq<real>)
    requires |u| == 4 && InNullSpace(ExampleGrid(), u) && Accepted(Attempt(ExampleDraws(), [u]))
    ensures var r := GeneratedIdentity(4, [Attempt(ExampleDraws(), [u])]);
      r.Ok? && Scoped(r.value, 4) && Eval(r.value, [0, 1, 1, 1], 1) == 1
  {
    var attempts := [Attempt(ExampleDraws(), [u])];
    var s := Signs(u, 4);
    ExampleAttemptTaken(u);
    VectoriseSingle(u);
    assert !NearZero(u[0]);
    RoundedSignsMissRow(u);
    var d := RowDot(ExampleGrid()[7], s);
    assert d == 1 || d == -1;
    ExampleBitSum(s);
    GeneratedIdentityValue(4, attempts, [0, 1, 1, 1], 1);
    var e := GeneratedIdentity(4, attempts).value;
    assert Eval(e, [0, 1, 1, 1], 1) == d % Pow2(1);
    assert Pow2(1) == 2;
  }
}
