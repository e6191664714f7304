/** The sampling half of `GenerateSolution`: the 2^n x n matrix whose first
    column is the truth table of the first variable and whose other columns
    are random bits, the sign each column gets from the null-space vector,
    and the acceptance test applied to that vector. */
module ZeroMatrix {
  import opened Arith
  import opened Wrappers

  /** Number of `std::rand()` draws one attempt consumes: one per entry of
      columns 1..n-1. */
  function DrawsNeeded(n: nat): nat
  {
    if n == 0 then 0 else MulMonotone(0, Pow2(n), n - 1); Pow2(n) * (n - 1)
  }

  /** Position in the draw stream of the draw that fills entry (i, j), j >= 1,
      the matrix being filled row by row. */
  lemma DrawIndexInRange(n: nat, i: nat, j: nat)
    requires 1 <= j < n && i < Pow2(n)
    ensures i * (n - 1) + (j - 1) < DrawsNeeded(n)
  {
    assert (i + 1) * (n - 1) == i * (n - 1) + (n - 1);
    MulMonotone(i + 1, Pow2(n), n - 1);
  }

  /** Entry (i, j) of the matrix sampled from the draws `rand`. */
  function SampledEntry(n: nat, rand: seq<nat>, i: nat, j: nat): int
    requires 1 <= n && i < Pow2(n) && j < n && |rand| >= DrawsNeeded(n)
  {
    if j == 0 then Bit(i, n - 1)
    else
      DrawIndexInRange(n, i, j);
      rand[i * (n - 1) + (j - 1)] % 2
  }

  /** The matrix sampled from the draws `rand`, as a sequence of rows. */
  function SampledGrid(n: nat, rand: seq<nat>): (g: seq<seq<int>>)
    requires 1 <= n && |rand| >= DrawsNeeded(n)
    ensures |g| == Pow2(n)
    ensures forall i :: 0 <= i < |g| ==> |g[i]| == n
    ensures forall i, j :: 0 <= i < |g| && 0 <= j < n ==> g[i][j] == 0 || g[i][j] == 1
    ensures forall i :: 0 <= i < |g| ==> g[i][0] == Bit(i, n - 1)
  {
    seq(Pow2(n), i requires 0 <= i < Pow2(n) =>
      seq(n, j requires 0 <= j < n => SampledEntry(n, rand, i, j)))
  }

  /** The contents of a matrix held in a two-dimensional array, row by row. */
  function Grid(F: array2<int>): (g: seq<seq<int>>)
    reads F
    ensures |g| == F.Length0
    ensures forall i :: 0 <= i < |g| ==> |g[i]| == F.Length1
    ensures forall i, j :: 0 <= i < F.Length0 && 0 <= j < F.Length1 ==> g[i][j] == F[i, j]
  {
    seq(F.Length0, i requires 0 <= i < F.Length0 reads F =>
      seq(F.Length1, j requires 0 <= j < F.Length1 reads F => F[i, j]))
  }

  /** Every row of `g` has `n` entries. */
  predicate IsMatrix(g: seq<seq<int>>, n: nat)
  {
    forall i :: 0 <= i < |g| ==> |g[i]| == n
  }

  /** Column `c` of `g`: `F.col(c)`. */
  function Column(g: seq<seq<int>>, c: nat): (col: seq<int>)
    requires forall i :: 0 <= i < |g| ==> c < |g[i]|
    ensures |col| == |g|
    ensures forall i :: 0 <= i < |g| ==> col[i] == g[i][c]
  {
    seq(|g|, i requires 0 <= i < |g| => g[i][c])
  }

  /** The truth table of the first of n variables: row i holds bit n-1 of i. */
  function TruthColumn(n: nat): (col: seq<int>)
    requires n >= 1
    ensures |col| == Pow2(n)
  {
    seq(Pow2(n), i requires 0 <= i < Pow2(n) => Bit(i, n - 1))
  }

  /** Number of entries equal to 1. */
  function CountOnes(s: seq<int>): nat
  {
    if s == [] then 0 else CountOnes(s[..|s| - 1]) + (if s[|s| - 1] == 1 then 1 else 0)
  }

  /** Fills the matrix of one attempt in place, row by row, column 0 from the
      row index and every other entry from the next draw modulo 2. */
  method SampleMatrix(n: nat, rand: seq<nat>) returns (F: array2<int>)
    requires 1 <= n && |rand| >= DrawsNeeded(n)
    ensures fresh(F)
    ensures F.Length0 == Pow2(n) && F.Length1 == n
    ensures forall i, j :: 0 <= i < Pow2(n) && 0 <= j < n ==> F[i, j] == SampledEntry(n, rand, i, j)
    ensures Grid(F) == SampledGrid(n, rand)
  {
    F := new int[Pow2(n), n];
    var next := 0;
    for i := 0 to F.Length0
      invariant next == i * (n - 1)
      invariant forall r, c :: 0 <= r < i && 0 <= c < n ==> F[r, c] == SampledEntry(n, rand, r, c)
    {
      F[i, 0] := Bit(i, n - 1);
      for j := 1 to n
        invariant next == i * (n - 1) + (j - 1)
        invariant F[i, 0] == Bit(i, n - 1)
        invariant forall c :: 1 <= c < j ==> F[i, c] == SampledEntry(n, rand, i, c)
        invariant forall r, c :: 0 <= r < i && 0 <= c < n ==> F[r, c] == SampledEntry(n, rand, r, c)
      {
        DrawIndexInRange(n, i, j);
        F[i, j] := rand[next] % 2;
        next := next + 1;
      }
    }
    var g, h := Grid(F), SampledGrid(n, rand);
    assert |g| == |h|;
    forall i | 0 <= i < |g|
      ensures g[i] == h[i]
    {
      assert |g[i]| == |h[i]|;
    }
  }

  /** Column 0 of every sampled matrix is the truth table of the first variable. */
  lemma SampledColumnZero(n: nat, rand: seq<nat>)
    requires 1 <= n && |rand| >= DrawsNeeded(n)
    ensures Column(SampledGrid(n, rand), 0) == TruthColumn(n)
  {
  }

  /** The truth table of the first variable is 0 in the lower half of the rows
      and 1 in the upper half, so it has exactly 2^(n-1) ones. */
  lemma TruthColumnOnes(n: nat)
    requires n >= 1
    ensures forall i :: 0 <= i < Pow2(n) ==> TruthColumn(n)[i] == (if i >= Pow2(n - 1) then 1 else 0)
    ensures CountOnes(TruthColumn(n)) == Pow2(n - 1)
  {
    var col := TruthColumn(n);
    forall i | 0 <= i < Pow2(n)
      ensures col[i] == (if i >= Pow2(n - 1) then 1 else 0)
    {
      TopBit(i, n - 1);
    }
    CountPrefix(col, Pow2(n - 1), Pow2(n));
    assert col[..Pow2(n)] == col;
  }

  /** Counting the ones of a column that is 0 below `half` and 1 from there on. */
  lemma {:induction false} CountPrefix(col: seq<int>, half: nat, k: nat)
    requires k <= |col|
    requires forall i :: 0 <= i < |col| ==> col[i] == (if i >= half then 1 else 0)
    ensures CountOnes(col[..k]) == if k <= half then 0 else k - half
  {
    if k > 0 {
      CountPrefix(col, half, k - 1);
      assert col[..k][..k - 1] == col[..k - 1];
    }
  }

  /** The sign `MBAIdentity` gives a column: +1 for a positive solution entry,
      -1 otherwise (zero included). */
  function SignOf(x: real): (s: int)
    ensures s == 1 || s == -1
    ensures s == 1 <==> x > 0.0
  {
    if x > 0.0 then 1 else -1
  }

  /** The signs of the first `n` entries of the solution vector. */
  function Signs(sol: seq<real>, n: nat): (s: seq<int>)
    requires |sol| >= n
    ensures IsSignVector(s, n)
    ensures forall j :: 0 <= j < n ==> (s[j] == 1 <==> sol[j] > 0.0)
  {
    seq(n, j requires 0 <= j < n => SignOf(sol[j]))
  }

  /** `s` has `n` entries, each +1 or -1. */
  predicate IsSignVector(s: seq<int>, n: nat)
  {
    |s| == n && forall j :: 0 <= j < n ==> s[j] == 1 || s[j] == -1
  }

  /** Integer dot product of the first k entries of a row with a sign vector. */
  function DotPrefix(row: seq<int>, s: seq<int>, k: nat): int
    requires k <= |row| && k <= |s|
  {
    if k == 0 then 0 else DotPrefix(row, s, k - 1) + row[k - 1] * s[k - 1]
  }

  /** Integer dot product of a row with a sign vector. */
  function RowDot(row: seq<int>, s: seq<int>): int
    requires |row| == |s|
  {
    DotPrefix(row, s, |row|)
  }

  /** Every row of `g` has integer dot product 0 with `s`. */
  predicate Annihilates(g: seq<seq<int>>, s: seq<int>)
  {
    forall i :: 0 <= i < |g| ==> |g[i]| == |s| && RowDot(g[i], s) == 0
  }

  /** One iteration of the resampling loop: the draws that fill the random
      columns, and the basis `arma::null` returned for that matrix, one
      sequence per basis vector. */
  datatype Attempt = Attempt(draws: seq<nat>, nullBasis: seq<seq<real>>)

  /** `arma::vectorise`: the basis vectors one after the other. */
  function Vectorise(basis: seq<seq<real>>): (v: seq<real>)
    ensures |basis| > 0 ==> |v| >= |basis[0]|
    ensures |basis| > 0 ==> v[..|basis[0]|] == basis[0]
  {
    if basis == [] then [] else basis[0] + Vectorise(basis[1..])
  }

  /** Within 0.01 of zero: the `has_zero` test. */
  predicate NearZero(x: real)
  {
    -0.01 < x < 0.01
  }

  /** Whether any entry of the solutions is within 0.01 of zero. */
  method HasNearZero(values: seq<real>) returns (hasZero: bool)
    ensures hasZero <==> exists k :: 0 <= k < |values| && NearZero(values[k])
  {
    hasZero := false;
    for k := 0 to |values|
      invariant hasZero <==> exists i :: 0 <= i < k && NearZero(values[i])
    {
      if NearZero(values[k]) {
        hasZero := true;
      }
    }
  }

  /** An attempt ends the loop when the null space is not empty and no entry
      of its basis is near zero. */
  predicate Accepted(att: Attempt)
  {
    var v := Vectorise(att.nullBasis);
    |att.nullBasis| > 0 && forall k :: 0 <= k < |v| ==> !NearZero(v[k])
  }

  /** The index of the first accepted attempt, if any. */
  function FirstAccepted(attempts: seq<Attempt>): (r: Option<nat>)
    ensures r.Some? ==> r.value < |attempts| && Accepted(attempts[r.value])
    ensures r.Some? ==> forall k :: 0 <= k < r.value ==> !Accepted(attempts[k])
    ensures r.None? ==> forall k :: 0 <= k < |attempts| ==> !Accepted(attempts[k])
  {
    if attempts == [] then None
    else
      match FirstAccepted(attempts[..|attempts| - 1])
      case Some(k) => Some(k)
      case None => if Accepted(attempts[|attempts| - 1]) then Some(|attempts| - 1) else None
  }

  /** Every attempt supplies enough draws for an n-variable matrix and a null
      space basis of vectors of length n. */
  predicate WellFormedAttempts(n: nat, attempts: seq<Attempt>)
  {
    forall k :: 0 <= k < |attempts| ==>
      |attempts[k].draws| >= DrawsNeeded(n) &&
      forall c :: 0 <= c < |attempts[k].nullBasis| ==> |attempts[k].nullBasis[c]| == n
  }

  /** The resampling loop of `GenerateSolution`, run over the given attempts:
      the matrix and vectorised null-space basis of the first accepted one. */
  method GenerateSolution(n: nat, attempts: seq<Attempt>) returns (result: Option<(array2<int>, seq<real>)>)
    requires 1 <= n && WellFormedAttempts(n, attempts)
    ensures result.None? <==> FirstAccepted(attempts).None?
    ensures result.Some? ==>
      var k := FirstAccepted(attempts).value;
      fresh(result.value.0) &&
      result.value.0.Length0 == Pow2(n) && result.value.0.Length1 == n &&
      Grid(result.value.0) == SampledGrid(n, attempts[k].draws) &&
      result.value.1 == Vectorise(attempts[k].nullBasis) &&
      |result.value.1| >= n
  {
    result := None;
    var k := 0;
    while k < |attempts|
      invariant k <= |attempts|
      invariant forall i :: 0 <= i < k ==> !Accepted(attempts[i])
    {
      var F := SampleMatrix(n, attempts[k].draws);
      var solutions := attempts[k].nullBasis;
      if |solutions| == 0 {
        k := k + 1;
        continue;
      }
      var hasZero := HasNearZero(Vectorise(solutions));
      if !hasZero {
        assert FirstAccepted(attempts) == Some(k) by {
          FirstAcceptedIs(attempts, k);
        }
        return Some((F, Vectorise(solutions)));
      }
      k := k + 1;
    }
  }

  /** The first accepted attempt is the accepted one with no accepted one before it. */
  lemma FirstAcceptedIs(attempts: seq<Attempt>, k: nat)
    requires k < |attempts| && Accepted(attempts[k])
    requires forall i :: 0 <= i < k ==> !Accepted(attempts[i])
    ensures FirstAccepted(attempts) == Some(k)
  {
  }
}
