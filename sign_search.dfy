/** Exact search for the signs of a zero identity, replacing the rounded
    floating-point null-space vector: the candidates are the 2^n vectors
    over {-1, +1}, candidate c giving column j the sign selected by bit j of
    c, and a candidate is taken when every row's integer dot product with it
    is 0. */
module SignSearch {
  import opened Arith
  import opened Wrappers
  import opened MbaExpr
  import opened ZeroMatrix
  import opened Identity

  /** Candidate c: +1 for column j when bit j of c is set, -1 when it is clear. */
  function SignsOfIndex(c: nat, n: nat): (s: seq<int>)
    ensures IsSignVector(s, n)
  {
    if n == 0 then [] else [if c % 2 == 1 then 1 else -1] + SignsOfIndex(c / 2, n - 1)
  }

  /** The candidate number of a sign vector. */
  function IndexOfSigns(s: seq<int>): (c: nat)
    ensures c < Pow2(|s|)
  {
    if s == [] then 0 else (if s[0] == 1 then 1 else 0) + 2 * IndexOfSigns(s[1..])
  }

  /** Every sign vector is one of the candidates: the one its number selects. */
  lemma {:induction false} IndexOfSignsRoundTrip(s: seq<int>)
    requires IsSignVector(s, |s|)
    ensures SignsOfIndex(IndexOfSigns(s), |s|) == s
  {
    if s != [] {
      var rest := s[1..];
      assert IsSignVector(rest, |rest|) by {
        forall j | 0 <= j < |rest|
          ensures rest[j] == 1 || rest[j] == -1
        {
          assert rest[j] == s[j + 1];
        }
      }
      IndexOfSignsRoundTrip(rest);
      var c := IndexOfSigns(s);
      assert c % 2 == (if s[0] == 1 then 1 else 0) && c / 2 == IndexOfSigns(rest);
      assert s == [s[0]] + rest;
    }
  }

  /** Some sign vector gives every row of `g` a dot product of 0. */
  ghost predicate Solvable(g: seq<seq<int>>, n: nat)
  {
    exists s :: IsSignVector(s, n) && Annihilates(g, s)
  }

  /** Tries the candidates in increasing order and returns the first whose
      integer dot product with every row is 0, or none when no sign vector
      annihilates `g`. */
  method FindSigns(g: seq<seq<int>>, n: nat) returns (signs: Option<seq<int>>)
    requires IsMatrix(g, n)
    ensures signs.Some? ==> IsSignVector(signs.value, n) && Annihilates(g, signs.value)
    ensures signs.Some? ==> exists c :: (0 <= c < Pow2(n) && signs.value == SignsOfIndex(c, n) &&
                                         forall d :: 0 <= d < c ==> !Annihilates(g, SignsOfIndex(d, n)))
    ensures signs.None? <==> !Solvable(g, n)
  {
    for c := 0 to Pow2(n)
      invariant forall d :: 0 <= d < c ==> !Annihilates(g, SignsOfIndex(d, n))
    {
      var candidate := SignsOfIndex(c, n);
      if Annihilates(g, candidate) {
        return Some(candidate);
      }
    }
    forall s | IsSignVector(s, n)
      ensures !Annihilates(g, s)
    {
      IndexOfSignsRoundTrip(s);
    }
    return None;
  }

  /** An attempt succeeds when every column of its matrix has a 1 and some
      sign vector annihilates the matrix. */
  ghost predicate Usable(n: nat, draws: seq<nat>)
    requires 1 <= n && |draws| >= DrawsNeeded(n)
  {
    var g := SampledGrid(n, draws);
    EveryColumnHasOne(g, n) && Solvable(g, n)
  }

  /** The generate-and-test loop with exact signs and a bound on attempts:
      samples a matrix from each draw sequence in turn, resamples when a
      column has no 1 or no sign vector annihilates the matrix, and folds the
      first usable one. */
  method GenerateZeroIdentity(n: nat, draws: seq<seq<nat>>) returns (res: Result<Expr, Failure>)
    requires 1 <= n
    requires forall k :: 0 <= k < |draws| ==> |draws[k]| >= DrawsNeeded(n)
    ensures res.Ok? ==> Scoped(res.value, n)
    ensures res.Ok? ==> forall env: seq<int>, w: nat | |env| == n :: Eval(res.value, env, w) == 0
    ensures res.Ok? ==> exists k, s :: (0 <= k < |draws| && Usable(n, draws[k]) &&
                                       (forall i :: 0 <= i < k ==> !Usable(n, draws[i])) &&
                                       IsSignVector(s, n) && Annihilates(SampledGrid(n, draws[k]), s) &&
                                       res.value == Assemble(Terms(SampledGrid(n, draws[k]), n), s, n))
    ensures res.Err? ==> res.error == NoAttemptAccepted
    ensures res.Err? <==> forall k :: 0 <= k < |draws| ==> !Usable(n, draws[k])
  {
    for k := 0 to |draws|
      invariant forall i :: 0 <= i < k ==> !Usable(n, draws[i])
    {
      var F := SampleMatrix(n, draws[k]);
      if EveryColumnHasOne(Grid(F), n) {
        var signs := FindSigns(Grid(F), n);
        if signs.Some? {
          var s := signs.value;
          var sol := seq(n, j requires 0 <= j < n => s[j] as real);
          assert Signs(sol, n) == s;
          ArrayColumnsHaveOnes(F, n);
          var r := MBAIdentity(n, F, sol);
          return Ok(r);
        }
      }
    }
    return Err(NoAttemptAccepted);
  }
}
