/** `TableToExpression`: a 0/1 column of a truth table over n variables
    becomes the OR of one minterm per row whose entry is 1. Variable 0 is the
    most significant bit of the row index. */
module SumOfProducts {
  import opened Arith
  import opened Wrappers
  import opened MbaExpr
  import opened ZeroMatrix

  /** The truth-table row an assignment of the variables selects: variable 0
      is the most significant bit, the last variable the least significant. */
  function RowIndex(a: seq<bool>): (i: nat)
    ensures i < Pow2(|a|)
  {
    if a == [] then 0 else 2 * RowIndex(a[..|a| - 1]) + Indicator(a[|a| - 1])
  }

  /** The literal for variable j in the minterm of row i: the variable when
      bit n-1-j of i is 1, its negation when it is 0. */
  function Literal(i: nat, n: nat, j: nat): (l: Expr)
    requires j < n
    ensures IsBoolean(l) && Scoped(l, n)
    ensures forall a: seq<bool> | |a| == n :: EvalBool(l, a) <==> a[j] == (Bit(i, n - 1 - j) == 1)
  {
    if Bit(i, n - 1 - j) == 0 then Not(Var(j)) else Var(j)
  }

  /** The conjunction of the literals for variables 0..k-1, and-ed from the
      left; none before the first literal. */
  function RowPrefix(i: nat, n: nat, k: nat): (r: Option<Expr>)
    requires k <= n
    ensures r.Some? <==> k > 0
    ensures r.Some? ==> IsBoolean(r.value) && Scoped(r.value, n)
  {
    if k == 0 then None
    else
      var cur := Literal(i, n, k - 1);
      var prev := RowPrefix(i, n, k - 1);
      if prev.None? then Some(cur) else Some(And(prev.value, cur))
  }

  /** The minterm of row i over all n variables. */
  function Minterm(i: nat, n: nat): (m: Expr)
    requires n >= 1
    ensures IsBoolean(m) && Scoped(m, n)
  {
    RowPrefix(i, n, n).value
  }

  /** The OR of the minterms of the rows below k whose entry is 1; none when
      there is no such row. */
  function SopPrefix(table: seq<int>, n: nat, k: nat): (r: Option<Expr>)
    requires n >= 1 && k <= |table|
    ensures r.None? <==> forall i :: 0 <= i < k ==> table[i] != 1
    ensures r.Some? ==> IsBoolean(r.value) && Scoped(r.value, n)
  {
    if k == 0 then None
    else
      var prev := SopPrefix(table, n, k - 1);
      if table[k - 1] == 1 then
        match prev
        case None => Some(Minterm(k - 1, n))
        case Some(e) => Some(Or(e, Minterm(k - 1, n)))
      else prev
  }

  /** The sum-of-products expression of a whole column. */
  function Sop(table: seq<int>, n: nat): (r: Option<Expr>)
    requires n >= 1
    ensures r.None? <==> 1 !in table
    ensures r.Some? ==> IsBoolean(r.value) && Scoped(r.value, n)
  {
    SopPrefix(table, n, |table|)
  }

  /** Builds the sum-of-products expression of `table` with one pass over the
      rows and, for each row whose entry is 1, one pass over the variables. */
  method TableToExpression(n: nat, table: seq<int>) returns (r: Option<Expr>)
    requires n >= 1
    ensures r == Sop(table, n)
    ensures r.None? <==> 1 !in table
    ensures r.Some? ==> IsBoolean(r.value) && Scoped(r.value, n)
    ensures r.Some? && |table| <= Pow2(n) ==>
      forall a: seq<bool> | |a| == n :: EvalBool(r.value, a) <==> RowIndex(a) < |table| && table[RowIndex(a)] == 1
  {
    var startExpr: Option<Expr> := None;
    for i := 0 to |table|
      invariant startExpr == SopPrefix(table, n, i)
    {
      if table[i] == 1 {
        var rowExpr: Option<Expr> := None;
        for j := 0 to n
          invariant rowExpr == RowPrefix(i, n, j)
        {
          var cur := if Bit(i, n - j - 1) == 0 then Not(Var(j)) else Var(j);
          rowExpr := if rowExpr.None? then Some(cur) else Some(And(rowExpr.value, cur));
        }
        startExpr := if startExpr.None? then rowExpr else Some(Or(startExpr.value, rowExpr.value));
      }
    }
    r := startExpr;
    if r.Some? && |table| <= Pow2(n) {
      forall a: seq<bool> | |a| == n
        ensures EvalBool(r.value, a) <==> RowIndex(a) < |table| && table[RowIndex(a)] == 1
      {
        SopFidelity(table, n, a);
      }
    }
  }

  /** The literals of row i for the variables below k are all true exactly when
      those variables spell out bits n-1 down to n-k of i. */
  lemma {:induction false} RowPrefixTrue(i: nat, n: nat, k: nat, a: seq<bool>)
    requires 1 <= k <= n && |a| == n
    ensures EvalBool(RowPrefix(i, n, k).value, a) <==>
      forall j :: 0 <= j < k ==> a[j] == (Bit(i, n - 1 - j) == 1)
  {
    var lit := Literal(i, n, k - 1);
    if k > 1 {
      RowPrefixTrue(i, n, k - 1, a);
      assert RowPrefix(i, n, k).value == And(RowPrefix(i, n, k - 1).value, lit);
    }
  }

  /** The variables below k spell out bits n-1 down to n-k of i exactly when
      the row index of their prefix is i shifted right by n-k. */
  lemma {:induction false} PrefixSpellsShift(i: nat, n: nat, k: nat, a: seq<bool>)
    requires i < Pow2(n) && k <= n && |a| == n
    ensures (forall j :: 0 <= j < k ==> a[j] == (Bit(i, n - 1 - j) == 1)) <==>
      RowIndex(a[..k]) == Shr(i, n - k)
  {
    if k == 0 {
      ShrIsDiv(i, n);
      DivModUnique(i, Pow2(n), 0, i);
      assert a[..0] == [];
    } else {
      PrefixSpellsShift(i, n, k - 1, a);
      assert a[..k][..k - 1] == a[..k - 1];
      assert Shr(i, n - k + 1) == Shr(i, n - k) / 2;
      assert Shr(i, n - k) == 2 * Shr(i, n - k + 1) + Bit(i, n - k);
    }
  }

  /** The minterm of row i is true exactly at the assignment that encodes i. */
  lemma MintermTrue(i: nat, n: nat, a: seq<bool>)
    requires 1 <= n && i < Pow2(n) && |a| == n
    ensures EvalBool(Minterm(i, n), a) <==> RowIndex(a) == i
  {
    RowPrefixTrue(i, n, n, a);
    PrefixSpellsShift(i, n, n, a);
    assert a[..n] == a;
  }

  /** The bits of the row index of an assignment are the assignment. */
  lemma RowIndexBits(a: seq<bool>)
    requires |a| >= 1
    ensures forall j :: 0 <= j < |a| ==> a[j] == (Bit(RowIndex(a), |a| - 1 - j) == 1)
  {
    var n := |a|;
    PrefixSpellsShift(RowIndex(a), n, n, a);
    assert a[..n] == a;
  }

  /** Sum-of-products fidelity on one boolean assignment: the expression of the
      rows below k is true exactly when the assignment encodes one of those
      rows and that row's entry is 1. */
  lemma {:induction false} SopPrefixTrue(table: seq<int>, n: nat, k: nat, a: seq<bool>)
    requires 1 <= n && k <= |table| <= Pow2(n) && |a| == n
    requires SopPrefix(table, n, k).Some?
    ensures EvalBool(SopPrefix(table, n, k).value, a) <==> RowIndex(a) < k && table[RowIndex(a)] == 1
  {
    var prev := SopPrefix(table, n, k - 1);
    if table[k - 1] == 1 {
      MintermTrue(k - 1, n, a);
      if prev.Some? {
        SopPrefixTrue(table, n, k - 1, a);
      }
    } else {
      SopPrefixTrue(table, n, k - 1, a);
    }
  }

  /** Sum-of-products fidelity: on any boolean assignment the expression of a
      column is the column's entry at the row the assignment encodes. */
  lemma SopFidelity(table: seq<int>, n: nat, a: seq<bool>)
    requires 1 <= n && |table| <= Pow2(n) && |a| == n
    requires Sop(table, n).Some?
    ensures EvalBool(Sop(table, n).value, a) <==> RowIndex(a) < |table| && table[RowIndex(a)] == 1
  {
    SopPrefixTrue(table, n, |table|, a);
  }

  /** The word a column denotes on `w`-bit variables: bit by bit, the column's
      entry at the row spelt by that bit of every variable. */
  function TableWord(table: seq<int>, env: seq<int>, w: nat): nat
    requires |table| == Pow2(|env|)
    decreases w
  {
    if w == 0 then 0
    else 2 * TableWord(table, High(env), w - 1) + Indicator(table[RowIndex(Low(env))] == 1)
  }

  /** Sum-of-products fidelity on words: at every bit position the expression
      of a full column picks the column's entry at the row spelt by the
      variables' bits at that position. */
  lemma {:induction false} SopWordFidelity(table: seq<int>, env: seq<int>, w: nat)
    requires 1 <= |env| && |table| == Pow2(|env|)
    requires Sop(table, |env|).Some?
    ensures Eval(Sop(table, |env|).value, env, w) == TableWord(table, env, w)
    decreases w
  {
    if w >= 1 {
      var e := Sop(table, |env|).value;
      BoolSplit(e, env, w);
      SopFidelity(table, |env|, Low(env));
      SopWordFidelity(table, High(env), w - 1);
    }
  }

  /** The expression of the truth-table column is the first variable: true
      exactly when variable 0 is true, and on words equal to variable 0. */
  lemma TruthColumnIsFirstVariable(n: nat, env: seq<int>, w: nat)
    requires n >= 1 && |env| == n
    ensures Sop(TruthColumn(n), n).Some?
    ensures forall a: seq<bool> | |a| == n :: EvalBool(Sop(TruthColumn(n), n).value, a) == a[0]
    ensures Eval(Sop(TruthColumn(n), n).value, env, w) == env[0] % Pow2(w)
  {
    var col := TruthColumn(n);
    TruthColumnOnes(n);
    assert col[Pow2(n) - 1] == 1;
    var e := Sop(col, n).value;
    forall a: seq<bool> | |a| == n
      ensures EvalBool(e, a) == a[0]
    {
      SopFidelity(col, n, a);
      RowIndexBits(a);
    }
    BoolEquivOnWords(e, Var(0), env, w);
  }
}
