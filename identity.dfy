/** `MBAIdentity` and `GenerateRandomMBAIdentity`: the per-column
    sum-of-products expressions folded into `s_0 * col_0 (+|-) col_1 ...`,
    its value on words, and the zero identity it is when the signs
    annihilate the matrix. */
module Identity {
  import opened Arith
  import opened Wrappers
  import opened MbaExpr
  import opened ZeroMatrix
  import opened SumOfProducts

  /** Every entry of `g` is 0 or 1. */
  predicate ZeroOne(g: seq<seq<int>>)
  {
    forall i, j :: 0 <= i < |g| && 0 <= j < |g[i]| ==> g[i][j] == 0 || g[i][j] == 1
  }

  /** Column c of `g` has an entry equal to 1. */
  predicate ColumnHasOne(g: seq<seq<int>>, c: nat)
    requires forall i :: 0 <= i < |g| ==> c < |g[i]|
  {
    exists i :: 0 <= i < |g| && g[i][c] == 1
  }

  /** Every one of the first n columns of `g` has an entry equal to 1, so
      that `TableToExpression` returns an expression for each. */
  predicate EveryColumnHasOne(g: seq<seq<int>>, n: nat)
    requires IsMatrix(g, n)
  {
    forall c :: 0 <= c < n ==> ColumnHasOne(g, c)
  }

  /** A column has a sum-of-products expression exactly when it has a 1. */
  lemma ColumnSopExists(g: seq<seq<int>>, n: nat, c: nat)
    requires n >= 1 && IsMatrix(g, n) && c < n
    ensures Sop(Column(g, c), n).Some? <==> ColumnHasOne(g, c)
  {
    var col := Column(g, c);
    if ColumnHasOne(g, c) {
      var i :| 0 <= i < |g| && g[i][c] == 1;
      assert col[i] == 1;
    }
  }

  /** The sum-of-products expression of column c of `g`. */
  function ColumnTerm(g: seq<seq<int>>, n: nat, c: nat): (t: Expr)
    requires n >= 1 && IsMatrix(g, n) && c < n && ColumnHasOne(g, c)
    ensures Sop(Column(g, c), n) == Some(t)
    ensures IsBoolean(t) && Scoped(t, n)
  {
    ColumnSopExists(g, n, c);
    Sop(Column(g, c), n).value
  }

  /** The sum-of-products expression of every column of `g`. */
  function Terms(g: seq<seq<int>>, n: nat): (t: seq<Expr>)
    requires n >= 1 && IsMatrix(g, n) && EveryColumnHasOne(g, n)
    ensures |t| == n
    ensures forall c :: 0 <= c < n ==> t[c] == ColumnTerm(g, n, c)
    ensures AllScoped(t, n)
  {
    seq(n, c requires 0 <= c < n => ColumnTerm(g, n, c))
  }

  /** Every term mentions only the first n variables. */
  predicate AllScoped(terms: seq<Expr>, n: nat)
  {
    forall c :: 0 <= c < |terms| ==> Scoped(terms[c], n)
  }

  /** The fold of the first k terms: the first multiplied by the constant of
      its sign, each later one added under sign +1 and subtracted otherwise. */
  function Assemble(terms: seq<Expr>, signs: seq<int>, k: nat): (e: Expr)
    requires 1 <= k <= |terms| && k <= |signs|
  {
    if k == 1 then Mul(terms[0], Const(signs[0]))
    else
      var acc := Assemble(terms, signs, k - 1);
      if signs[k - 1] > 0 then Add(acc, terms[k - 1]) else Sub(acc, terms[k - 1])
  }

  /** The fold mentions no variable its terms do not: when every term uses
      only the first m variables, so does the fold of the first k terms. */
  lemma {:induction false} AssembleScoped(terms: seq<Expr>, signs: seq<int>, k: nat, m: nat)
    requires 1 <= k <= |terms| && k <= |signs| && AllScoped(terms, m)
    ensures Scoped(Assemble(terms, signs, k), m)
  {
    assert Scoped(terms[k - 1], m);
    if k > 1 {
      AssembleScoped(terms, signs, k - 1, m);
    }
  }

  /** The integer sum of the first k terms' word values, each times its sign. */
  function SignedSum(terms: seq<Expr>, signs: seq<int>, env: seq<int>, w: nat, k: nat): int
    requires k <= |terms| && k <= |signs| && AllScoped(terms, |env|)
  {
    if k == 0 then 0
    else SignedSum(terms, signs, env, w, k - 1) + signs[k - 1] * Eval(terms[k - 1], env, w)
  }

  /** The assembled expression is the signed sum of its terms modulo 2^w.
      The first sign may be any integer, since it only enters as the
      constant of the `Mul`; every later one is +1 or -1. */
  lemma {:induction false} AssembleValue(terms: seq<Expr>, signs: seq<int>, env: seq<int>, w: nat, k: nat)
    requires 1 <= k <= |terms| == |signs| && AllScoped(terms, |env|)
    requires forall j :: 1 <= j < |signs| ==> signs[j] == 1 || signs[j] == -1
    ensures Scoped(Assemble(terms, signs, k), |env|)
    ensures Eval(Assemble(terms, signs, k), env, w) == SignedSum(terms, signs, env, w, k) % Pow2(w)
  {
    var m := Pow2(w);
    var e := Assemble(terms, signs, k);
    assert Scoped(terms[k - 1], |env|);
    var x := Eval(terms[k - 1], env, w);
    if k == 1 {
      assert Eval(e, env, w) == (x * (signs[0] % m)) % m;
      assert SignedSum(terms, signs, env, w, 1) == signs[0] * x;
      ModMulRight(x, signs[0], m);
    } else {
      AssembleValue(terms, signs, env, w, k - 1);
      var acc := Assemble(terms, signs, k - 1);
      FoldStep(Eval(acc, env, w), SignedSum(terms, signs, env, w, k - 1), signs[k - 1], x, m);
    }
  }

  /** One step of the fold: adding or subtracting the next term's word keeps
      the running value equal to the signed sum modulo the word size. */
  lemma FoldStep(acc: int, s: int, sign: int, x: int, m: int)
    requires m > 0 && acc == s % m && (sign == 1 || sign == -1)
    ensures (if sign > 0 then (acc + x) % m else (acc - x) % m) == (s + sign * x) % m
  {
    if sign > 0 {
      assert sign * x == x;
      ModAddLeft(s, x, m);
    } else {
      assert sign * x == -x;
      ModSubLeft(s, x, m);
    }
  }

  /** The per-bit value of the signed column sum: at each bit position, the
      dot product of the signs with the row the variables' bits spell. */
  function BitSum(g: seq<seq<int>>, signs: seq<int>, env: seq<int>, w: nat): int
    requires |g| == Pow2(|env|) && IsMatrix(g, |signs|)
    decreases w
  {
    if w == 0 then 0
    else 2 * BitSum(g, signs, High(env), w - 1) + RowDot(g[RowIndex(Low(env))], signs)
  }

  /** The first k columns' words, each times its sign, summed. */
  function ColumnWords(g: seq<seq<int>>, signs: seq<int>, env: seq<int>, w: nat, k: nat): int
    requires |g| == Pow2(|env|) && IsMatrix(g, |signs|) && k <= |signs|
  {
    if k == 0 then 0
    else ColumnWords(g, signs, env, w, k - 1) + signs[k - 1] * TableWord(Column(g, k - 1), env, w)
  }

  /** Splitting off the lowest bit of every column word splits off the row
      dot product at the row the variables' lowest bits spell. */
  lemma {:induction false} ColumnWordsSplit(g: seq<seq<int>>, signs: seq<int>, env: seq<int>, w: nat, k: nat)
    requires |g| == Pow2(|env|) && IsMatrix(g, |signs|) && ZeroOne(g) && k <= |signs| && w >= 1
    ensures ColumnWords(g, signs, env, w, k) ==
      2 * ColumnWords(g, signs, High(env), w - 1, k) + DotPrefix(g[RowIndex(Low(env))], signs, k)
  {
    if k > 0 {
      ColumnWordsSplit(g, signs, env, w, k - 1);
      var r := RowIndex(Low(env));
      var col, sign := Column(g, k - 1), signs[k - 1];
      assert col[r] == g[r][k - 1];
      var hi := TableWord(col, High(env), w - 1);
      var bit := Indicator(col[r] == 1);
      assert bit == g[r][k - 1];
      assert TableWord(col, env, w) == 2 * hi + bit;
      ScaleSplit(sign, hi, bit);
      assert DotPrefix(g[r], signs, k) == DotPrefix(g[r], signs, k - 1) + g[r][k - 1] * sign;
      assert ColumnWords(g, signs, High(env), w - 1, k) == ColumnWords(g, signs, High(env), w - 1, k - 1) + sign * hi;
    }
  }

  /** A signed word split into its upper bits and lowest bit. */
  lemma ScaleSplit(s: int, h: int, b: int)
    ensures s * (2 * h + b) == 2 * (s * h) + b * s
  {
  }

  /** The signed sum of the column words is the per-bit sum of row dot products. */
  lemma {:induction false} ColumnWordsIsBitSum(g: seq<seq<int>>, signs: seq<int>, env: seq<int>, w: nat)
    requires |g| == Pow2(|env|) && IsMatrix(g, |signs|) && ZeroOne(g)
    ensures ColumnWords(g, signs, env, w, |signs|) == BitSum(g, signs, env, w)
    decreases w
  {
    if w >= 1 {
      ColumnWordsSplit(g, signs, env, w, |signs|);
      ColumnWordsIsBitSum(g, signs, High(env), w - 1);
      var r := RowIndex(Low(env));
      assert r < |g| && |g[r]| == |signs|;
      assert RowDot(g[r], signs) == DotPrefix(g[r], signs, |signs|);
      assert BitSum(g, signs, env, w) == 2 * BitSum(g, signs, High(env), w - 1) + RowDot(g[r], signs);
    } else {
      ColumnWordsEmpty(g, signs, env, |signs|);
    }
  }

  /** Words of width 0 are all 0, and so is their signed sum. */
  lemma {:induction false} ColumnWordsEmpty(g: seq<seq<int>>, signs: seq<int>, env: seq<int>, k: nat)
    requires |g| == Pow2(|env|) && IsMatrix(g, |signs|) && k <= |signs|
    ensures ColumnWords(g, signs, env, 0, k) == 0
  {
    if k > 0 {
      ColumnWordsEmpty(g, signs, env, k - 1);
    }
  }

  /** Each term's word is its column's word, so the signed sums agree. */
  lemma {:induction false} SignedSumIsColumnWords(g: seq<seq<int>>, signs: seq<int>, env: seq<int>, w: nat, k: nat)
    requires |env| >= 1 && |g| == Pow2(|env|) && IsMatrix(g, |env|) && EveryColumnHasOne(g, |env|)
    requires |signs| == |env| && k <= |env|
    ensures SignedSum(Terms(g, |env|), signs, env, w, k) == ColumnWords(g, signs, env, w, k)
  {
    if k > 0 {
      SignedSumIsColumnWords(g, signs, env, w, k - 1);
      assert ColumnHasOne(g, k - 1);
      assert Terms(g, |env|)[k - 1] == ColumnTerm(g, |env|, k - 1);
      SopWordFidelity(Column(g, k - 1), env, w);
    }
  }

  /** Value of the assembled identity: the per-bit sum of the row dot products
      with the signs, modulo 2^w. */
  lemma {:induction false} IdentityValue(g: seq<seq<int>>, signs: seq<int>, env: seq<int>, w: nat)
    requires |env| >= 1 && |g| == Pow2(|env|) && IsMatrix(g, |env|) && ZeroOne(g)
    requires EveryColumnHasOne(g, |env|) && IsSignVector(signs, |env|)
    ensures Scoped(Assemble(Terms(g, |env|), signs, |env|), |env|)
    ensures Eval(Assemble(Terms(g, |env|), signs, |env|), env, w) == BitSum(g, signs, env, w) % Pow2(w)
  {
    var n := |env|;
    AssembleValue(Terms(g, n), signs, env, w, n);
    SignedSumIsColumnWords(g, signs, env, w, n);
    ColumnWordsIsBitSum(g, signs, env, w);
  }

  /** When the signs annihilate every row, every per-bit term vanishes. */
  lemma {:induction false} BitSumZero(g: seq<seq<int>>, signs: seq<int>, env: seq<int>, w: nat)
    requires |g| == Pow2(|env|) && IsMatrix(g, |signs|) && Annihilates(g, signs)
    ensures BitSum(g, signs, env, w) == 0
    decreases w
  {
    if w >= 1 {
      BitSumZero(g, signs, High(env), w - 1);
    }
  }

  /** Zero modulo anything positive is zero. */
  lemma ZeroMod(m: int)
    requires m > 0
    ensures 0 % m == 0
  {
  }

  /** The zero identity: when the +/-1 signs give every row of the matrix an
      integer dot product of 0, the assembled expression is 0 on every
      assignment of the variables at every word width. */
  lemma {:induction false} ZeroIdentity(g: seq<seq<int>>, signs: seq<int>, env: seq<int>, w: nat)
    requires |env| >= 1 && |g| == Pow2(|env|) && IsMatrix(g, |env|) && ZeroOne(g)
    requires EveryColumnHasOne(g, |env|) && IsSignVector(signs, |env|) && Annihilates(g, signs)
    ensures Scoped(Assemble(Terms(g, |env|), signs, |env|), |env|)
    ensures Eval(Assemble(Terms(g, |env|), signs, |env|), env, w) == 0
  {
    var e := Assemble(Terms(g, |env|), signs, |env|);
    IdentityValue(g, signs, env, w);
    BitSumZero(g, signs, env, w);
    ZeroMod(Pow2(w));
    assert Eval(e, env, w) == 0 % Pow2(w);
  }

  /** The assignment of row r: variable j has every bit equal to bit n-1-j
      of r, that is, it is -1 (all ones) or 0. */
  function RowEnv(r: nat, n: nat): (env: seq<int>)
    ensures |env| == n
    ensures forall j :: 0 <= j < n ==> env[j] == -1 || env[j] == 0
  {
    seq(n, j requires 0 <= j < n => if Bit(r, n - 1 - j) == 1 then -1 else 0)
  }

  /** Every bit position of the assignment of row r selects row r, and
      shifting its variables right leaves them unchanged. */
  lemma RowEnvBits(r: nat, n: nat)
    requires r < Pow2(n)
    ensures High(RowEnv(r, n)) == RowEnv(r, n)
    ensures RowIndex(Low(RowEnv(r, n))) == r
  {
    var env := RowEnv(r, n);
    var a := Low(env);
    forall j | 0 <= j < n
      ensures High(env)[j] == env[j] && a[j] == (Bit(r, n - 1 - j) == 1)
    {
    }
    assert High(env) == env;
    PrefixSpellsShift(r, n, n, a);
    assert a[..n] == a;
  }

  /** When every bit position selects the same row, the per-bit sum is that
      row's dot product times 2^w - 1. */
  lemma {:induction false} BitSumConstant(g: seq<seq<int>>, signs: seq<int>, env: seq<int>, w: nat)
    requires |g| == Pow2(|env|) && IsMatrix(g, |signs|) && High(env) == env
    ensures BitSum(g, signs, env, w) == RowDot(g[RowIndex(Low(env))], signs) * (Pow2(w) - 1)
    decreases w
  {
    if w > 0 {
      BitSumConstant(g, signs, env, w - 1);
      var d, p := RowDot(g[RowIndex(Low(env))], signs), Pow2(w - 1);
      assert BitSum(g, signs, env, w) == 2 * (d * (p - 1)) + d;
      ScaleSplit(d, p - 1, 1);
      assert d * (2 * (p - 1) + 1) == d * (2 * p - 1);
    }
  }

  /** At the assignment of row r the assembled identity is minus the dot
      product of row r with the signs, modulo 2^w. */
  lemma RowEnvValue(g: seq<seq<int>>, signs: seq<int>, r: nat, w: nat)
    requires |signs| >= 1 && |g| == Pow2(|signs|) && IsMatrix(g, |signs|) && ZeroOne(g)
    requires EveryColumnHasOne(g, |signs|) && IsSignVector(signs, |signs|) && r < |g|
    ensures Scoped(Assemble(Terms(g, |signs|), signs, |signs|), |signs|)
    ensures Eval(Assemble(Terms(g, |signs|), signs, |signs|), RowEnv(r, |signs|), w) ==
      (-RowDot(g[r], signs)) % Pow2(w)
  {
    var n := |signs|;
    var env := RowEnv(r, n);
    IdentityValue(g, signs, env, w);
    RowEnvBits(r, n);
    BitSumConstant(g, signs, env, w);
    ModMinusOne(RowDot(g[r], signs), Pow2(w));
  }

  /** A row whose dot product d with the signs is not 0 makes the assembled
      expression nonzero at the row's own assignment, on every width w with
      2^w > |d|. */
  lemma NonzeroAtRow(g: seq<seq<int>>, signs: seq<int>, r: nat, w: nat)
    requires |signs| >= 1 && |g| == Pow2(|signs|) && IsMatrix(g, |signs|) && ZeroOne(g)
    requires EveryColumnHasOne(g, |signs|) && IsSignVector(signs, |signs|)
    requires r < |g| && RowDot(g[r], signs) != 0
    requires Pow2(w) > (if RowDot(g[r], signs) < 0 then -RowDot(g[r], signs) else RowDot(g[r], signs))
    ensures Scoped(Assemble(Terms(g, |signs|), signs, |signs|), |signs|)
    ensures Eval(Assemble(Terms(g, |signs|), signs, |signs|), RowEnv(r, |signs|), w) != 0
  {
    RowEnvValue(g, signs, r, w);
    ModSmallNonzero(-RowDot(g[r], signs), Pow2(w));
  }

  /** The assembled expression is 0 at every assignment and every width
      exactly when the signs give every row a dot product of 0. */
  lemma ZeroExactlyWhenAnnihilated(g: seq<seq<int>>, signs: seq<int>)
    requires |signs| >= 1 && |g| == Pow2(|signs|) && IsMatrix(g, |signs|) && ZeroOne(g)
    requires EveryColumnHasOne(g, |signs|) && IsSignVector(signs, |signs|)
    ensures Scoped(Assemble(Terms(g, |signs|), signs, |signs|), |signs|)
    ensures (forall env: seq<int>, w: nat | |env| == |signs| ::
               Eval(Assemble(Terms(g, |signs|), signs, |signs|), env, w) == 0)
            <==> Annihilates(g, signs)
  {
    var n := |signs|;
    AssembledFacts(g, signs, n);
    if !Annihilates(g, signs) {
      var r :| 0 <= r < |g| && |g[r]| == n && RowDot(g[r], signs) != 0;
      var d := RowDot(g[r], signs);
      var w: nat := if d < 0 then -d else d;
      Pow2Above(w);
      NonzeroAtRow(g, signs, r, w);
      assert |RowEnv(r, n)| == n;
    }
  }

  /** Column c of the array `F` has an entry equal to 1. */
  predicate ArrayColumnHasOne(F: array2<int>, c: nat)
    reads F
  {
    exists i :: 0 <= i < F.Length0 && c < F.Length1 && F[i, c] == 1
  }

  /** The array has a 1 in every column exactly when its matrix does. */
  lemma ArrayColumnsHaveOnes(F: array2<int>, n: nat)
    requires F.Length1 == n
    ensures EveryColumnHasOne(Grid(F), n) <==> forall c :: 0 <= c < n ==> ArrayColumnHasOne(F, c)
  {
    var g := Grid(F);
    forall c | 0 <= c < n
      ensures ColumnHasOne(g, c) <==> ArrayColumnHasOne(F, c)
    {
      if ArrayColumnHasOne(F, c) {
        var i :| 0 <= i < F.Length0 && c < F.Length1 && F[i, c] == 1;
        assert g[i][c] == 1;
      }
      if ColumnHasOne(g, c) {
        var i :| 0 <= i < |g| && g[i][c] == 1;
        assert F[i, c] == 1;
      }
    }
  }

  /** `e` mentions only the first n variables, and on every assignment and
      width its value is the per-bit signed row sum of `g` under `signs`. */
  ghost predicate ComputesBitSum(e: Expr, g: seq<seq<int>>, signs: seq<int>, n: nat)
  {
    Scoped(e, n) && |g| == Pow2(n) && IsMatrix(g, |signs|) &&
    forall env: seq<int>, w: nat | |env| == n :: Eval(e, env, w) == BitSum(g, signs, env, w) % Pow2(w)
  }

  /** `e` mentions only the first n variables and is 0 on every assignment
      and width. */
  ghost predicate ZeroEverywhere(e: Expr, n: nat)
  {
    Scoped(e, n) && forall env: seq<int>, w: nat | |env| == n :: Eval(e, env, w) == 0
  }

  /** Each column's formula, as the builder returns it, is that column's term. */
  lemma TermsAreColumnForms(g: seq<seq<int>>, n: nat)
    requires n >= 1 && IsMatrix(g, n) && EveryColumnHasOne(g, n)
    ensures forall c :: 0 <= c < n ==> Sop(Column(g, c), n) == Some(Terms(g, n)[c])
  {
  }

  /** One more column extends the fold: the first is multiplied by its sign,
      a later one added under +1 and subtracted under -1. */
  lemma AssembleNext(terms: seq<Expr>, signs: seq<int>, i: nat)
    requires i < |terms| && i < |signs|
    ensures Assemble(terms, signs, i + 1) ==
      if i == 0 then Mul(terms[0], Const(signs[0]))
      else if signs[i] > 0 then Add(Assemble(terms, signs, i), terms[i])
      else Sub(Assemble(terms, signs, i), terms[i])
  {
  }

  /** The scalar of column c is +1 when its solution entry is positive and
      -1 otherwise. */
  lemma SignAt(sol: seq<real>, n: nat, c: nat)
    requires c < n <= |sol|
    ensures Signs(sol, n)[c] == if sol[c] > 0.0 then 1 else -1
  {
  }

  /** The formula `TableToExpression` builds for column c of `F`, when the
      column has one. */
  method ColumnForm(n: nat, F: array2<int>, c: nat) returns (t: Expr)
    requires 1 <= n && c < F.Length1 && Sop(Column(Grid(F), c), n).Some?
    ensures Sop(Column(Grid(F), c), n) == Some(t)
  {
    var form := TableToExpression(n, Column(Grid(F), c));
    t := form.value;
  }

  /** The loop of `MBAIdentity`: builds each column's formula and folds it
      in, the first column times the constant of its sign, each later column
      added when its sign is +1 and subtracted when it is -1. `terms` names
      the formulas the builder returns. */
  method FoldColumns(n: nat, F: array2<int>, sol: seq<real>, ghost terms: seq<Expr>) returns (r: Expr)
    requires 1 <= n && F.Length1 == n && n <= |sol| && |terms| == n
    requires forall c {:trigger Column(Grid(F), c)} :: 0 <= c < n ==> Sop(Column(Grid(F), c), n) == Some(terms[c])
    ensures r == Assemble(terms, Signs(sol, n), n)
  {
    ghost var signs := Signs(sol, n);
    var start: Option<Expr> := None;
    for i := 0 to F.Length1
      invariant start == if i == 0 then None else Some(Assemble(terms, signs, i))
    {
      var colForm := ColumnForm(n, F, i);
      var scalar := if sol[i] > 0.0 then 1 else -1;
      SignAt(sol, n, i);
      AssembleNext(terms, signs, i);
      var res := if start.None? then Mul(colForm, Const(scalar)) else colForm;
      if start.None? {
        start := Some(res);
      } else if scalar > 0 {
        start := Some(Add(start.value, res));
      } else {
        start := Some(Sub(start.value, res));
      }
    }
    r := start.value;
  }

  /** Builds the identity of `F` and `sol`: the sign-weighted fold of the
      column formulas, whose value is the per-bit signed row sum, and which is
      0 everywhere when the signs annihilate every row. */
  method MBAIdentity(n: nat, F: array2<int>, sol: seq<real>) returns (r: Expr)
    requires 1 <= n && F.Length1 == n && n <= |sol|
    requires forall c :: 0 <= c < n ==> ArrayColumnHasOne(F, c)
    ensures EveryColumnHasOne(Grid(F), n)
    ensures r == Assemble(Terms(Grid(F), n), Signs(sol, n), n)
    ensures Scoped(r, n)
    ensures F.Length0 == Pow2(n) && ZeroOne(Grid(F)) ==> ComputesBitSum(r, Grid(F), Signs(sol, n), n)
    ensures F.Length0 == Pow2(n) && ZeroOne(Grid(F)) && Annihilates(Grid(F), Signs(sol, n)) ==>
      ZeroEverywhere(r, n)
  {
    ArrayColumnsHaveOnes(F, n);
    TermsAreColumnForms(Grid(F), n);
    r := FoldColumns(n, F, sol, Terms(Grid(F), n));
    AssembledFacts(Grid(F), Signs(sol, n), n);
  }

  /** The facts `MBAIdentity` promises about the fold of a matrix's columns:
      it mentions only the first n variables, its value is the per-bit signed
      column sum, and it is 0 everywhere when the signs annihilate the rows. */
  lemma AssembledFacts(g: seq<seq<int>>, signs: seq<int>, n: nat)
    requires 1 <= n && IsMatrix(g, n) && EveryColumnHasOne(g, n) && IsSignVector(signs, n)
    ensures Scoped(Assemble(Terms(g, n), signs, n), n)
    ensures |g| == Pow2(n) && ZeroOne(g) ==> ComputesBitSum(Assemble(Terms(g, n), signs, n), g, signs, n)
    ensures |g| == Pow2(n) && ZeroOne(g) && Annihilates(g, signs) ==>
      ZeroEverywhere(Assemble(Terms(g, n), signs, n), n)
  {
    var terms := Terms(g, n);
    AssembleScoped(terms, signs, n, n);
    if |g| == Pow2(n) && ZeroOne(g) {
      forall env: seq<int>, w: nat | |env| == n
        ensures Eval(Assemble(terms, signs, n), env, w) == BitSum(g, signs, env, w) % Pow2(w)
      {
        IdentityValue(g, signs, env, w);
      }
      if Annihilates(g, signs) {
        forall env: seq<int>, w: nat | |env| == n
          ensures Eval(Assemble(terms, signs, n), env, w) == 0
        {
          ZeroIdentity(g, signs, env, w);
        }
      }
    }
  }

  /** Why no identity came out. */
  datatype Failure =
    | NoAttemptAccepted   // every supplied attempt was resampled
    | ColumnWithoutOnes   // a column had no 1, and its expression would be null

  /** The matrix of the first accepted attempt. */
  function AcceptedGrid(n: nat, attempts: seq<Attempt>): (g: seq<seq<int>>)
    requires 1 <= n && WellFormedAttempts(n, attempts) && FirstAccepted(attempts).Some?
    ensures |g| == Pow2(n) && IsMatrix(g, n) && ZeroOne(g)
  {
    SampledGrid(n, attempts[FirstAccepted(attempts).value].draws)
  }

  /** The signs of the first accepted attempt's vectorised null-space basis. */
  function AcceptedSigns(n: nat, attempts: seq<Attempt>): (s: seq<int>)
    requires 1 <= n && WellFormedAttempts(n, attempts) && FirstAccepted(attempts).Some?
    ensures IsSignVector(s, n)
  {
    var basis := attempts[FirstAccepted(attempts).value].nullBasis;
    Signs(Vectorise(basis), n)
  }

  /** What `GenerateRandomMBAIdentity` produces from the given attempts: the
      fold of the first accepted attempt's columns, or why there is none. */
  function GeneratedIdentity(n: nat, attempts: seq<Attempt>): (r: Result<Expr, Failure>)
    requires 1 <= n && WellFormedAttempts(n, attempts)
    ensures r.Err? <==> FirstAccepted(attempts).None? || !EveryColumnHasOne(AcceptedGrid(n, attempts), n)
    ensures r.Err? ==> (r.error == NoAttemptAccepted <==> FirstAccepted(attempts).None?)
    ensures r.Ok? ==> Scoped(r.value, n)
  {
    if FirstAccepted(attempts).None? then Err(NoAttemptAccepted)
    else
      var g := AcceptedGrid(n, attempts);
      if EveryColumnHasOne(g, n) then
        var terms, signs := Terms(g, n), AcceptedSigns(n, attempts);
        AssembleScoped(terms, signs, n, n);
        Ok(Assemble(terms, signs, n))
      else Err(ColumnWithoutOnes)
  }

  /** The generated identity is the per-bit sum of the accepted matrix's row dot
      products with its signs, and it is zero everywhere when those signs
      annihilate the matrix. */
  lemma GeneratedIdentityValue(n: nat, attempts: seq<Attempt>, env: seq<int>, w: nat)
    requires 1 <= n && WellFormedAttempts(n, attempts) && |env| == n
    ensures GeneratedIdentity(n, attempts).Err? <==>
      FirstAccepted(attempts).None? || !EveryColumnHasOne(AcceptedGrid(n, attempts), n)
    ensures GeneratedIdentity(n, attempts).Ok? ==>
      Scoped(GeneratedIdentity(n, attempts).value, n) &&
      Eval(GeneratedIdentity(n, attempts).value, env, w) ==
        BitSum(AcceptedGrid(n, attempts), AcceptedSigns(n, attempts), env, w) % Pow2(w)
    ensures GeneratedIdentity(n, attempts).Ok? && Annihilates(AcceptedGrid(n, attempts), AcceptedSigns(n, attempts)) ==>
      Eval(GeneratedIdentity(n, attempts).value, env, w) == 0
  {
    if GeneratedIdentity(n, attempts).Ok? {
      var g, signs := AcceptedGrid(n, attempts), AcceptedSigns(n, attempts);
      IdentityValue(g, signs, env, w);
      if Annihilates(g, signs) {
        ZeroIdentity(g, signs, env, w);
      }
    }
  }

  /** `GenerateRandomMBAIdentity`: the first accepted attempt's matrix and
      signs, folded. */
  method GenerateRandomMBAIdentity(n: nat, attempts: seq<Attempt>) returns (res: Result<Expr, Failure>)
    requires 1 <= n && WellFormedAttempts(n, attempts)
    ensures res == GeneratedIdentity(n, attempts)
    ensures res.Ok? ==> Scoped(res.value, n)
  {
    var solution := GenerateSolution(n, attempts);
    if solution.None? {
      return Err(NoAttemptAccepted);
    }
    var (F, sol) := solution.value;
    ghost var k := FirstAccepted(attempts).value;
    ghost var g := AcceptedGrid(n, attempts);
    assert Grid(F) == g && Signs(sol, n) == AcceptedSigns(n, attempts);
    if !EveryColumnHasOne(Grid(F), n) {
      return Err(ColumnWithoutOnes);
    }
    ArrayColumnsHaveOnes(F, n);
    var r := MBAIdentity(n, F, sol);
    res := Ok(r);
  }

  /** The value `ConstantInt::get(type, scalar)` gives the scalar at line 82
      on a `w`-bit type. The `int` is passed as an unsigned 64-bit value, so
      -1 arrives as 2^64 - 1; a type of at most 64 bits truncates it, which is
      the signed constant, and a wider type zero-extends it. */
  function SourceScalar(scalar: int, w: nat): (r: int)
    ensures 0 <= r < Pow2(w)
    ensures w <= 64 ==> r == scalar % Pow2(w)
    ensures w > 64 ==> r == scalar % Pow2(64)
  {
    var r := (scalar % Pow2(64)) % Pow2(w);
    if w <= 64 then NarrowerMod(scalar, w, 64); r
    else Pow2Below(64, w); DivModUnique(scalar % Pow2(64), Pow2(w), 0, scalar % Pow2(64)); r
  }

  /** Two folds of the same terms whose signs differ only in the first
      entry: their values differ by the difference of the first constants
      times the first term's word, modulo 2^w, because the later steps add or
      subtract the same terms. */
  lemma FirstConstantShift(terms: seq<Expr>, signs: seq<int>, shifted: seq<int>, env: seq<int>, w: nat)
    requires 1 <= |terms| == |signs| == |shifted| && IsSignVector(signs, |terms|) && AllScoped(terms, |env|)
    requires forall j :: 1 <= j < |signs| ==> shifted[j] == signs[j]
    ensures Scoped(Assemble(terms, signs, |terms|), |env|) && Scoped(Assemble(terms, shifted, |terms|), |env|)
    ensures Eval(Assemble(terms, shifted, |terms|), env, w) ==
      (Eval(Assemble(terms, signs, |terms|), env, w) + (shifted[0] - signs[0]) * Eval(terms[0], env, w)) % Pow2(w)
  {
    var n := |terms|;
    AssembleValue(terms, signs, env, w, n);
    AssembleValue(terms, shifted, env, w, n);
    SignedSumShift(terms, signs, shifted, env, w, n);
    assert Scoped(terms[0], |env|);
    ModAddLeft(SignedSum(terms, signs, env, w, n), (shifted[0] - signs[0]) * Eval(terms[0], env, w), Pow2(w));
  }

  /** The signed sums of signs that differ only in the first entry differ by
      that difference times the first term's word. */
  lemma {:induction false} SignedSumShift(terms: seq<Expr>, signs: seq<int>, shifted: seq<int>, env: seq<int>, w: nat, k: nat)
    requires 1 <= k <= |terms| == |signs| == |shifted| && AllScoped(terms, |env|)
    requires forall j :: 1 <= j < |signs| ==> shifted[j] == signs[j]
    ensures Scoped(terms[0], |env|)
    ensures SignedSum(terms, shifted, env, w, k) ==
      SignedSum(terms, signs, env, w, k) + (shifted[0] - signs[0]) * Eval(terms[0], env, w)
  {
    assert Scoped(terms[0], |env|);
    if k == 1 {
      assert SignedSum(terms, shifted, env, w, 1) == shifted[0] * Eval(terms[0], env, w);
      assert SignedSum(terms, signs, env, w, 1) == signs[0] * Eval(terms[0], env, w);
    } else {
      SignedSumShift(terms, signs, shifted, env, w, k - 1);
      assert shifted[k - 1] == signs[k - 1];
      assert Scoped(terms[k - 1], |env|);
      var y := signs[k - 1] * Eval(terms[k - 1], env, w);
      assert SignedSum(terms, shifted, env, w, k) == SignedSum(terms, shifted, env, w, k - 1) + y;
      assert SignedSum(terms, signs, env, w, k) == SignedSum(terms, signs, env, w, k - 1) + y;
    }
  }

  /** A fold that is 0, with its first constant moved up by `big`, is `big`
      times the first variable's word. */
  lemma ShiftedZeroFold(terms: seq<Expr>, signs: seq<int>, c: int, env: seq<int>, w: nat, big: int)
    requires 1 <= |terms| && |env| >= 1 && IsSignVector(signs, |terms|) && AllScoped(terms, |env|)
    requires Scoped(Assemble(terms, signs, |terms|), |env|)
    requires Eval(Assemble(terms, signs, |terms|), env, w) == 0
    requires Eval(terms[0], env, w) == env[0] % Pow2(w) && c - signs[0] == big
    ensures Scoped(Assemble(terms, [c] + signs[1..], |terms|), |env|)
    ensures Eval(Assemble(terms, [c] + signs[1..], |terms|), env, w) == (big * env[0]) % Pow2(w)
  {
    var shifted := [c] + signs[1..];
    ReplaceFirst(signs, c);
    FirstConstantShift(terms, signs, shifted, env, w);
    ModMulRight(big, env[0], Pow2(w));
  }

  /** `[c] + s[1..]` is `s` with its first entry replaced by c. */
  lemma ReplaceFirst(s: seq<int>, c: int)
    requires |s| >= 1
    ensures |[c] + s[1..]| == |s| && ([c] + s[1..])[0] == c
    ensures forall j :: 1 <= j < |s| ==> ([c] + s[1..])[j] == s[j]
  {
  }

  /** Line 82 as written, on a type wider than 64 bits. Take a matrix whose
      column 0 is the truth table of variable 0, as every sampled matrix's
      is, and signs that annihilate it with -1 first. The model's fold is 0
      at every assignment (`ZeroIdentity`), but the source multiplies
      column 0 by `SourceScalar(-1, w)`, which is 2^64 - 1, instead of -1:
      its identity is 2^64 times x0 modulo 2^w. */
  lemma WideScalarIdentity(g: seq<seq<int>>, signs: seq<int>, env: seq<int>, w: nat)
    requires w > 64 && |env| >= 1 && |g| == Pow2(|env|) && IsMatrix(g, |env|) && ZeroOne(g)
    requires EveryColumnHasOne(g, |env|) && Column(g, 0) == TruthColumn(|env|)
    requires IsSignVector(signs, |env|) && signs[0] == -1 && Annihilates(g, signs)
    ensures Scoped(Assemble(Terms(g, |env|), [SourceScalar(-1, w)] + signs[1..], |env|), |env|)
    ensures Eval(Assemble(Terms(g, |env|), [SourceScalar(-1, w)] + signs[1..], |env|), env, w) ==
      (Pow2(64) * env[0]) % Pow2(w)
  {
    var n := |env|;
    var terms := Terms(g, n);
    ZeroIdentity(g, signs, env, w);
    WideMinusOne(w);
    FirstTermIsFirstVariable(g, env, w);
    ShiftedZeroFold(terms, signs, SourceScalar(-1, w), env, w, Pow2(64));
  }

  /** On a type wider than 64 bits the source's -1 is 2^64 - 1, which the
      type holds without wrapping. */
  lemma WideMinusOne(w: nat)
    requires w > 64
    ensures SourceScalar(-1, w) == Pow2(64) - 1 && Pow2(64) < Pow2(w)
  {
    var big := Pow2(64);
    Pow2Below(64, w);
    DivModUnique(-1, big, -1, big - 1);
    assert SourceScalar(-1, w) == (-1) % big;
  }

  /** When column 0 of `g` is the truth table of variable 0, its term is
      variable 0's word. */
  lemma FirstTermIsFirstVariable(g: seq<seq<int>>, env: seq<int>, w: nat)
    requires |env| >= 1 && IsMatrix(g, |env|) && EveryColumnHasOne(g, |env|)
    requires Column(g, 0) == TruthColumn(|env|)
    ensures Scoped(Terms(g, |env|)[0], |env|)
    ensures Eval(Terms(g, |env|)[0], env, w) == env[0] % Pow2(w)
  {
    TruthColumnIsFirstVariable(|env|, env, w);
    assert Terms(g, |env|)[0] == ColumnTerm(g, |env|, 0);
  }

  /** The two-column matrix whose columns are both the truth table of
      variable 0: rows (0, 0), (0, 0), (1, 1), (1, 1). */
  const TwinColumns: seq<seq<int>> := [[0, 0], [0, 0], [1, 1], [1, 1]]

  /** Both columns of `TwinColumns` have a 1, and `TwinSigns` annihilates
      every row. */
  lemma TwinColumnsFacts()
    ensures IsMatrix(TwinColumns, 2) && EveryColumnHasOne(TwinColumns, 2)
    ensures Annihilates(TwinColumns, TwinSigns)
    ensures Column(TwinColumns, 0) == TruthColumn(2)
  {
    var g := TwinColumns;
    assert ColumnHasOne(g, 0) && ColumnHasOne(g, 1) by {
      assert g[2][0] == 1 && g[2][1] == 1;
    }
    forall i | 0 <= i < 4
      ensures RowDot(g[i], TwinSigns) == 0
    {
      TwinRowDot(g[i]);
    }
    TwinFirstColumn();
  }

  /** A row with equal entries has dot product 0 with (-1, +1). */
  lemma TwinRowDot(row: seq<int>)
    requires |row| == 2 && row[0] == row[1]
    ensures RowDot(row, TwinSigns) == 0
  {
    assert DotPrefix(row, TwinSigns, 1) == -row[0];
  }

  /** Column 0 of `TwinColumns` is the truth table of variable 0. */
  lemma TwinFirstColumn()
    ensures Column(TwinColumns, 0) == TruthColumn(2)
  {
    forall i | 0 <= i < 4
      ensures Column(TwinColumns, 0)[i] == TruthColumn(2)[i]
    {
      assert Shr(i, 1) == i / 2;
    }
  }

  /** The signs (-1, +1), which annihilate `TwinColumns`. */
  const TwinSigns: seq<int> := [-1, 1]

  /** An instance of `WideScalarIdentity`: on every type wider than 64 bits,
      `TwinColumns` with the signs `TwinSigns` gives the model's fold 0 and
      the source's identity 2^64 at x0 = 1, whatever x1 is. */
  lemma WideScalarBreaksIdentity(env: seq<int>, w: nat)
    requires w > 64 && |env| == 2 && env[0] == 1
    ensures IsMatrix(TwinColumns, 2) && EveryColumnHasOne(TwinColumns, 2)
    ensures Annihilates(TwinColumns, TwinSigns)
    ensures Scoped(Assemble(Terms(TwinColumns, 2), TwinSigns, 2), 2)
    ensures Eval(Assemble(Terms(TwinColumns, 2), TwinSigns, 2), env, w) == 0
    ensures Scoped(Assemble(Terms(TwinColumns, 2), [SourceScalar(-1, w)] + TwinSigns[1..], 2), 2)
    ensures Eval(Assemble(Terms(TwinColumns, 2), [SourceScalar(-1, w)] + TwinSigns[1..], 2), env, w) == Pow2(64)
  {
    TwinColumnsFacts();
    assert ZeroOne(TwinColumns);
    ZeroIdentity(TwinColumns, TwinSigns, env, w);
    WideScalarIdentity(TwinColumns, TwinSigns, env, w);
    WideMinusOne(w);
    DivModUnique(Pow2(64), Pow2(w), 0, Pow2(64));
  }
}
