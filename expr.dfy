/** The expressions the identity generator emits through `llvm::IRBuilder`,
    and their meaning two ways: over one boolean assignment, and over
    fixed-width words, where Not/And/Or act bit by bit and Add/Sub/Mul
    wrap modulo 2^w. */
module MbaExpr {
  import opened Arith

  /** One node per builder call: `vars.at(j)` is `Var(j)`,
      `ConstantInt::get` is `Const`, `CreateNot`/`CreateAnd`/`CreateOr`/
      `CreateAdd`/`CreateSub`/`CreateMul` are the other constructors. */
  datatype Expr =
    | Var(index: nat)
    | Const(value: int)
    | Not(operand: Expr)
    | And(left: Expr, right: Expr)
    | Or(left: Expr, right: Expr)
    | Add(left: Expr, right: Expr)
    | Sub(left: Expr, right: Expr)
    | Mul(left: Expr, right: Expr)

  /** Every variable of `e` is one of the first `n`. */
  predicate Scoped(e: Expr, n: nat)
  {
    match e
    case Var(j) => j < n
    case Const(_) => true
    case Not(a) => Scoped(a, n)
    case And(a, b) => Scoped(a, n) && Scoped(b, n)
    case Or(a, b) => Scoped(a, n) && Scoped(b, n)
    case Add(a, b) => Scoped(a, n) && Scoped(b, n)
    case Sub(a, b) => Scoped(a, n) && Scoped(b, n)
    case Mul(a, b) => Scoped(a, n) && Scoped(b, n)
  }

  /** `e` uses only variables, Not, And and Or: a boolean formula. */
  predicate IsBoolean(e: Expr)
  {
    match e
    case Var(_) => true
    case Not(a) => IsBoolean(a)
    case And(a, b) => IsBoolean(a) && IsBoolean(b)
    case Or(a, b) => IsBoolean(a) && IsBoolean(b)
    case _ => false
  }

  /** Bitwise and of the low `w` bits of `x` and `y`. */
  function BitAnd(w: nat, x: int, y: int): (r: nat)
    ensures r < Pow2(w)
    ensures 0 <= x < Pow2(w) ==> r <= x
    ensures 0 <= y < Pow2(w) ==> r <= y
  {
    if w == 0 then 0
    else 2 * BitAnd(w - 1, x / 2, y / 2) + (if x % 2 == 1 && y % 2 == 1 then 1 else 0)
  }

  /** Bitwise or of the low `w` bits of `x` and `y`. */
  function BitOr(w: nat, x: int, y: int): (r: nat)
    ensures r < Pow2(w)
    ensures 0 <= x < Pow2(w) ==> x <= r
    ensures 0 <= y < Pow2(w) ==> y <= r
  {
    if w == 0 then 0
    else 2 * BitOr(w - 1, x / 2, y / 2) + (if x % 2 == 1 || y % 2 == 1 then 1 else 0)
  }

  /** Value of `e` on `w`-bit words, the variables taking the values in `env`
      (reduced modulo 2^w, so a negative value is its two's complement). A
      constant is likewise its signed value modulo 2^w, as
      `ConstantInt::get(type, c, true)` builds it. */
  function Eval(e: Expr, env: seq<int>, w: nat): (r: nat)
    requires Scoped(e, |env|)
    ensures r < Pow2(w)
  {
    var m := Pow2(w);
    match e
    case Var(j) => env[j] % m
    case Const(c) => c % m
    case Not(a) => m - 1 - Eval(a, env, w)
    case And(a, b) => BitAnd(w, Eval(a, env, w), Eval(b, env, w))
    case Or(a, b) => BitOr(w, Eval(a, env, w), Eval(b, env, w))
    case Add(a, b) => (Eval(a, env, w) + Eval(b, env, w)) % m
    case Sub(a, b) => (Eval(a, env, w) - Eval(b, env, w)) % m
    case Mul(a, b) => (Eval(a, env, w) * Eval(b, env, w)) % m
  }

  /** Truth value of the boolean formula `e` under the assignment `a`. */
  predicate EvalBool(e: Expr, a: seq<bool>)
    requires IsBoolean(e) && Scoped(e, |a|)
  {
    match e
    case Var(j) => a[j]
    case Not(x) => !EvalBool(x, a)
    case And(x, y) => EvalBool(x, a) && EvalBool(y, a)
    case Or(x, y) => EvalBool(x, a) || EvalBool(y, a)
  }

  /** The lowest bit of every variable, as a boolean assignment. */
  function Low(env: seq<int>): (a: seq<bool>)
    ensures |a| == |env|
  {
    seq(|env|, j requires 0 <= j < |env| => env[j] % 2 == 1)
  }

  /** Every variable shifted right by one bit. */
  function High(env: seq<int>): (h: seq<int>)
    ensures |h| == |env|
  {
    seq(|env|, j requires 0 <= j < |env| => env[j] / 2)
  }

  /** 1 for true, 0 for false. */
  function Indicator(b: bool): nat
  {
    if b then 1 else 0
  }

  /** A boolean formula on words works bit by bit: its lowest bit is the
      formula on the variables' lowest bits, and the rest is the formula on
      the variables shifted right by one. */
  lemma {:induction false} BoolSplit(e: Expr, env: seq<int>, w: nat)
    requires IsBoolean(e) && Scoped(e, |env|) && w >= 1
    ensures Eval(e, env, w) == 2 * Eval(e, High(env), w - 1) + Indicator(EvalBool(e, Low(env)))
  {
    var lo, hi := Low(env), High(env);
    match e
    case Var(j) =>
      VarSplit(env, j, w);
    case Not(a) =>
      BoolSplit(a, env, w);
      NotSplit(a, env, w);
    case And(a, b) =>
      BoolSplit(a, env, w);
      BoolSplit(b, env, w);
      SplitOperands(w, Eval(a, env, w), Eval(b, env, w), Eval(a, hi, w - 1), Eval(b, hi, w - 1));
    case Or(a, b) =>
      BoolSplit(a, env, w);
      BoolSplit(b, env, w);
      SplitOperands(w, Eval(a, env, w), Eval(b, env, w), Eval(a, hi, w - 1), Eval(b, hi, w - 1));
  }

  /** A variable's word is twice its shifted word plus its lowest bit. */
  lemma VarSplit(env: seq<int>, j: nat, w: nat)
    requires j < |env| && w >= 1
    ensures Eval(Var(j), env, w) == 2 * Eval(Var(j), High(env), w - 1) + Indicator(Low(env)[j])
  {
    ModSplit(env[j], Pow2(w - 1));
    assert Low(env)[j] == (env[j] % 2 == 1);
    assert High(env)[j] == env[j] / 2;
  }

  /** Complementing a word complements its shifted word and its lowest bit. */
  lemma NotSplit(a: Expr, env: seq<int>, w: nat)
    requires IsBoolean(a) && Scoped(a, |env|) && w >= 1
    requires Eval(a, env, w) == 2 * Eval(a, High(env), w - 1) + Indicator(EvalBool(a, Low(env)))
    ensures Eval(Not(a), env, w) == 2 * Eval(Not(a), High(env), w - 1) + Indicator(EvalBool(Not(a), Low(env)))
  {
    assert Pow2(w) == 2 * Pow2(w - 1);
  }

  /** Bitwise and/or of two words, each written as its upper bits and lowest bit. */
  lemma SplitOperands(w: nat, x: int, y: int, hx: int, hy: int)
    requires w >= 1 && 0 <= x - 2 * hx <= 1 && 0 <= y - 2 * hy <= 1
    ensures BitAnd(w, x, y) == 2 * BitAnd(w - 1, hx, hy) + (if x - 2 * hx == 1 && y - 2 * hy == 1 then 1 else 0)
    ensures BitOr(w, x, y) == 2 * BitOr(w - 1, hx, hy) + (if x - 2 * hx == 1 || y - 2 * hy == 1 then 1 else 0)
  {
    assert x / 2 == hx && x % 2 == x - 2 * hx;
    assert y / 2 == hy && y % 2 == y - 2 * hy;
  }

  /** Two boolean formulas that agree on every boolean assignment agree on
      every word assignment of every width. */
  lemma {:induction false} BoolEquivOnWords(e1: Expr, e2: Expr, env: seq<int>, w: nat)
    requires IsBoolean(e1) && Scoped(e1, |env|) && IsBoolean(e2) && Scoped(e2, |env|)
    requires forall a: seq<bool> | |a| == |env| :: EvalBool(e1, a) == EvalBool(e2, a)
    ensures Eval(e1, env, w) == Eval(e2, env, w)
    decreases w
  {
    if w >= 1 {
      BoolSplit(e1, env, w);
      BoolSplit(e2, env, w);
      BoolEquivOnWords(e1, e2, High(env), w - 1);
    }
  }
}
