# Zero-valued MBA identities, modelled in Dafny

This project models the identity generator of an LLVM obfuscation pass. The
generator is in `DeriveZeroMBA.cpp`. Given n variables, it builds an
expression that mixes boolean and arithmetic operations and is meant to equal
0 for every value of the variables.

The generator works in four steps:

- `GenerateSolution` samples a 2^n x n matrix of 0/1 entries. Column 0 is the
  truth table of the first variable, and the other columns are random bits.
  It asks `arma::null` for a basis of the matrix's real null space. It
  resamples when that basis is empty or has an entry within 0.01 of zero.
- `TableToExpression` turns one 0/1 column into its sum-of-products formula.
  That formula is an OR, over the rows holding a 1, of the AND of one literal
  per variable.
- `MBAIdentity` folds the column formulas. Each column takes the sign of the
  matching entry of the null-space vector. The first column is multiplied by
  its sign. Each later column is added when its sign is +1 and subtracted
  when it is -1.
- `GenerateRandomMBAIdentity` chains the three.

The model has these modules:

- `Arith`: powers of two, `>>` and bit extraction.
- `MbaExpr`: the expression tree and its meaning. Expressions are evaluated
  on single boolean assignments and on w-bit words. On words, Not/And/Or act
  bit by bit and Add/Sub/Mul wrap modulo 2^w.
- `ZeroMatrix`: the sampling loop, kept imperative.
  - `SampleMatrix` fills an `array2` from a stream of draws.
  - `HasNearZero` is the `has_zero` scan.
  - `GenerateSolution` is the resampling loop, run over a finite list of
    attempts.
- `SumOfProducts`: `TableToExpression` as nested loops, proved equal to a
  recursive specification. The formula's truth table is proved to be the
  column, on boolean assignments and on words.
- `Identity`: `MBAIdentity`, whose loop is the method `FoldColumns`, and
  `GenerateRandomMBAIdentity` as the composition. `FoldColumns` is proved to
  build the fold `Assemble` of the column formulas.
  - Their value is proved: at every bit position, the dot product of the
    signs with the matrix row that the variables' bits select, summed over
    the bits and reduced modulo 2^w.
  - The expression is therefore 0 everywhere exactly when the signs make
    every row's dot product 0. A row with a nonzero dot product d gives a
    nonzero value at its own assignment on every width w with 2^w > |d|.
  - `SourceScalar` is the constant line 82 builds on a w-bit type.
    `WideScalarIdentity` gives the identity that constant yields on types
    wider than 64 bits.
- `SignSearch`: the corrected sign choice (see Findings). It is an exact
  search over the 2^n vectors in {-1, +1}^n and a bounded generate-and-test
  loop whose every result is proved to be 0 everywhere.
- `SignRounding`: the counterexample for the sign rounding as written.

Three behaviours of the source shape the model:

- A column with no 1 makes `TableToExpression` return a null expression
  (DeriveZeroMBA.cpp:50, 69). `MBAIdentity` then passes it to `CreateMul`,
  `CreateAdd` or `CreateSub` (DeriveZeroMBA.cpp:82-90). The model requires a
  1 in every column and reports the other case as `ColumnWithoutOnes`.
- The first column is always multiplied by the constant of its sign, even
  when that sign is +1 (DeriveZeroMBA.cpp:82). `Assemble` keeps that `Mul`.
- That constant comes from `ConstantInt::get(type, scalar)`, which takes the
  `int` as an unsigned 64-bit value (DeriveZeroMBA.cpp:82). On a type of at
  most 64 bits this is the signed constant, which is what `Const` means in
  the model. On a wider type, -1 becomes 2^64 - 1; see Findings.
- The signs are rounded from a floating-point null-space vector
  (DeriveZeroMBA.cpp:81). This does not keep every row's dot product at 0;
  see Findings.

## Model

| member | source | states |
|---|---|---|
| `MbaExpr.Eval` | DeriveZeroMBA.cpp:57-91 | every expression the builder emits denotes a w-bit word (a value below 2^w) on every assignment of its variables |
| `MbaExpr.BitAnd` | DeriveZeroMBA.cpp:61 | the and of two w-bit words is a w-bit word no larger than either operand |
| `MbaExpr.BitOr` | DeriveZeroMBA.cpp:66 | the or of two w-bit words is a w-bit word no smaller than either operand |
| `MbaExpr.BoolSplit` | DeriveZeroMBA.cpp:57-66 | a formula of variables, not, and, or acts bit by bit: its word is twice its word on the variables shifted right, plus its truth value on their lowest bits |
| `MbaExpr.BoolEquivOnWords` | DeriveZeroMBA.cpp:47-70 | two such formulas with the same truth table have the same value on words of every width |
| `ZeroMatrix.DrawIndexInRange` | DeriveZeroMBA.cpp:20-26 | filling row by row, entry (i, j) of a random column uses draw i*(n-1)+j-1, which lies inside the draws one attempt consumes |
| `ZeroMatrix.SampledGrid` | DeriveZeroMBA.cpp:19-27 | the sampled matrix has 2^n rows of n entries, all 0 or 1, and entry (i, 0) is bit n-1 of i |
| `ZeroMatrix.SampleMatrix` | DeriveZeroMBA.cpp:19-27 | the nested loops fill a fresh 2^n x n array whose contents are exactly the sampled matrix |
| `ZeroMatrix.SampledColumnZero` | DeriveZeroMBA.cpp:22 | column 0 of every sampled matrix is the truth table of the first variable, whatever the draws |
| `ZeroMatrix.TruthColumnOnes` | DeriveZeroMBA.cpp:22 | that column is 0 on the lower half of the rows and 1 on the upper half, so it holds exactly 2^(n-1) ones and is never all zero |
| `ZeroMatrix.SignOf` | DeriveZeroMBA.cpp:81 | the scalar is +1 or -1, and it is +1 exactly when the null-space entry is positive |
| `ZeroMatrix.Signs` | DeriveZeroMBA.cpp:77-81 | the scalars of the n columns form a vector over {-1, +1}, entry j being +1 exactly when solution entry j is positive |
| `ZeroMatrix.Vectorise` | DeriveZeroMBA.cpp:42 | vectorising a basis starts with its first vector, so it is at least as long as that vector |
| `ZeroMatrix.HasNearZero` | DeriveZeroMBA.cpp:34-40 | the scan reports true exactly when some value lies strictly between -0.01 and 0.01 |
| `ZeroMatrix.FirstAccepted` | DeriveZeroMBA.cpp:18-44 | the attempt the loop stops at is accepted (non-empty basis, no near-zero entry) and every earlier attempt is rejected; none when all are rejected |
| `ZeroMatrix.GenerateSolution` | DeriveZeroMBA.cpp:17-45 | returns nothing exactly when no attempt is accepted; otherwise a fresh 2^n x n array holding the first accepted attempt's matrix and that attempt's vectorised basis, of length at least n |
| `ZeroMatrix.FirstAcceptedIs` | DeriveZeroMBA.cpp:41-42 | an accepted attempt with only rejected ones before it is the one the loop returns |
| `SumOfProducts.RowIndex` | DeriveZeroMBA.cpp:57 | an assignment of n variables, the first as the most significant bit, selects one of the 2^n rows |
| `SumOfProducts.Literal` | DeriveZeroMBA.cpp:57 | the literal of variable j for row i is true exactly when variable j equals bit n-1-j of i |
| `SumOfProducts.RowPrefix` | DeriveZeroMBA.cpp:53-62 | the partial conjunction exists exactly once a literal has been taken, and is a formula over the n variables |
| `SumOfProducts.Minterm` | DeriveZeroMBA.cpp:53-62 | the conjunction built for a row with a 1 is a boolean formula over the n variables |
| `SumOfProducts.SopPrefix` | DeriveZeroMBA.cpp:50-68 | the partial disjunction is null exactly when no row before k holds a 1, and is otherwise a formula over the n variables |
| `SumOfProducts.Sop` | DeriveZeroMBA.cpp:50-68 | the formula of a whole column is null exactly when no entry is 1, and is otherwise a boolean formula over the n variables |
| `SumOfProducts.TableToExpression` | DeriveZeroMBA.cpp:47-70 | returns null exactly when no entry is 1; otherwise a formula over the n variables that is true on an assignment exactly when the row it selects holds a 1 |
| `SumOfProducts.RowPrefixTrue` | DeriveZeroMBA.cpp:56-62 | the conjunction of the first k literals holds exactly when the first k variables spell bits n-1 down to n-k of the row |
| `SumOfProducts.PrefixSpellsShift` | DeriveZeroMBA.cpp:57 | the first k variables spell the top k bits of row i exactly when their row index is i shifted right by n-k |
| `SumOfProducts.MintermTrue` | DeriveZeroMBA.cpp:53-62 | the conjunction built for row i is true at exactly one assignment, the one that selects row i |
| `SumOfProducts.RowIndexBits` | DeriveZeroMBA.cpp:57 | bit n-1-j of the row an assignment selects is variable j, so row selection and literal choice agree |
| `SumOfProducts.SopPrefixTrue` | DeriveZeroMBA.cpp:50-68 | the disjunction over rows before k is true exactly when the selected row is before k and holds a 1 |
| `SumOfProducts.SopFidelity` | DeriveZeroMBA.cpp:47-70 | the formula of a column reproduces the column's truth table on every assignment |
| `SumOfProducts.SopWordFidelity` | DeriveZeroMBA.cpp:47-70 | on w-bit words, every bit of the formula's value is the column's entry at the row spelt by that bit of every variable |
| `SumOfProducts.TruthColumnIsFirstVariable` | DeriveZeroMBA.cpp:22 | the formula of column 0 exists, is true exactly when the first variable is, and on words equals the first variable |
| `Identity.ColumnSopExists` | DeriveZeroMBA.cpp:50-69 | a column's formula is non-null exactly when the column holds a 1 |
| `Identity.ColumnTerm` | DeriveZeroMBA.cpp:78 | the expression of a column with a 1 is its non-null sum-of-products formula over the n variables |
| `Identity.Terms` | DeriveZeroMBA.cpp:77-78 | there is one column expression per variable, each a formula over the n variables |
| `Identity.AssembleScoped` | DeriveZeroMBA.cpp:82-92 | the fold of the column expressions (`Assemble`) mentions only the variables its terms mention |
| `Identity.SourceScalar` | DeriveZeroMBA.cpp:81-82 | the constant line 82 builds on a w-bit type is below 2^w; it is the signed scalar modulo 2^w when w <= 64, and the scalar modulo 2^64, zero-extended, when w > 64 |
| `Identity.WideMinusOne` | DeriveZeroMBA.cpp:81-82 | on a type wider than 64 bits the sign -1 becomes the constant 2^64 - 1, which the type holds without wrapping |
| `Identity.FirstConstantShift` | DeriveZeroMBA.cpp:82-92 | two folds whose signs differ only in the first entry, s_0 and c, differ in value by (c - s_0) times the first column's word, modulo 2^w |
| `Identity.WideScalarIdentity` | DeriveZeroMBA.cpp:80-92 | line 82 as written on a type wider than 64 bits: when column 0 is the truth table of x0 and the signs annihilate the matrix with -1 first, the identity is 2^64 * x0 modulo 2^w instead of 0 |
| `Identity.WideScalarBreaksIdentity` | DeriveZeroMBA.cpp:80-92 | for every w > 64, with both columns the truth table of x0 and signs (-1, +1): the model's fold is 0, and the source's identity is 2^64 at x0 = 1 |
| `Identity.AssembleValue` | DeriveZeroMBA.cpp:82-92 | the folded expression's value on words is the signed sum of its terms' values reduced modulo 2^w; the first sign may be any integer, since it only enters as the constant of the `Mul` |
| `Identity.FoldStep` | DeriveZeroMBA.cpp:87-91 | adding a +1 term or subtracting a -1 term keeps the running value equal to the signed sum modulo 2^w |
| `Identity.ColumnWordsSplit` | DeriveZeroMBA.cpp:77-92 | the lowest bit of the signed column words contributes the dot product of the signs with the row the variables' lowest bits select |
| `Identity.ColumnWordsIsBitSum` | DeriveZeroMBA.cpp:77-92 | the signed sum of the column words is the per-bit sum of row dot products, each bit weighted by its power of two |
| `Identity.SignedSumIsColumnWords` | DeriveZeroMBA.cpp:77-78 | each column expression's word is the column's word, so the signed sums agree |
| `Identity.IdentityValue` | DeriveZeroMBA.cpp:72-95 | the assembled identity's value is the per-bit sum of the signs' dot products with the selected rows, modulo 2^w |
| `Identity.BitSumZero` | DeriveZeroMBA.cpp:80 | when the signs make every row's dot product 0, every per-bit term is 0 |
| `Identity.ZeroIdentity` | DeriveZeroMBA.cpp:80 | the justification of line 80 as far as it goes: integer signs with F*v = 0 give an expression that is 0 at every assignment and width |
| `Identity.RowEnvBits` | DeriveZeroMBA.cpp:57 | giving each variable the value -1 or 0 by bit n-1-j of row r makes every bit position select row r, and shifting leaves the values unchanged |
| `Identity.BitSumConstant` | DeriveZeroMBA.cpp:72-95 | when every bit position selects the same row, the per-bit sum is that row's dot product times 2^w - 1 |
| `Identity.RowEnvValue` | DeriveZeroMBA.cpp:72-95 | at row r's own assignment the identity's value is minus the row's dot product with the signs, modulo 2^w |
| `Identity.NonzeroAtRow` | DeriveZeroMBA.cpp:72-95 | a row with a nonzero dot product d with the signs makes the identity nonzero at that row's assignment on every width w with 2^w larger than the magnitude of d |
| `Identity.ZeroExactlyWhenAnnihilated` | DeriveZeroMBA.cpp:72-95 | the identity is 0 at every assignment and width if and only if the signs give every row a dot product of 0 |
| `Identity.ArrayColumnsHaveOnes` | DeriveZeroMBA.cpp:77-78 | the array has a 1 in every column exactly when its matrix does |
| `Identity.ColumnForm` | DeriveZeroMBA.cpp:78 | the expression built for column i of `F` is that column's sum-of-products formula |
| `Identity.FoldColumns` | DeriveZeroMBA.cpp:76-94 | the loop yields exactly the fold of the column formulas: the first times its sign, each later one added under +1 and subtracted under -1 |
| `Identity.AssembledFacts` | DeriveZeroMBA.cpp:72-95 | the fold uses only the n variables, its value is the per-bit signed row sum, and it is 0 everywhere when the signs annihilate every row |
| `Identity.MBAIdentity` | DeriveZeroMBA.cpp:72-95 | the loop builds the sign-weighted fold of the column formulas; its value is the per-bit row-dot sum, and it is 0 everywhere when the signs annihilate the matrix |
| `Identity.GeneratedIdentity` | DeriveZeroMBA.cpp:97-101 | the composition fails exactly when no attempt is accepted or a column of the accepted matrix has no 1, reports which, and otherwise returns an expression over the n variables |
| `Identity.GeneratedIdentityValue` | DeriveZeroMBA.cpp:97-101 | the composition fails exactly when no attempt is accepted or a column has no 1; otherwise its value is the per-bit row-dot sum of the accepted matrix and signs, 0 when they annihilate |
| `Identity.GenerateRandomMBAIdentity` | DeriveZeroMBA.cpp:97-101 | the composed method returns the specified result, and a returned expression uses only the n variables |
| `SignSearch.SignsOfIndex` | DeriveZeroMBA.cpp:80-81 | every candidate number gives a vector over {-1, +1} of length n |
| `SignSearch.IndexOfSigns` | DeriveZeroMBA.cpp:80-81 | every sign vector of length n has a number below 2^n |
| `SignSearch.IndexOfSignsRoundTrip` | DeriveZeroMBA.cpp:80-81 | the candidate numbered by a sign vector is that vector, so the search covers every sign vector |
| `SignSearch.FindSigns` | DeriveZeroMBA.cpp:80-81 | returns the first candidate whose integer dot product with every row is 0, and none exactly when no sign vector annihilates the matrix |
| `SignSearch.GenerateZeroIdentity` | DeriveZeroMBA.cpp:17-45 | the corrected loop: a returned expression is the fold of the first usable attempt's column formulas under a sign vector that annihilates its matrix, and is 0 at every assignment and width; it fails exactly when no attempt has a matrix with a 1 in every column and an annihilating sign vector |
| `SignRounding.ExampleGridRows` | DeriveZeroMBA.cpp:19-27 | the example draws sample the counterexample matrix |
| `SignRounding.ExampleNullSpace` | DeriveZeroMBA.cpp:29 | the counterexample matrix's real null space is exactly the line through (-1, 1, 1, -2) |
| `SignRounding.RoundedSignsMissRow` | DeriveZeroMBA.cpp:80-81 | rounding any nonzero null vector of that matrix gives signs under which row 7 dots to +-1; no sign vector annihilates it |
| `SignRounding.UnitNullVectorAccepted` | DeriveZeroMBA.cpp:29-43 | a unit-length null vector of that matrix passes the 0.01 filter, so the loop returns that matrix |
| `SignRounding.RoundingBreaksIdentity` | DeriveZeroMBA.cpp:80-101 | with that matrix and an accepted null vector, the generated identity is 1, not 0, at x0 = 0, x1 = x2 = x3 = 1 on one-bit words |

## Left out

- `arma::null` is not part of this model. Each attempt supplies its null-space basis as data. The model does not compute a basis and relies on no property of it. `SignRounding` states, as hypotheses, the two facts it needs about such a basis: it lies in the null space, and it has unit length.
- The model reads float values and the 0.01 filter as exact reals. Rounding in `arma::fmat` and `arma::fvec` is not modelled.
- `std::rand` and `std::srand` become a sequence of natural-number draws per attempt. The model keeps only the draws' parity, as `% 2` does.
- The `while (true)` loop of `GenerateSolution` runs over a finite list of attempts. If every attempt is rejected, the model reports `NoAttemptAccepted`. The source would keep drawing forever.
- `llvm::IRBuilder`, `llvm::Type`, `llvm::Value` and the `vars` vector are modelled as the `Expr` tree. Variable j is `Var(j)` and the constant is `Const`. Value sharing between builder calls is not modelled.
- The `LLVMContext` set-up in `MBAIdentity` and the `llvm::errs()` print of each column are not modelled; neither affects the result.
- `Identity.MBAIdentity`: requires a 1 in every column. For a column without one, the source passes the null result of `TableToExpression` to `CreateMul`, `CreateAdd` or `CreateSub`, whose behaviour on null is undefined. The composition reports that case as `ColumnWithoutOnes` instead.
- `ZeroMatrix.GenerateSolution`: requires n >= 1. For n = 0, `vars_count - 1` wraps around as an unsigned value. For n >= 31, `1 << vars_count` overflows the 32-bit `int` (DeriveZeroMBA.cpp:19). Neither case is modelled.
- Arithmetic wraps at any width w. The model does not fix w to the width of the `llvm::Type` passed in.
- `MbaExpr.Eval`: reads `Const(c)` as c sign-extended to w bits. Line 82's `ConstantInt::get(type, scalar)` builds that only on types of at most 64 bits; on wider types the source's -1 is 2^64 - 1 (`Identity.SourceScalar`). So `Identity.AssembleValue`, `Identity.IdentityValue`, `Identity.ZeroIdentity`, `Identity.ZeroExactlyWhenAnnihilated`, `Identity.MBAIdentity` and `Identity.GeneratedIdentityValue` describe the source only for w <= 64, and the corrected constant for every w. See Findings.
- `Obfus.cpp`, `Transforms.hpp`, the rewrite catalogue and the test programs are not part of this model.

## Findings

| source | as written | input that shows it | evidently intended | confidence | as-written member | corrected member |
|---|---|---|---|---|---|---|
| DeriveZeroMBA.cpp:80-81 | each column's sign is the sign of its entry in a real null-space vector. Rounding is a rescaling only when all entries have equal magnitude, so it does not keep F*v = 0 in general. | n = 4, with draws making rows 0-6 zero, row 7 (0,1,1,1), rows 8-11 (1,1,0,0) and rows 12-15 (1,0,1,0). The null space is spanned by (-1,1,1,-2), and its unit vector passes the 0.01 filter. The signs +-(-1,1,1,-1) give row 7 a dot product of +-1. The identity is 1 at x0 = 0, x1 = x2 = x3 = 1 with one-bit words. | signs in {-1,+1}^n with an exact integer dot product of 0 for every row, so that the folded expression is 0 everywhere; resample when no such signs exist | not executed | `SignRounding.RoundingBreaksIdentity` | `SignSearch.GenerateZeroIdentity` |
| DeriveZeroMBA.cpp:82 | the `int` scalar goes to `ConstantInt::get(Type *, uint64_t, bool IsSigned = false)`, so -1 becomes 2^64 - 1. A type of more than 64 bits zero-extends that value instead of sign-extending it. | n = 2, with draws making column 1 equal to column 0, (0,0,1,1), and a null basis whose first entry is negative, so the signs are (-1, +1). On any type of w > 64 bits, such as i65 or i128, the identity is 2^64 at x0 = 1, not 0. | the first column multiplied by -1 at every width, as `ConstantInt::get(type, scalar, true)` builds it, so that the identity is 0 everywhere | not executed | `Identity.WideScalarBreaksIdentity` | `Identity.ZeroIdentity` |
