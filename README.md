# Modular matrix inverse by constraint solving — a Dafny model

The program reads a `cols`-by-`cols` integer matrix `A` and a modulus `mod`. It builds a list of
`Formula` constraints that say:

- `(A · B) mod mod` is the identity;
- every cell of `B` lies in `[0, mod - 1]`;
- the cells of `A` are the input values.

It converts the constraints to terms of an external SMT solver and asks for a model. It then reads
`B` back, row-major, from the model's values for the constants named `B[col][row]`. Finally it
re-multiplies `A · B` with `mul` as an independent check.

This project models that core in Dafny and proves what it computes:

| file | module | models |
|---|---|---|
| `formula.dfy` | `Formulas` | the `Formula` tree, cell names `M[col][row]` and their parser, the two kinds of formulas |
| `solver.dfy` | `Solver` | the solver terms the converter targets, and their value under an interpretation |
| `translator.dfy` | `Translator` | `convInt` / `conv`; the exception is `IllegalArgument` |
| `encoder.dfy` | `Encoder` | `multiplicationFormulas`, `cellConstraints`, `matrixFormulas` |
| `multiply.dfy` | `Multiply` | the re-check `mul`, with Kotlin's truncating `%` |
| `decode.dfy` | `Decode` | `extractModel`, over a map from constant name to value |
| `soundness.dfy` | `Soundness` | what the generated conjunction means: soundness and completeness |
| `findings.dfy` | `Findings` | concrete inputs that show the two defects listed below |
| `arith.dfy`, `wrappers.dfy` | `Arith`, `Wrappers` | truncated remainder, row-major index lemmas, `Option` |

Conversion has two stages.

1. `ConvInt`/`Conv` map a `Formula` to a solver term or to `IllegalArgument`.
2. `Solver.EvalInt`/`Holds` give a term its value under an interpretation `Interp`.

An `Interp` gives an integer to every constant name. It also fixes a value for the solver's `x mod 0`, which the solver leaves unspecified.

A list of formulas is satisfied by an interpretation when every formula converts and holds. That conjunction is what the program passes to the solver.

The solver's search is not modelled. Each soundness lemma holds for any interpretation that satisfies the formulas. Each completeness lemma constructs a satisfying interpretation, `Soundness.CellInterp`.

Index arithmetic is row-major throughout: `Arith.Flat(n, r, c) = r * n + c`.

The generators compute `i % cols` and `i / cols` only for `i >= 0`. There Kotlin's truncating operators and Dafny's Euclidean ones agree, even for a negative `cols`, so the model uses Dafny's. `mul` reduces a sum that may be negative, so it uses `Arith.TRem`, Kotlin's truncating `%`, written out.

The inner dimension of `multiplicationFormulas` is a literal 3, and the model keeps it: `Encoder.MultiplicationFormulas` uses `Encoder.InnerDimension`. The source's own comment on it, `// A * B = E` (src/main/kotlin/Main.kt:105), states the identity for the `cols`-by-`cols` matrices the rest of the program handles; the literal 3 matches that only when `cols = 3` (see Findings). The corrected encoding, with inner dimension `cols`, is `Encoder.MultiplicationFormulasOfSize(cols, mod)`, and the general soundness lemmas are stated for it.

## Model

| member | source | states |
|---|---|---|
| Formulas.NameRoundTrip | src/main/kotlin/Main.kt:12-14 | parsing the name `M[col][row]` of a cell gives back its matrix, column and row, for every pair of Ints |
| Formulas.IntRoundTrip | src/main/kotlin/Main.kt:13 | the decimal rendering of an Int inside a cell name (minus sign, digits) is read back as the same Int |
| Formulas.IntToStringNoBrackets | src/main/kotlin/Main.kt:13 | a rendered Int contains no `[` or `]`, so the brackets of a name delimit its fields |
| Formulas.CellNameInjective | src/main/kotlin/Main.kt:12-14 | two cells have the same name exactly when matrix, column and row are all equal |
| Translator.ConvInt | src/main/kotlin/Main.kt:143-154 | `convInt` returns a term exactly when the formula is built from Cell, Const, Zero, One, Sum, Prod and Mod only; otherwise it throws |
| Translator.ConvIntAll | src/main/kotlin/Main.kt:146 | the operand list converts exactly when every operand is integer-valued, and keeps its length |
| Translator.ConvIntAllPointwise | src/main/kotlin/Main.kt:146 | element `i` of a converted operand list is the conversion of operand `i` (`map` keeps the order) |
| Translator.Conv | src/main/kotlin/Main.kt:156-163 | `conv` returns a term exactly when the formula is an Eq, Ge or Le over integer-valued operands; otherwise it throws |
| Translator.CellVariableIdentity | src/main/kotlin/Main.kt:147 | two cells become the same solver constant exactly when they are the same cell |
| Translator.AllSatisfiedConcat | src/main/kotlin/Main.kt:59-61 | the concatenated list handed to the solver holds exactly when each of its parts holds |
| Translator.ModEquationHolds | src/main/kotlin/Main.kt:124 | `Eq(Mod(Sum(vs), Const(k)), e)` holds exactly when the solver's `mod k` of the sum's value equals `e`'s value |
| Encoder.ProductTerms | src/main/kotlin/Main.kt:118-122 | the sum for entry (`r`, `c`) has `n` terms, and term `k` is `Prod(Cell(A, k, r), Cell(B, c, k))` |
| Encoder.MultiplicationFormulas | src/main/kotlin/Main.kt:106-128 | exactly 9 formulas whatever `cols` is; position `r*3+c` is `Eq(Mod(Sum(terms), Const(mod)), One if r == c else Zero)` over inner dimension 3 |
| Encoder.MultiplicationFormulasOfSize | src/main/kotlin/Main.kt:107-127 | the same loops over a given inner dimension `n`: `n*n` formulas, position `r*n+c` constrains entry (`r`, `c`) |
| Encoder.RangePairs | src/main/kotlin/Main.kt:131-140 | the first `count` cells each contribute their Ge/Le pair at positions `2i`, `2i+1` |
| Encoder.CellConstraints | src/main/kotlin/Main.kt:130-141 | `2*cols*cols` formulas; positions `2i` and `2i+1` are `Ge(Cell(B, i%cols, i/cols), Zero)` and `Le(Cell(B, i%cols, i/cols), Const(mod-1))` |
| Encoder.MatrixFormulas | src/main/kotlin/Main.kt:165-173 | `cols*cols` formulas; formula `i` is `Eq(Cell(A, i%cols, i/cols), Const(m[i]))` |
| Encoder.IdentityConstraintWellKinded | src/main/kotlin/Main.kt:112-124 | each product constraint is an Eq over integer-valued operands |
| Encoder.MultiplicationEncodingWellKinded | src/main/kotlin/Main.kt:106-128 | every formula of the product encoding is a well-kinded relation |
| Encoder.RangeEncodingWellKinded | src/main/kotlin/Main.kt:130-141 | every range formula is a well-kinded relation |
| Encoder.GeneratedFormulasTranslate | src/main/kotlin/Main.kt:59-61 | `conv` converts every formula of the three generated lists, so it never reaches its throw on them |
| Arith.TRem | src/main/kotlin/Main.kt:193 | Kotlin's `%`: below the divisor in magnitude, zero or of the dividend's sign, congruent to the dividend, equal to the Euclidean remainder for a non-negative dividend |
| Multiply.Mul | src/main/kotlin/Main.kt:185-197 | `mul` returns `cols*cols` entries (none for `cols <= 0`); entry `row*cols+col` is the row-by-column dot product reduced with Kotlin's `%` |
| Multiply.DotNonNegative | src/main/kotlin/Main.kt:189-192 | the accumulated sum of non-negative entries is non-negative |
| Multiply.ProductEntryInRange | src/main/kotlin/Main.kt:193 | for `mod >= 1` and non-negative inputs every entry of `mul` lies in `[0, mod)` |
| Multiply.MulShowsIdentity | src/main/kotlin/Main.kt:185-197 | for non-negative inputs `mul` prints the identity exactly when `b` is an inverse of `a` modulo `mod` |
| Multiply.CanonicalEntry | src/main/kotlin/Main.kt:193 | the corrected reduction: the Euclidean residue, a value in `[0, abs(mod))` congruent to the dot product; for the moduli `mod >= 1` that can reach `mul` it equals `Math.floorMod` |
| Multiply.CanonicalRecheck | src/main/kotlin/Main.kt:185-197 | with the corrected reduction the re-check shows the identity exactly when `b` is an inverse, for inputs of any sign |
| Decode.ExtractModel | src/main/kotlin/Main.kt:80-90 | returns a list exactly when the model has every `B[cn][rn]`; index `rn*cols+cn` holds the value of `B[cn][rn]`, the layout `mul` reads |
| Soundness.ReadoutAt | src/main/kotlin/Main.kt:82-87 | position `r*n+c` of the row-major read-out is the value of cell `[c][r]` |
| Soundness.SumOfProducts | src/main/kotlin/Main.kt:118-122 | the product sum converts, and its solver value is the dot product of row `r` of A with column `c` of B |
| Soundness.IdentityConstraintMeaning | src/main/kotlin/Main.kt:112-124 | one product constraint holds exactly when that entry of `A·B`, under the solver's `mod`, is the identity's |
| Soundness.MultiplicationEncodingMeaning | src/main/kotlin/Main.kt:106-128 | the product encoding holds exactly when every entry of `A·B` reduces to the identity's |
| Soundness.CellDotIsDot | src/main/kotlin/Main.kt:189-192 | the solver-side dot product equals `mul`'s accumulated sum over the read-out matrices |
| Soundness.MultiplicationEncodingInverse | src/main/kotlin/Main.kt:105-128 | with `mod != 0` the product encoding holds exactly when B's values form an inverse of A's modulo `mod` |
| Soundness.BindingMeaning | src/main/kotlin/Main.kt:165-173 | the binding holds exactly when cell `A[i%cols][i/cols]` has input value `i` |
| Soundness.RangeMeaning | src/main/kotlin/Main.kt:130-141 | the range formulas hold exactly when every cell of B lies in `[0, mod-1]` |
| Soundness.EncodingSound | src/main/kotlin/Main.kt:59-61 | with inner dimension `cols >= 1`, a satisfying interpretation has `mod >= 1`, A equal to the input, and B an inverse with entries in `[0, mod)` |
| Soundness.CellInterpReadout | src/main/kotlin/Main.kt:82-87 | the interpretation built from two matrices reads back as exactly those matrices |
| Soundness.EncodingComplete | src/main/kotlin/Main.kt:59-62 | with inner dimension `cols >= 1`, every inverse with entries in `[0, mod)` satisfies all the formulas |
| Soundness.DecodingIsReadout | src/main/kotlin/Main.kt:80-90 | a model that agrees with the interpretation decodes to its values of B |
| Soundness.SolvedInverse | src/main/kotlin/Main.kt:59-72 | end to end with inner dimension `cols`: the decoded B is an inverse of the input, and the corrected re-check shows the identity |
| Soundness.AsWrittenSound | src/main/kotlin/Main.kt:59-72 | as written, for `cols = 3`: B lies in `[0, mod)` and is an inverse of the input; for a non-negative input `mul` prints the identity |
| Findings.FixedDimensionCounterexample | src/main/kotlin/Main.kt:107 | for `cols = 1`, `mod = 5` and input `[3]` the as-written formulas have a solution that decodes to `[0]`, which is not an inverse; `[2]` is |
| Findings.MinimalScenario | src/main/kotlin/Main.kt:106-141 | with inner dimension `cols`, the same input is satisfiable, and only by `B = [2]` |
| Findings.NegativeInputSolvable | src/main/kotlin/Main.kt:59-72 | the input `[-2,0,0, 0,1,0, 0,0,1]` has an inverse modulo 5 with entries in `[0, 5)`, so the solve can succeed and the re-check `mul` is reached |
| Findings.TruncatedRecheckCounterexample | src/main/kotlin/Main.kt:193 | for that input every inverse in range makes `mul` print -4 at (0, 0); the canonical residue there is 1 |
| Findings.SevenScenario | src/main/kotlin/Main.kt:59-72 | modulo 7 a concrete 3-by-3 inverse satisfies the as-written formulas, and `mul` prints the identity for it |

## Left out

- `main`: argument parsing, console output and the UNSAT message are I/O. Its dataflow (generate, convert, solve, decode, re-check) is stated by `Soundness.SolvedInverse` and `Soundness.AsWrittenSound`.
- `readMatrix`: file input. The generators take the list it returns. `Encoder.MatrixFormulas` requires at least `cols*cols` values; `readMatrix` always supplies them or throws first.
- `print`: console formatting only.
- The solver: `Context`, `mkSolver("NIA")`, `check`, its search and its model. These are foreign calls. They are replaced by evaluation under an arbitrary interpretation and by a map from name to value.
- `toString` of the nodes other than `Cell`: display only. `Cell`'s string is modelled because it is the solver constant's identity.
- 32-bit `Int`: the model uses unbounded integers. It does not capture overflow of `mul`'s accumulator, of `mod - 1`, or of `row * cols + k`. It also leaves out the `IntNum.int` conversion in `extractModel`, which throws for values outside 32 bits. Under the range constraints a solution's values always fit.
- Translator.ConvInt: an empty `Sum` converts to the empty addition, with value 0. This case cannot arise from the generators unless the inner dimension is 0. The solver library may reject an empty `mkAdd`.
- Multiply.Mul: requires `mod != 0` when `cols > 0`. There the source throws `ArithmeticException`, which is not modelled. `main` reaches `mul` only after a solution is found, and with `mod = 0` no solution exists.
- The solver's `x mod 0` is left unspecified: `Interp.modByZero` can be any function. A `mod` of 0 makes the range constraints unsatisfiable whenever `cols >= 1`.
- Decode.ExtractModel: the cast of a missing constant's interpretation fails in the source. The model returns `None` in that case instead of raising the cast exception.

## Findings

| source | as written | input that shows it | evidently intended | confidence | as-written member | corrected member |
|---|---|---|---|---|---|---|
| src/main/kotlin/Main.kt:107 | `val n = 3`: the product identity is always stated over a 3-by-3 inner dimension and grid, whatever `cols` is | `cols = 1`, `mod = 5`, input `[3]`: with A = `[[3,1,0],[1,0,0],[0,0,1]]` and B = `[[0,1,0],[1,2,0],[0,0,1]]` every formula holds, and `extractModel` reads B = `[0]`; `3·0 mod 5 = 0`, not 1 | `val n = cols` | not executed | Findings.FixedDimensionCounterexample | Encoder.MultiplicationFormulasOfSize |
| src/main/kotlin/Main.kt:193 | `rs.add(sum % mod)` reduces with Kotlin's truncating `%`, so a negative sum gives a negative entry | `cols = 3`, `mod = 5`, input `[-2,0,0, 0,1,0, 0,0,1]` (accepted by `readMatrix`): every solution has `B[0][0] = 2`, and `mul` prints -4 where the identity has 1 | a residue in `[0, mod)`, e.g. `Math.floorMod(sum, mod)`; `mod >= 1` holds whenever `mul` is reached (`Soundness.EncodingSound`) | not executed | Findings.TruncatedRecheckCounterexample | Multiply.CanonicalEntry |

`Encoder.MultiplicationFormulasOfSize` is used by the soundness and completeness lemmas, which prove its intended property: `Soundness.EncodingSound`, `Soundness.EncodingComplete` and `Soundness.SolvedInverse`.

`Multiply.CanonicalEntry` is the Euclidean residue `d % mod`. For a negative `mod` it differs from `Math.floorMod`, which takes the divisor's sign, but no solution has `mod < 1`. It is used by `Soundness.SolvedInverse`. `Multiply.CanonicalRecheck` proves that it shows the identity exactly on inverses, for inputs of any sign.
