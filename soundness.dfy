/** What the generated conjunction means.  Under an interpretation `I` of the solver's constants,
    each of the three generators' formula lists holds exactly when a plain statement about the
    values of the cells holds; put together, a satisfying interpretation is an input matrix and a
    modular inverse of it, and every inverse gives a satisfying interpretation. */
module Soundness {
  import opened Formulas
  import opened Translator
  import opened Encoder
  import opened Arith
  import opened Multiply
  import S = Solver
  import Decode

  /** The value `I` gives to the solver constant of the cell `id[col][row]`. */
  function Value(I: S.Interp, id: MatrixId, col: int, row: int): int
  {
    I.value(CellName(id, col, row))
  }

  /** The values of the cells of `id` over an `n`-by-`n` grid, row-major. */
  function Readout(I: S.Interp, id: MatrixId, n: nat): (v: seq<int>)
    ensures |v| == n * n
  {
    if n == 0 then [] else seq(n * n, i => Value(I, id, i % n, i / n))
  }

  lemma ReadoutAt(I: S.Interp, id: MatrixId, n: nat, r: int, c: int)
    requires 0 <= r < n && 0 <= c < n
    ensures 0 <= Flat(n, r, c) < |Readout(I, id, n)|
    ensures Readout(I, id, n)[Flat(n, r, c)] == Value(I, id, c, r)
  {
    FlatBounds(n, r, c);
    FlatDivMod(n, r, c);
  }

  // ---------------------------------------------------------------------------------------------
  // The product identity

  /** `A[0][r] * B[c][0] + ... + A[count-1][r] * B[c][count-1]` under `I`. */
  function CellDot(I: S.Interp, count: nat, r: int, c: int): int
  {
    if count == 0 then 0
    else CellDot(I, count - 1, r, c) + Value(I, A, count - 1, r) * Value(I, B, c, count - 1)
  }

  /** The solver term of `Prod(Cell(A, k, r), Cell(B, c, k))`. */
  function ProductExpr(k: int, r: int, c: int): S.IntExpr
  {
    S.Mul(S.IntVar(CellName(A, k, r)), S.IntVar(CellName(B, c, k)))
  }

  function ProductExprs(count: nat, r: int, c: int): seq<S.IntExpr>
  {
    if count == 0 then [] else ProductExprs(count - 1, r, c) + [ProductExpr(count - 1, r, c)]
  }

  /** The terms of the `Sum` of `multiplicationFormulas` translate one by one. */
  lemma {:induction false} ProductTermsConvert(count: nat, r: int, c: int)
    ensures ConvIntAll(ProductTerms(count, r, c)) == Converted(ProductExprs(count, r, c))
  {
    if count > 0 {
      var pre := ProductTerms(count - 1, r, c);
      var t := Prod(Cell(A, count - 1, r), Cell(B, c, count - 1));
      ProductTermsConvert(count - 1, r, c);
      assert ConvInt(t) == Converted(ProductExpr(count - 1, r, c));
      ConvIntAllSnoc(pre, t);
      assert ProductTerms(count, r, c) == pre + [t];
    }
  }

  /** The solver's value of those terms' sum is the dot product of row `r` of A with column `c`
      of B. */
  lemma {:induction false} ProductExprsValue(count: nat, r: int, c: int, I: S.Interp)
    ensures S.EvalSum(ProductExprs(count, r, c), I) == CellDot(I, count, r, c)
  {
    if count > 0 {
      ProductExprsValue(count - 1, r, c, I);
      S.EvalSumSnoc(ProductExprs(count - 1, r, c), ProductExpr(count - 1, r, c), I);
    }
  }

  lemma SumOfProducts(count: nat, r: int, c: int, I: S.Interp)
    ensures ConvIntAll(ProductTerms(count, r, c)).Converted?
    ensures S.EvalSum(ConvIntAll(ProductTerms(count, r, c)).expr, I) == CellDot(I, count, r, c)
  {
    ProductTermsConvert(count, r, c);
    ProductExprsValue(count, r, c, I);
  }

  /** One identity constraint holds exactly when entry (`r`, `c`) of `A * B`, under the solver's
      `mod`, is the identity's entry. */
  lemma IdentityConstraintMeaning(n: nat, mod: int, r: int, c: int, I: S.Interp)
    ensures Satisfies(IdentityConstraint(n, mod, r, c), I) <==>
      S.EuclidMod(CellDot(I, n, r, c), mod, I) == Delta(r, c)
  {
    SumOfProducts(n, r, c, I);
    var expected := if r == c then One else Zero;
    assert ConvInt(expected) == Converted(S.IntNum(Delta(r, c)));
    ModEquationHolds(ProductTerms(n, r, c), mod, expected, I);
  }

  lemma MultiplicationEncodingMeaning(fs: seq<Formula>, n: nat, mod: int, I: S.Interp)
    requires IsMultiplicationEncoding(fs, n, mod)
    ensures AllSatisfied(fs, I) <==>
      forall r, c :: 0 <= r < n && 0 <= c < n ==> S.EuclidMod(CellDot(I, n, r, c), mod, I) == Delta(r, c)
  {
    if AllSatisfied(fs, I) {
      forall r, c | 0 <= r < n && 0 <= c < n
        ensures S.EuclidMod(CellDot(I, n, r, c), mod, I) == Delta(r, c)
      {
        assert Satisfies(fs[Flat(n, r, c)], I);
        IdentityConstraintMeaning(n, mod, r, c, I);
      }
    }
    if forall r, c :: 0 <= r < n && 0 <= c < n ==> S.EuclidMod(CellDot(I, n, r, c), mod, I) == Delta(r, c) {
      forall i | 0 <= i < |fs| ensures Satisfies(fs[i], I) {
        FlatSplit(n, i);
        var r, c := i / n, i % n;
        assert fs[Flat(n, r, c)] == IdentityConstraint(n, mod, r, c);
        IdentityConstraintMeaning(n, mod, r, c, I);
      }
    }
  }

  /** `a` and `b` hold, row-major, the values of the cells of A and B on the `n`-by-`n` grid. */
  predicate HoldsCells(I: S.Interp, n: nat, a: seq<int>, b: seq<int>)
  {
    |a| == n * n && |b| == n * n &&
    forall r, c :: 0 <= r < n && 0 <= c < n ==>
      0 <= Flat(n, r, c) < n * n && a[Flat(n, r, c)] == Value(I, A, c, r) && b[Flat(n, r, c)] == Value(I, B, c, r)
  }

  /** The cell sum is `Dot` over matrices holding the cells' values. */
  lemma {:induction false} CellDotIsDot(I: S.Interp, n: nat, a: seq<int>, b: seq<int>, count: nat, r: int, c: int)
    requires HoldsCells(I, n, a, b)
    requires 0 <= r < n && 0 <= c < n && count <= n
    ensures CellDot(I, count, r, c) == Dot(a, b, n, r, c, count)
  {
    if count > 0 {
      CellDotIsDot(I, n, a, b, count - 1, r, c);
      var x, y := a[Flat(n, r, count - 1)], b[Flat(n, count - 1, c)];
      assert x == Value(I, A, count - 1, r) && y == Value(I, B, c, count - 1);
      assert Dot(a, b, n, r, c, count) == Dot(a, b, n, r, c, count - 1) + x * y;
    }
  }

  lemma ReadoutHoldsCells(I: S.Interp, n: nat)
    ensures HoldsCells(I, n, Readout(I, A, n), Readout(I, B, n))
  {
    forall r, c | 0 <= r < n && 0 <= c < n
      ensures 0 <= Flat(n, r, c) < n * n && Readout(I, A, n)[Flat(n, r, c)] == Value(I, A, c, r)
      ensures Readout(I, B, n)[Flat(n, r, c)] == Value(I, B, c, r)
    {
      ReadoutAt(I, A, n, r, c);
      ReadoutAt(I, B, n, r, c);
    }
  }

  /** With a non-zero modulus, the `n * n` identity constraints hold exactly when the values of
      `B` form an inverse of the values of `A` modulo `mod`. */
  lemma MultiplicationEncodingInverse(fs: seq<Formula>, n: nat, mod: int, I: S.Interp)
    requires IsMultiplicationEncoding(fs, n, mod) && mod != 0
    ensures AllSatisfied(fs, I) <==> IsModularInverse(n, mod, Readout(I, A, n), Readout(I, B, n))
  {
    MultiplicationEncodingMeaning(fs, n, mod, I);
    var a, b := Readout(I, A, n), Readout(I, B, n);
    ReadoutHoldsCells(I, n);
    forall r, c | 0 <= r < n && 0 <= c < n
      ensures CellDot(I, n, r, c) == Dot(a, b, n, r, c, n)
    {
      CellDotIsDot(I, n, a, b, n, r, c);
    }
  }

  // ---------------------------------------------------------------------------------------------
  // Binding and range

  /** The binding holds exactly when cell `A[i % cols][i / cols]` has the input's `i`-th value. */
  lemma BindingMeaning(fs: seq<Formula>, cols: int, m: seq<int>, I: S.Interp)
    requires IsMatrixBinding(fs, cols, m)
    ensures AllSatisfied(fs, I) <==>
      forall i :: 0 <= i < cols * cols ==> Value(I, A, i % cols, i / cols) == m[i]
  {
    if AllSatisfied(fs, I) {
      forall i | 0 <= i < cols * cols ensures Value(I, A, i % cols, i / cols) == m[i] {
        assert Satisfies(fs[i], I);
      }
    }
  }

  /** The range constraints hold exactly when every cell of `B` on the grid lies in
      `[0, mod - 1]`. */
  lemma RangeMeaning(fs: seq<Formula>, cols: int, mod: int, I: S.Interp)
    requires IsRangeEncoding(fs, cols, mod)
    ensures AllSatisfied(fs, I) <==>
      forall i :: 0 <= i < cols * cols ==> 0 <= Value(I, B, i % cols, i / cols) <= mod - 1
  {
    if AllSatisfied(fs, I) {
      forall i | 0 <= i < cols * cols ensures 0 <= Value(I, B, i % cols, i / cols) <= mod - 1 {
        RangePairMeaning(fs, i, cols, mod, I);
        assert Satisfies(fs[2 * i], I) && Satisfies(fs[2 * i + 1], I);
      }
    }
    if forall i :: 0 <= i < cols * cols ==> 0 <= Value(I, B, i % cols, i / cols) <= mod - 1 {
      forall j | 0 <= j < |fs| ensures Satisfies(fs[j], I) {
        var i := j / 2;
        RangePairMeaning(fs, i, cols, mod, I);
        assert j == 2 * i || j == 2 * i + 1;
      }
    }
  }

  /** The two constraints of one cell hold exactly when the cell lies in `[0, mod - 1]`. */
  lemma RangePairMeaning(fs: seq<Formula>, i: nat, cols: int, mod: int, I: S.Interp)
    requires IsRangeEncoding(fs, cols, mod) && i < cols * cols
    ensures 2 * i + 1 < |fs|
    ensures Satisfies(fs[2 * i], I) && Satisfies(fs[2 * i + 1], I) <==>
      0 <= Value(I, B, i % cols, i / cols) <= mod - 1
  {
    assert RangeAt(fs, i, cols, mod);
  }

  // ---------------------------------------------------------------------------------------------
  // The whole conjunction, with the inner dimension equal to `cols`

  /** Soundness: a solution of `multiplication + matrix + cell` formulas over a non-empty grid
      holds the input in A and, in B, an inverse of it with entries in `[0, mod)`; a modulus
      below 1 leaves nothing to satisfy. */
  lemma EncodingSound(mf: seq<Formula>, af: seq<Formula>, cf: seq<Formula>,
                      cols: int, mod: int, m: seq<int>, I: S.Interp)
    requires cols >= 1 && |m| == cols * cols
    requires IsMultiplicationEncoding(mf, cols, mod)
    requires IsMatrixBinding(af, cols, m)
    requires IsRangeEncoding(cf, cols, mod)
    requires AllSatisfied(mf + af + cf, I)
    ensures mod >= 1
    ensures Readout(I, A, cols) == m
    ensures forall i :: 0 <= i < cols * cols ==> 0 <= Readout(I, B, cols)[i] < mod
    ensures IsModularInverse(cols, mod, m, Readout(I, B, cols))
  {
    AllSatisfiedConcat(mf + af, cf, I);
    AllSatisfiedConcat(mf, af, I);
    RangeMeaning(cf, cols, mod, I);
    BindingMeaning(af, cols, m, I);
    MulAtLeast(cols, cols);
    assert 0 <= Value(I, B, 0 % cols, 0 / cols) <= mod - 1;
    MultiplicationEncodingInverse(mf, cols, mod, I);
  }

  /** An interpretation that gives the cells of the `n`-by-`n` grid the entries of `a` and `b`
      (row-major) and every other constant 0. */
  function CellValue(a: seq<int>, b: seq<int>, n: nat, name: string): int
  {
    match ParseCellName(name)
    case Some((id, col, row)) =>
      if 0 <= row < n && 0 <= col < n && |a| >= n * n && |b| >= n * n then
        FlatBounds(n, row, col);
        if id == A then a[Flat(n, row, col)] else b[Flat(n, row, col)]
      else 0
    case None => 0
  }

  function CellInterp(a: seq<int>, b: seq<int>, n: nat): S.Interp
  {
    S.Interp(name => CellValue(a, b, n, name), x => 0)
  }

  lemma CellInterpAt(a: seq<int>, b: seq<int>, n: nat, id: MatrixId, col: int, row: int)
    requires |a| == n * n && |b| == n * n && 0 <= col < n && 0 <= row < n
    ensures 0 <= Flat(n, row, col) < n * n
    ensures Value(CellInterp(a, b, n), id, col, row) == (if id == A then a else b)[Flat(n, row, col)]
  {
    FlatBounds(n, row, col);
    NameRoundTrip(id, col, row);
  }

  lemma CellInterpReadout(a: seq<int>, b: seq<int>, n: nat)
    requires |a| == n * n && |b| == n * n
    ensures Readout(CellInterp(a, b, n), A, n) == a
    ensures Readout(CellInterp(a, b, n), B, n) == b
  {
    var I := CellInterp(a, b, n);
    forall i | 0 <= i < n * n
      ensures Readout(I, A, n)[i] == a[i] && Readout(I, B, n)[i] == b[i]
    {
      FlatSplit(n, i);
      CellInterpAt(a, b, n, A, i % n, i / n);
      CellInterpAt(a, b, n, B, i % n, i / n);
    }
  }

  /** Completeness: every inverse with entries in `[0, mod)` is a solution. */
  lemma EncodingComplete(mf: seq<Formula>, af: seq<Formula>, cf: seq<Formula>,
                         cols: int, mod: int, m: seq<int>, b: seq<int>)
    requires cols >= 1 && |m| == cols * cols && |b| == cols * cols
    requires IsMultiplicationEncoding(mf, cols, mod)
    requires IsMatrixBinding(af, cols, m)
    requires IsRangeEncoding(cf, cols, mod)
    requires forall i :: 0 <= i < |b| ==> 0 <= b[i] < mod
    requires IsModularInverse(cols, mod, m, b)
    ensures AllSatisfied(mf + af + cf, CellInterp(m, b, cols))
  {
    var I := CellInterp(m, b, cols);
    CellInterpReadout(m, b, cols);
    MultiplicationEncodingInverse(mf, cols, mod, I);
    BindingMeaning(af, cols, m, I);
    RangeMeaning(cf, cols, mod, I);
    assert forall i :: 0 <= i < cols * cols ==> Readout(I, B, cols)[i] == Value(I, B, i % cols, i / cols);
    AllSatisfiedConcat(mf, af, I);
    AllSatisfiedConcat(mf + af, cf, I);
  }

  // ---------------------------------------------------------------------------------------------
  // From the solver's model to the printed result

  /** A model that agrees with `I` decodes to the values of `B`. */
  lemma DecodingIsReadout(b: seq<int>, cols: int, model: Decode.Model, I: S.Interp)
    requires Decode.IsDecoding(b, cols, model)
    requires forall name :: name in model ==> model[name] == I.value(name)
    ensures b == Readout(I, B, Dim(cols))
  {
    var n := Dim(cols);
    forall i | 0 <= i < |b| ensures b[i] == Readout(I, B, n)[i] {
      FlatSplit(n, i);
      ReadoutAt(I, B, n, i / n, i % n);
    }
  }

  /** End to end, with the inner dimension equal to `cols`: the decoded result is an inverse of
      the input, and the re-check with the canonical residue shows the identity. */
  lemma SolvedInverse(mf: seq<Formula>, af: seq<Formula>, cf: seq<Formula>, cols: int, mod: int,
                      m: seq<int>, I: S.Interp, model: Decode.Model, b: seq<int>)
    requires cols >= 1 && |m| == cols * cols
    requires IsMultiplicationEncoding(mf, cols, mod)
    requires IsMatrixBinding(af, cols, m)
    requires IsRangeEncoding(cf, cols, mod)
    requires AllSatisfied(mf + af + cf, I)
    requires forall name :: name in model ==> model[name] == I.value(name)
    requires Decode.IsDecoding(b, cols, model)
    ensures IsModularInverse(cols, mod, m, b)
    ensures forall r, c :: 0 <= r < cols && 0 <= c < cols ==> CanonicalEntry(m, b, cols, mod, r, c) == Delta(r, c)
  {
    EncodingSound(mf, af, cf, cols, mod, m, I);
    DecodingIsReadout(b, cols, model, I);
    CanonicalRecheck(cols, mod, m, b);
  }

  /** The source as written, at the one size where its fixed inner dimension is right: for
      `cols = 3` a solution is an inverse, and for a non-negative input `mul` prints the
      identity. */
  lemma AsWrittenSound(mf: seq<Formula>, af: seq<Formula>, cf: seq<Formula>,
                       mod: int, m: seq<int>, I: S.Interp)
    requires |m| == 9
    requires IsMultiplicationEncoding(mf, InnerDimension, mod)
    requires IsMatrixBinding(af, 3, m)
    requires IsRangeEncoding(cf, 3, mod)
    requires AllSatisfied(mf + af + cf, I)
    ensures mod >= 1 && forall i :: 0 <= i < 9 ==> 0 <= Readout(I, B, 3)[i] < mod
    ensures IsModularInverse(3, mod, m, Readout(I, B, 3))
    ensures NonNegative(m) ==>
      forall r, c :: 0 <= r < 3 && 0 <= c < 3 ==> ProductEntry(m, Readout(I, B, 3), 3, mod, r, c) == Delta(r, c)
  {
    EncodingSound(mf, af, cf, 3, mod, m, I);
    if NonNegative(m) {
      MulShowsIdentity(3, mod, m, Readout(I, B, 3));
    }
  }
}
