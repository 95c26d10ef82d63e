/** The three constraint generators: the product identity `(A * B) mod m = I`, the range of every
    cell of `B`, and the binding of the cells of `A` to the input matrix. */
module Encoder {
  import opened Formulas
  import opened Translator
  import Arith

  /** The inner dimension `multiplicationFormulas` fixes, whatever the matrix size. */
  const InnerDimension: nat := 3

  /** `(0 until n).map { k -> Prod(Cell(A, k, r), Cell(B, c, k)) }`. */
  function ProductTerms(n: nat, r: int, c: int): (ts: seq<Formula>)
    ensures |ts| == n
    ensures forall k :: 0 <= k < n ==> ts[k] == Prod(Cell(A, k, r), Cell(B, c, k))
  {
    if n == 0 then [] else ProductTerms(n - 1, r, c) + [Prod(Cell(A, n - 1, r), Cell(B, c, n - 1))]
  }

  /** Entry (`r`, `c`) of `A * B`, reduced modulo `mod`, is the identity's entry. */
  function IdentityConstraint(n: nat, mod: int, r: int, c: int): Formula
  {
    Eq(Mod(Sum(ProductTerms(n, r, c)), Const(mod)), if r == c then One else Zero)
  }

  /** `n * n` identity constraints, row-major: position `Flat(n, r, c) = r * n + c` constrains
      entry (`r`, `c`). */
  predicate IsMultiplicationEncoding(fs: seq<Formula>, n: nat, mod: int)
  {
    |fs| == n * n &&
    forall r, c :: 0 <= r < n && 0 <= c < n ==>
      0 <= Arith.Flat(n, r, c) < |fs| && fs[Arith.Flat(n, r, c)] == IdentityConstraint(n, mod, r, c)
  }

  /** The loops of `multiplicationFormulas` over an inner dimension `n`. */
  method MultiplicationFormulasOfSize(n: nat, mod: int) returns (formulas: seq<Formula>)
    ensures IsMultiplicationEncoding(formulas, n, mod)
  {
    var modConst := Const(mod);
    formulas := [];
    for r := 0 to n
      invariant |formulas| == Arith.Flat(n, r, 0)
      invariant forall j :: 0 <= j < |formulas| ==>
        formulas[j] == IdentityConstraint(n, mod, j / n, j % n)
    {
      for c := 0 to n
        invariant |formulas| == Arith.Flat(n, r, c)
        invariant forall j :: 0 <= j < |formulas| ==>
          formulas[j] == IdentityConstraint(n, mod, j / n, j % n)
      {
        var expected := if r == c then One else Zero;
        var sum := Sum(ProductTerms(n, r, c));
        Arith.FlatDivMod(n, r, c);
        formulas := formulas + [Eq(Mod(sum, modConst), expected)];
      }
      Arith.FlatNextRow(n, r);
    }
    forall r, c | 0 <= r < n && 0 <= c < n
      ensures 0 <= Arith.Flat(n, r, c) < |formulas| && formulas[Arith.Flat(n, r, c)] == IdentityConstraint(n, mod, r, c)
    {
      Arith.FlatBounds(n, r, c);
      Arith.FlatDivMod(n, r, c);
    }
  }

  /** `multiplicationFormulas` as written: the inner dimension is 3 for every `cols`. */
  method MultiplicationFormulas(mod: int) returns (formulas: seq<Formula>)
    ensures |formulas| == 9
    ensures IsMultiplicationEncoding(formulas, InnerDimension, mod)
  {
    formulas := MultiplicationFormulasOfSize(InnerDimension, mod);
  }

  // ---------------------------------------------------------------------------------------------
  // Range of the cells of B.  Indices below are non-negative, where Kotlin's truncating `/` and
  // `%` agree with Dafny's Euclidean ones.

  /** Positions `2 i` and `2 i + 1` bound the cell `i % cols`, `i / cols` of B to `[0, mod - 1]`. */
  predicate RangeAt(fs: seq<Formula>, i: nat, cols: int, mod: int)
  {
    cols != 0 && 2 * i + 1 < |fs| &&
    fs[2 * i] == Ge(Cell(B, i % cols, i / cols), Zero) &&
    fs[2 * i + 1] == Le(Cell(B, i % cols, i / cols), Const(mod - 1))
  }

  predicate IsRangeEncoding(fs: seq<Formula>, cols: int, mod: int)
  {
    |fs| == 2 * (cols * cols) && forall i :: 0 <= i < cols * cols ==> RangeAt(fs, i, cols, mod)
  }

  /** The pairs for the first `count` cells. */
  function RangePairs(cols: int, mod: int, count: nat): (fs: seq<Formula>)
    requires count == 0 || cols != 0
    ensures |fs| == 2 * count
    ensures forall i :: 0 <= i < count ==> RangeAt(fs, i, cols, mod)
  {
    if count == 0 then []
    else
      var i := count - 1;
      var pre := RangePairs(cols, mod, i);
      var fs := pre + [Ge(Cell(B, i % cols, i / cols), Zero), Le(Cell(B, i % cols, i / cols), Const(mod - 1))];
      assert forall j :: 0 <= j < i ==> RangeAt(pre, j, cols, mod) ==> RangeAt(fs, j, cols, mod);
      fs
  }

  /** `cellConstraints`. */
  function CellConstraints(cols: int, mod: int): (fs: seq<Formula>)
    ensures IsRangeEncoding(fs, cols, mod)
  {
    RangePairs(cols, mod, cols * cols)
  }

  // ---------------------------------------------------------------------------------------------
  // Binding of A to the input

  predicate IsMatrixBinding(fs: seq<Formula>, cols: int, m: seq<int>)
  {
    |fs| == cols * cols <= |m| &&
    forall i :: 0 <= i < cols * cols ==> fs[i] == Eq(Cell(A, i % cols, i / cols), Const(m[i]))
  }

  /** `matrixFormulas`; the input list always holds `cols * cols` values. */
  method MatrixFormulas(cols: int, m: seq<int>) returns (rs: seq<Formula>)
    requires |m| >= cols * cols
    ensures IsMatrixBinding(rs, cols, m)
  {
    rs := [];
    for i := 0 to cols * cols
      invariant |rs| == i
      invariant forall j :: 0 <= j < i ==> rs[j] == Eq(Cell(A, j % cols, j / cols), Const(m[j]))
    {
      var col := i % cols;
      var row := i / cols;
      rs := rs + [Eq(Cell(A, col, row), Const(m[i]))];
    }
  }

  // ---------------------------------------------------------------------------------------------
  // Kind discipline of the generated formulas

  lemma IdentityConstraintWellKinded(n: nat, mod: int, r: int, c: int)
    ensures IsConstraint(IdentityConstraint(n, mod, r, c))
  {
    var ts := ProductTerms(n, r, c);
    assert forall k :: 0 <= k < |ts| ==> IsIntFormula(ts[k]);
  }

  lemma MultiplicationEncodingWellKinded(fs: seq<Formula>, n: nat, mod: int)
    requires IsMultiplicationEncoding(fs, n, mod)
    ensures forall i :: 0 <= i < |fs| ==> IsConstraint(fs[i])
  {
    forall i | 0 <= i < |fs| ensures IsConstraint(fs[i]) {
      Arith.FlatSplit(n, i);
      var r, c := i / n, i % n;
      assert fs[Arith.Flat(n, r, c)] == IdentityConstraint(n, mod, r, c);
      IdentityConstraintWellKinded(n, mod, r, c);
    }
  }

  lemma RangeEncodingWellKinded(fs: seq<Formula>, cols: int, mod: int)
    requires IsRangeEncoding(fs, cols, mod)
    ensures forall i :: 0 <= i < |fs| ==> IsConstraint(fs[i])
  {
    forall i | 0 <= i < |fs| ensures IsConstraint(fs[i]) {
      assert RangeAt(fs, i / 2, cols, mod);
    }
  }

  /** Every formula the three generators produce translates: `conv` never reaches its throw. */
  lemma GeneratedFormulasTranslate(mf: seq<Formula>, af: seq<Formula>, cf: seq<Formula>,
                                   n: nat, cols: int, mod: int, m: seq<int>)
    requires IsMultiplicationEncoding(mf, n, mod)
    requires IsMatrixBinding(af, cols, m)
    requires IsRangeEncoding(cf, cols, mod)
    ensures forall f :: f in mf + af + cf ==> Conv(f).Converted?
  {
    MultiplicationEncodingWellKinded(mf, n, mod);
    RangeEncodingWellKinded(cf, cols, mod);
    forall f | f in mf + af + cf ensures IsConstraint(f) {
      if f in mf {
        var i :| 0 <= i < |mf| && mf[i] == f;
      } else if f in af {
        var i :| 0 <= i < |af| && af[i] == f;
      } else {
        var i :| 0 <= i < |cf| && cf[i] == f;
      }
    }
  }
}
