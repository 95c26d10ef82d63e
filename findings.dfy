/** Concrete inputs on which the program as written goes wrong, and concrete instances of the
    corrected encoding. */
module Findings {
  import opened Formulas
  import opened Translator
  import opened Encoder
  import opened Arith
  import opened Multiply
  import opened Soundness
  import S = Solver

  /** A 3-wide dot product, written out. */
  lemma Dot3(a: seq<int>, b: seq<int>, r: int, c: int)
    requires |a| == 9 && |b| == 9 && 0 <= r < 3 && 0 <= c < 3
    ensures Dot(a, b, 3, r, c, 3) == a[3 * r] * b[c] + a[3 * r + 1] * b[3 + c] + a[3 * r + 2] * b[6 + c]
  {
    assert Dot(a, b, 3, r, c, 1) == a[3 * r] * b[c];
    assert Dot(a, b, 3, r, c, 2) == a[3 * r] * b[c] + a[3 * r + 1] * b[3 + c];
  }

  /** A 3-by-3 inverse checked entry by entry. */
  lemma ByEntries3(a: seq<int>, b: seq<int>, mod: int)
    requires |a| == 9 && |b| == 9 && mod != 0
    requires (a[0] * b[0] + a[1] * b[3] + a[2] * b[6]) % mod == 1
    requires (a[0] * b[1] + a[1] * b[4] + a[2] * b[7]) % mod == 0
    requires (a[0] * b[2] + a[1] * b[5] + a[2] * b[8]) % mod == 0
    requires (a[3] * b[0] + a[4] * b[3] + a[5] * b[6]) % mod == 0
    requires (a[3] * b[1] + a[4] * b[4] + a[5] * b[7]) % mod == 1
    requires (a[3] * b[2] + a[4] * b[5] + a[5] * b[8]) % mod == 0
    requires (a[6] * b[0] + a[7] * b[3] + a[8] * b[6]) % mod == 0
    requires (a[6] * b[1] + a[7] * b[4] + a[8] * b[7]) % mod == 0
    requires (a[6] * b[2] + a[7] * b[5] + a[8] * b[8]) % mod == 1
    ensures IsModularInverse(3, mod, a, b)
  {
    Dot3(a, b, 0, 0); Dot3(a, b, 0, 1); Dot3(a, b, 0, 2);
    Dot3(a, b, 1, 0); Dot3(a, b, 1, 1); Dot3(a, b, 1, 2);
    Dot3(a, b, 2, 0); Dot3(a, b, 2, 1); Dot3(a, b, 2, 2);
    forall r, c | 0 <= r < 3 && 0 <= c < 3 ensures Dot(a, b, 3, r, c, 3) % mod == Delta(r, c) {
      assert r == 0 || r == 1 || r == 2;
      assert c == 0 || c == 1 || c == 2;
    }
  }

  // ---------------------------------------------------------------------------------------------
  // The inner dimension of `multiplicationFormulas` is 3 whatever `cols` is

  /** A 3-by-3 pair that satisfies the nine fixed constraints modulo 5 and puts 3 in `A[0][0]` and
      0 in `B[0][0]`. */
  const WideA: seq<int> := [3, 1, 0, 1, 0, 0, 0, 0, 1]
  const WideB: seq<int> := [0, 1, 0, 1, 2, 0, 0, 0, 1]

  lemma WideInverse()
    ensures IsModularInverse(3, 5, WideA, WideB)
  {
    ByEntries3(WideA, WideB, 5);
  }

  /** For `cols = 1`, `mod = 5` and the input `[3]`, the as-written formulas have a solution whose
      decoded `B` is `[0]`, which is not an inverse of `[3]` although `[2]` is. */
  lemma FixedDimensionCounterexample(mf: seq<Formula>, af: seq<Formula>, cf: seq<Formula>)
    requires IsMultiplicationEncoding(mf, InnerDimension, 5)
    requires IsMatrixBinding(af, 1, [3])
    requires IsRangeEncoding(cf, 1, 5)
    ensures AllSatisfied(mf + af + cf, CellInterp(WideA, WideB, 3))
    ensures Readout(CellInterp(WideA, WideB, 3), B, 1) == [0]
    ensures !IsModularInverse(1, 5, [3], [0]) && IsModularInverse(1, 5, [3], [2])
  {
    WideSolves(mf, af, cf);
    ThreeModFive();
  }

  lemma WideSolves(mf: seq<Formula>, af: seq<Formula>, cf: seq<Formula>)
    requires IsMultiplicationEncoding(mf, InnerDimension, 5)
    requires IsMatrixBinding(af, 1, [3])
    requires IsRangeEncoding(cf, 1, 5)
    ensures AllSatisfied(mf + af + cf, CellInterp(WideA, WideB, 3))
    ensures Readout(CellInterp(WideA, WideB, 3), B, 1) == [0]
  {
    var I := CellInterp(WideA, WideB, 3);
    WideMultiplication(mf);
    WideCorner();
    OneCell(af, cf, 3, 0, 5, I);
    AllSatisfiedConcat(mf, af, I);
    AllSatisfiedConcat(mf + af, cf, I);
  }

  lemma WideCorner()
    ensures Value(CellInterp(WideA, WideB, 3), A, 0, 0) == 3
    ensures Value(CellInterp(WideA, WideB, 3), B, 0, 0) == 0
    ensures Readout(CellInterp(WideA, WideB, 3), B, 1) == [0]
  {
    var I := CellInterp(WideA, WideB, 3);
    CellInterpAt(WideA, WideB, 3, A, 0, 0);
    CellInterpAt(WideA, WideB, 3, B, 0, 0);
    assert Readout(I, B, 1) == [Value(I, B, 0, 0)];
  }

  lemma WideMultiplication(mf: seq<Formula>)
    requires IsMultiplicationEncoding(mf, InnerDimension, 5)
    ensures AllSatisfied(mf, CellInterp(WideA, WideB, 3))
  {
    CellInterpReadout(WideA, WideB, 3);
    WideInverse();
    MultiplicationEncodingInverse(mf, 3, 5, CellInterp(WideA, WideB, 3));
  }

  /** Modulo 5, `[2]` is the inverse of `[3]` and `[0]` is not. */
  lemma ThreeModFive()
    ensures !IsModularInverse(1, 5, [3], [0]) && IsModularInverse(1, 5, [3], [2])
  {
    Inverse1(5, [3], [0]);
    Inverse1(5, [3], [2]);
  }

  /** A 1-by-1 inverse is a single product. */
  lemma Inverse1(mod: int, a: seq<int>, b: seq<int>)
    requires mod != 0 && |a| == 1 && |b| == 1
    ensures IsModularInverse(1, mod, a, b) <==> (a[0] * b[0]) % mod == 1
  {
    assert Dot(a, b, 1, 0, 0, 1) == a[0] * b[0];
  }

  /** For `cols = 1` the binding and the range each speak of the one cell (0, 0). */
  lemma OneCell(af: seq<Formula>, cf: seq<Formula>, x: int, y: int, mod: int, I: S.Interp)
    requires IsMatrixBinding(af, 1, [x])
    requires IsRangeEncoding(cf, 1, mod)
    requires Value(I, A, 0, 0) == x && 0 <= Value(I, B, 0, 0) == y < mod
    ensures AllSatisfied(af, I) && AllSatisfied(cf, I)
  {
    BindingMeaning(af, 1, [x], I);
    RangeMeaning(cf, 1, mod, I);
  }

  /** With the inner dimension equal to `cols`, the same input has exactly one solution, `[2]`. */
  lemma MinimalScenario(mf: seq<Formula>, af: seq<Formula>, cf: seq<Formula>, I: S.Interp)
    requires IsMultiplicationEncoding(mf, 1, 5)
    requires IsMatrixBinding(af, 1, [3])
    requires IsRangeEncoding(cf, 1, 5)
    ensures AllSatisfied(mf + af + cf, I) ==> Readout(I, B, 1) == [2]
    ensures AllSatisfied(mf + af + cf, CellInterp([3], [2], 1))
  {
    if AllSatisfied(mf + af + cf, I) {
      EncodingSound(mf, af, cf, 1, 5, [3], I);
      var v := Readout(I, B, 1)[0];
      Inverse1(5, [3], Readout(I, B, 1));
      assert (3 * v) % 5 == 1 && 0 <= v < 5;
      assert Readout(I, B, 1) == [v];
    }
    ThreeModFive();
    EncodingComplete(mf, af, cf, 1, 5, [3], [2]);
  }

  // ---------------------------------------------------------------------------------------------
  // `mul` reduces with the truncating `%`

  /** An input with a negative entry, invertible modulo 5. */
  const NegA: seq<int> := [-2, 0, 0, 0, 1, 0, 0, 0, 1]
  const NegB: seq<int> := [2, 0, 0, 0, 1, 0, 0, 0, 1]

  lemma NegativeInputSolvable()
    ensures IsModularInverse(3, 5, NegA, NegB)
    ensures forall i :: 0 <= i < |NegB| ==> 0 <= NegB[i] < 5
  {
    ByEntries3(NegA, NegB, 5);
  }

  /** Every inverse of `NegA` with entries in `[0, 5)` makes `mul` print -4 at (0, 0), where the
      identity has 1; the canonical residue there is 1. */
  lemma TruncatedRecheckCounterexample(b: seq<int>)
    requires |b| == 9 && forall i :: 0 <= i < 9 ==> 0 <= b[i] < 5
    requires IsModularInverse(3, 5, NegA, b)
    ensures ProductEntry(NegA, b, 3, 5, 0, 0) == -4
    ensures ProductEntry(NegA, b, 3, 5, 0, 0) != Delta(0, 0)
    ensures CanonicalEntry(NegA, b, 3, 5, 0, 0) == Delta(0, 0)
  {
    assert Dot(NegA, b, 3, 0, 0, 1) == -2 * b[0];
    assert Dot(NegA, b, 3, 0, 0, 2) == -2 * b[0];
    assert Dot(NegA, b, 3, 0, 0, 3) == -2 * b[0];
    assert (-2 * b[0]) % 5 == 1;
    assert b[0] == 2;
  }

  // ---------------------------------------------------------------------------------------------
  // A 3-by-3 instance of the program as written

  const SevenA: seq<int> := [1, 2, 3, 0, 1, 4, 5, 6, 0]
  const SevenB: seq<int> := [4, 4, 5, 6, 6, 3, 2, 4, 1]

  /** Modulo 7, `SevenB` solves the as-written formulas for `SevenA`, and `mul` prints the
      identity for it. */
  lemma SevenScenario(mf: seq<Formula>, af: seq<Formula>, cf: seq<Formula>)
    requires IsMultiplicationEncoding(mf, InnerDimension, 7)
    requires IsMatrixBinding(af, 3, SevenA)
    requires IsRangeEncoding(cf, 3, 7)
    ensures AllSatisfied(mf + af + cf, CellInterp(SevenA, SevenB, 3))
    ensures forall r, c :: 0 <= r < 3 && 0 <= c < 3 ==> ProductEntry(SevenA, SevenB, 3, 7, r, c) == Delta(r, c)
  {
    ByEntries3(SevenA, SevenB, 7);
    EncodingComplete(mf, af, cf, 3, 7, SevenA, SevenB);
    MulShowsIdentity(3, 7, SevenA, SevenB);
  }
}
