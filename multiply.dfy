/** The independent re-check `mul`: the row-major product of two `cols`-by-`cols` matrices with
    every entry reduced by Kotlin's truncating `%`. */
module Multiply {
  import opened Arith

  /** `a[row * cols + k] * b[k * cols + col]` summed over `k < count`, accumulated from `k = 0`
      upward. */
  function Dot(a: seq<int>, b: seq<int>, cols: int, row: int, col: int, count: nat): int
    requires 0 <= row < cols && 0 <= col < cols && count <= cols
    requires |a| >= cols * cols && |b| >= cols * cols
  {
    if count == 0 then 0
    else
      FlatBounds(cols, row, count - 1);
      FlatBounds(cols, count - 1, col);
      Dot(a, b, cols, row, col, count - 1) + a[Flat(cols, row, count - 1)] * b[Flat(cols, count - 1, col)]
  }

  /** The identity matrix's entry. */
  function Delta(r: int, c: int): int { if r == c then 1 else 0 }

  /** Entry (`row`, `col`) of `mul`'s result: the dot product under Kotlin's `%`. */
  function ProductEntry(a: seq<int>, b: seq<int>, cols: int, mod: int, row: int, col: int): int
    requires 0 <= row < cols && 0 <= col < cols && mod != 0
    requires |a| >= cols * cols && |b| >= cols * cols
  {
    TRem(Dot(a, b, cols, row, col, cols), mod)
  }

  /** The first `|rs|` entries of `mul`'s result, row-major. */
  predicate ProductPrefix(rs: seq<int>, a: seq<int>, b: seq<int>, cols: int, mod: int)
  {
    forall j :: 0 <= j < |rs| ==>
      cols > 0 && 0 <= j / cols < cols && mod != 0 && |a| >= cols * cols && |b| >= cols * cols &&
      rs[j] == ProductEntry(a, b, cols, mod, j / cols, j % cols)
  }

  lemma ProductPrefixExtend(rs: seq<int>, a: seq<int>, b: seq<int>, cols: int, mod: int, row: int, col: int)
    requires 0 <= row < cols && 0 <= col < cols && |rs| == Flat(cols, row, col)
    requires mod != 0 && |a| >= cols * cols && |b| >= cols * cols
    requires ProductPrefix(rs, a, b, cols, mod)
    ensures ProductPrefix(rs + [ProductEntry(a, b, cols, mod, row, col)], a, b, cols, mod)
  {
    FlatDivMod(cols, row, col);
  }

  lemma ProductPrefixComplete(rs: seq<int>, a: seq<int>, b: seq<int>, cols: int, mod: int)
    requires cols > 0 ==> mod != 0 && |a| >= cols * cols && |b| >= cols * cols
    requires |rs| == Dim(cols) * Dim(cols) && ProductPrefix(rs, a, b, cols, mod)
    ensures forall row, col :: 0 <= row < cols && 0 <= col < cols ==>
      0 <= Flat(cols, row, col) < |rs| && rs[Flat(cols, row, col)] == ProductEntry(a, b, cols, mod, row, col)
  {
    forall row, col | 0 <= row < cols && 0 <= col < cols
      ensures 0 <= Flat(cols, row, col) < |rs| && rs[Flat(cols, row, col)] == ProductEntry(a, b, cols, mod, row, col)
    {
      FlatBounds(cols, row, col);
      FlatDivMod(cols, row, col);
    }
  }

  /** `mul`. */
  method Mul(cols: int, mod: int, a: seq<int>, b: seq<int>) returns (rs: seq<int>)
    requires cols > 0 ==> mod != 0 && |a| >= cols * cols && |b| >= cols * cols
    ensures |rs| == Dim(cols) * Dim(cols)
    ensures forall row, col :: 0 <= row < cols && 0 <= col < cols ==>
      0 <= Flat(cols, row, col) < |rs| && rs[Flat(cols, row, col)] == ProductEntry(a, b, cols, mod, row, col)
  {
    rs := [];
    if cols <= 0 {
      return;  // `0 until cols` is empty
    }
    for row := 0 to cols
      invariant |rs| == Flat(cols, row, 0)
      invariant ProductPrefix(rs, a, b, cols, mod)
    {
      for col := 0 to cols
        invariant |rs| == Flat(cols, row, col)
        invariant ProductPrefix(rs, a, b, cols, mod)
      {
        var sum := 0;
        for k := 0 to cols
          invariant sum == Dot(a, b, cols, row, col, k)
        {
          FlatBounds(cols, row, k);
          FlatBounds(cols, k, col);
          sum := sum + a[row * cols + k] * b[k * cols + col];
        }
        ProductPrefixExtend(rs, a, b, cols, mod, row, col);
        rs := rs + [TRem(sum, mod)];
      }
      FlatNextRow(cols, row);
    }
    ProductPrefixComplete(rs, a, b, cols, mod);
  }

  predicate NonNegative(s: seq<int>) { forall i :: 0 <= i < |s| ==> s[i] >= 0 }

  lemma {:induction false} DotNonNegative(a: seq<int>, b: seq<int>, cols: int, row: int, col: int, count: nat)
    requires 0 <= row < cols && 0 <= col < cols && count <= cols
    requires |a| >= cols * cols && |b| >= cols * cols
    requires NonNegative(a) && NonNegative(b)
    ensures Dot(a, b, cols, row, col, count) >= 0
  {
    if count > 0 {
      DotNonNegative(a, b, cols, row, col, count - 1);
      FlatBounds(cols, row, count - 1);
      FlatBounds(cols, count - 1, col);
      var x, y := a[Flat(cols, row, count - 1)], b[Flat(cols, count - 1, col)];
      assert x * y >= 0;
    }
  }

  /** With a positive modulus and non-negative inputs every entry of `mul` lies in `[0, mod)`. */
  lemma ProductEntryInRange(a: seq<int>, b: seq<int>, cols: int, mod: int, row: int, col: int)
    requires 0 <= row < cols && 0 <= col < cols && mod >= 1
    requires |a| >= cols * cols && |b| >= cols * cols
    requires NonNegative(a) && NonNegative(b)
    ensures 0 <= ProductEntry(a, b, cols, mod, row, col) < mod
  {
    DotNonNegative(a, b, cols, row, col, cols);
  }

  /** `b` is a right inverse of `a` modulo `mod`: every entry of `a * b`, reduced into the
      canonical residues, is the identity's. */
  predicate IsModularInverse(cols: int, mod: int, a: seq<int>, b: seq<int>)
  {
    mod != 0 && |a| >= cols * cols && |b| >= cols * cols &&
    forall r, c :: 0 <= r < cols && 0 <= c < cols ==> Dot(a, b, cols, r, c, cols) % mod == Delta(r, c)
  }

  /** For non-negative inputs `mul` shows the identity exactly when `b` is an inverse of `a`. */
  lemma MulShowsIdentity(cols: int, mod: int, a: seq<int>, b: seq<int>)
    requires cols >= 1 && mod != 0 && |a| >= cols * cols && |b| >= cols * cols
    requires NonNegative(a) && NonNegative(b)
    ensures IsModularInverse(cols, mod, a, b) <==>
      forall r, c :: 0 <= r < cols && 0 <= c < cols ==> ProductEntry(a, b, cols, mod, r, c) == Delta(r, c)
  {
    forall r, c | 0 <= r < cols && 0 <= c < cols
      ensures ProductEntry(a, b, cols, mod, r, c) == Dot(a, b, cols, r, c, cols) % mod
    {
      DotNonNegative(a, b, cols, r, c, cols);
    }
  }

  /** The re-check with the canonical residue: the Euclidean remainder in `[0, |mod|)` rather than
      `%`.  For `mod >= 1`, the only moduli a solution allows, it is `Math.floorMod`. */
  function CanonicalEntry(a: seq<int>, b: seq<int>, cols: int, mod: int, row: int, col: int): (v: int)
    requires 0 <= row < cols && 0 <= col < cols && mod != 0
    requires |a| >= cols * cols && |b| >= cols * cols
    ensures 0 <= v < Abs(mod)
    ensures (Dot(a, b, cols, row, col, cols) - v) % mod == 0
  {
    var d := Dot(a, b, cols, row, col, cols);
    ModOfMultiple(d / mod, mod);
    assert d - d % mod == (d / mod) * mod;
    d % mod
  }

  /** With the canonical residue the re-check shows the identity exactly when `b` is an inverse
      of `a`, whatever the signs of their entries. */
  lemma CanonicalRecheck(cols: int, mod: int, a: seq<int>, b: seq<int>)
    requires mod != 0 && |a| >= cols * cols && |b| >= cols * cols
    ensures IsModularInverse(cols, mod, a, b) <==>
      forall r, c :: 0 <= r < cols && 0 <= c < cols ==> CanonicalEntry(a, b, cols, mod, r, c) == Delta(r, c)
  {
  }
}
