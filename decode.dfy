/** Reading the inverse back out of the solver's model (`extractModel`).  The model is the
    solver's map from constant name to integer value; a constant it has no value for makes the
    lookup return null and the source's cast fail, modelled as `None`. */
module Decode {
  import opened Wrappers
  import opened Formulas
  import opened Arith

  type Model = map<string, int>

  predicate CellsPresent(cols: int, model: Model)
  {
    forall rn, cn :: 0 <= rn < cols && 0 <= cn < cols ==> CellName(B, cn, rn) in model
  }

  /** `b` holds, at `Flat(cols, rn, cn) = rn * cols + cn`, the model's value of the cell `B[cn][rn]`. */
  predicate IsDecoding(b: seq<int>, cols: int, model: Model)
  {
    |b| == Dim(cols) * Dim(cols) &&
    forall rn, cn :: 0 <= rn < cols && 0 <= cn < cols ==>
      0 <= Flat(cols, rn, cn) < |b| && CellName(B, cn, rn) in model &&
      b[Flat(cols, rn, cn)] == model[CellName(B, cn, rn)]
  }

  /** The first `|acc|` cells of `B` in row-major order, looked up in `model`. */
  predicate DecodedPrefix(acc: seq<int>, n: nat, model: Model)
  {
    forall j :: 0 <= j < |acc| ==>
      n > 0 && CellName(B, j % n, j / n) in model && acc[j] == model[CellName(B, j % n, j / n)]
  }

  lemma DecodedPrefixExtend(acc: seq<int>, n: nat, model: Model, rn: int, cn: int)
    requires 0 <= rn < n && 0 <= cn < n && |acc| == Flat(n, rn, cn)
    requires DecodedPrefix(acc, n, model) && CellName(B, cn, rn) in model
    ensures DecodedPrefix(acc + [model[CellName(B, cn, rn)]], n, model)
  {
    FlatDivMod(n, rn, cn);
  }

  lemma DecodedPrefixComplete(acc: seq<int>, cols: int, model: Model)
    requires |acc| == Dim(cols) * Dim(cols) && DecodedPrefix(acc, Dim(cols), model)
    ensures IsDecoding(acc, cols, model)
  {
    forall rn, cn | 0 <= rn < cols && 0 <= cn < cols
      ensures 0 <= Flat(cols, rn, cn) < |acc| && CellName(B, cn, rn) in model &&
              acc[Flat(cols, rn, cn)] == model[CellName(B, cn, rn)]
    {
      FlatBounds(cols, rn, cn);
      FlatDivMod(cols, rn, cn);
    }
  }

  /** `extractModel`. */
  method ExtractModel(cols: int, model: Model) returns (rs: Option<seq<int>>)
    ensures rs.Some? <==> CellsPresent(cols, model)
    ensures rs.Some? ==> IsDecoding(rs.value, cols, model)
  {
    var n := Dim(cols);
    var acc: seq<int> := [];
    for rn := 0 to n
      invariant |acc| == Flat(n, rn, 0)
      invariant DecodedPrefix(acc, n, model)
    {
      for cn := 0 to n
        invariant |acc| == Flat(n, rn, cn)
        invariant DecodedPrefix(acc, n, model)
      {
        var name := CellName(B, cn, rn);
        if name !in model {
          return None;
        }
        DecodedPrefixExtend(acc, n, model, rn, cn);
        acc := acc + [model[name]];
      }
      FlatNextRow(n, rn);
    }
    DecodedPrefixComplete(acc, cols, model);
    rs := Some(acc);
  }
}
