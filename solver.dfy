/** The part of the external solver's vocabulary the translator targets (integer constants named
    by string, integer literals, n-ary addition, multiplication, modulo, and the three relations),
    with the meaning the solver gives those terms under an interpretation.  This stands in for the
    solver library; its search is not modelled. */
module Solver {
  datatype IntExpr =
    | IntVar(name: string)
    | IntNum(value: int)
    | Add(args: seq<IntExpr>)
    | Mul(left: IntExpr, right: IntExpr)
    | Mod(dividend: IntExpr, divisor: IntExpr)

  datatype BoolExpr =
    | Equal(left: IntExpr, right: IntExpr)
    | AtLeast(left: IntExpr, right: IntExpr)
    | AtMost(left: IntExpr, right: IntExpr)

  /** An interpretation: a value for every integer constant, by name, and for the solver's
      unspecified `x mod 0`, which it treats as an uninterpreted function of `x`. */
  datatype Interp = Interp(value: string -> int, modByZero: int -> int)

  /** Integer `mod` of the solver: Euclidean, the result lies in `[0, |d|)` for `d != 0`. */
  function EuclidMod(x: int, d: int, I: Interp): int
  {
    if d == 0 then I.modByZero(x) else x % d
  }

  function EvalInt(e: IntExpr, I: Interp): int
  {
    match e
    case IntVar(name) => I.value(name)
    case IntNum(v) => v
    case Add(args) => EvalSum(args, I)
    case Mul(l, r) => EvalInt(l, I) * EvalInt(r, I)
    case Mod(l, r) => EuclidMod(EvalInt(l, I), EvalInt(r, I), I)
  }

  function EvalSum(args: seq<IntExpr>, I: Interp): int
  {
    if args == [] then 0 else EvalSum(args[..|args| - 1], I) + EvalInt(args[|args| - 1], I)
  }

  predicate Holds(b: BoolExpr, I: Interp)
  {
    match b
    case Equal(l, r) => EvalInt(l, I) == EvalInt(r, I)
    case AtLeast(l, r) => EvalInt(l, I) >= EvalInt(r, I)
    case AtMost(l, r) => EvalInt(l, I) <= EvalInt(r, I)
  }

  /** Adding one operand at the end adds its value. */
  lemma EvalSumSnoc(args: seq<IntExpr>, e: IntExpr, I: Interp)
    ensures EvalSum(args + [e], I) == EvalSum(args, I) + EvalInt(e, I)
  {
    assert (args + [e])[..|args|] == args;
  }

  lemma EvalModByLiteral(l: IntExpr, k: int, I: Interp)
    ensures EvalInt(Mod(l, IntNum(k)), I) == EuclidMod(EvalInt(l, I), k, I)
  {
  }
}
