/** Lowering of formulas to solver terms (`convInt` and `conv`).  Each is one case per formula
    kind; a formula of the wrong kind ends in `IllegalArgument`, the model of the exception the
    source throws. */
module Translator {
  import opened Formulas
  import S = Solver

  datatype Conversion<T> = Converted(expr: T) | IllegalArgument

  /** `convInt`: succeeds exactly on integer-valued formulas. */
  function ConvInt(f: Formula): (r: Conversion<S.IntExpr>)
    ensures r.Converted? <==> IsIntFormula(f)
  {
    match f
    case Prod(l, r) =>
      (match (ConvInt(l), ConvInt(r))
       case (Converted(x), Converted(y)) => Converted(S.Mul(x, y))
       case _ => IllegalArgument)
    case Sum(vs) =>
      (match ConvIntAll(vs)
       case Converted(es) => Converted(S.Add(es))
       case IllegalArgument => IllegalArgument)
    case Cell(m, col, row) => Converted(S.IntVar(CellName(m, col, row)))
    case Const(n) => Converted(S.IntNum(n))
    case Mod(l, r) =>
      (match (ConvInt(l), ConvInt(r))
       case (Converted(x), Converted(y)) => Converted(S.Mod(x, y))
       case _ => IllegalArgument)
    case Zero => Converted(S.IntNum(0))
    case One => Converted(S.IntNum(1))
    case _ => IllegalArgument
  }

  /** `vs.map(::convInt)`: fails if any element fails, and otherwise converts element-wise. */
  function ConvIntAll(vs: seq<Formula>): (r: Conversion<seq<S.IntExpr>>)
    ensures r.Converted? <==> forall i :: 0 <= i < |vs| ==> IsIntFormula(vs[i])
    ensures r.Converted? ==> |r.expr| == |vs|
  {
    if vs == [] then Converted([])
    else
      var init := vs[..|vs| - 1];
      assert forall i :: 0 <= i < |init| ==> init[i] == vs[i];
      match (ConvIntAll(init), ConvInt(vs[|vs| - 1]))
      case (Converted(es), Converted(e)) => Converted(es + [e])
      case _ => IllegalArgument
  }

  /** Element `i` of a converted list is the conversion of formula `i`. */
  lemma {:induction false} ConvIntAllPointwise(vs: seq<Formula>, i: int)
    requires ConvIntAll(vs).Converted? && 0 <= i < |vs|
    ensures ConvInt(vs[i]) == Converted(ConvIntAll(vs).expr[i])
  {
    var init := vs[..|vs| - 1];
    if i < |init| {
      ConvIntAllPointwise(init, i);
      assert init[i] == vs[i];
    }
  }

  /** `conv`: succeeds exactly on an Eq, Ge or Le over integer-valued operands. */
  function Conv(f: Formula): (r: Conversion<S.BoolExpr>)
    ensures r.Converted? <==> IsConstraint(f)
  {
    match f
    case Eq(l, r) =>
      (match (ConvInt(l), ConvInt(r))
       case (Converted(x), Converted(y)) => Converted(S.Equal(x, y))
       case _ => IllegalArgument)
    case Ge(l, r) =>
      (match (ConvInt(l), ConvInt(r))
       case (Converted(x), Converted(y)) => Converted(S.AtLeast(x, y))
       case _ => IllegalArgument)
    case Le(l, r) =>
      (match (ConvInt(l), ConvInt(r))
       case (Converted(x), Converted(y)) => Converted(S.AtMost(x, y))
       case _ => IllegalArgument)
    case _ => IllegalArgument
  }

  /** A formula holds under `I` when it translates and the solver term holds. */
  predicate Satisfies(f: Formula, I: S.Interp)
  {
    Conv(f).Converted? && S.Holds(Conv(f).expr, I)
  }

  /** The conjunction that the solver is given. */
  predicate AllSatisfied(fs: seq<Formula>, I: S.Interp)
  {
    forall i :: 0 <= i < |fs| ==> Satisfies(fs[i], I)
  }

  lemma AllSatisfiedConcat(xs: seq<Formula>, ys: seq<Formula>, I: S.Interp)
    ensures AllSatisfied(xs + ys, I) <==> AllSatisfied(xs, I) && AllSatisfied(ys, I)
  {
    if AllSatisfied(xs, I) && AllSatisfied(ys, I) {
      forall i | 0 <= i < |xs + ys| ensures Satisfies((xs + ys)[i], I) {
        if i >= |xs| { assert (xs + ys)[i] == ys[i - |xs|]; }
      }
    }
    if AllSatisfied(xs + ys, I) {
      forall i | 0 <= i < |xs| ensures Satisfies(xs[i], I) {
        assert (xs + ys)[i] == xs[i];
      }
      forall i | 0 <= i < |ys| ensures Satisfies(ys[i], I) {
        assert (xs + ys)[|xs| + i] == ys[i];
      }
    }
  }

  /** Two cells are translated to the same solver variable exactly when they are equal. */
  lemma CellVariableIdentity(c: Formula, d: Formula)
    requires c.Cell? && d.Cell?
    ensures ConvInt(c) == ConvInt(d) <==> c == d
  {
    CellNameInjective(c.m, c.col, c.row, d.m, d.col, d.row);
  }

  /** Converting a list with one more formula at the end appends its conversion. */
  lemma ConvIntAllSnoc(vs: seq<Formula>, v: Formula)
    requires ConvIntAll(vs).Converted? && ConvInt(v).Converted?
    ensures ConvIntAll(vs + [v]) == Converted(ConvIntAll(vs).expr + [ConvInt(v).expr])
  {
    assert (vs + [v])[..|vs|] == vs;
  }

  /** An identity constraint's shape, `(Sum(vs) mod k) = e`, holds when the solver's `mod` of the
      sum's value is the value of `e`. */
  lemma ModEquationHolds(vs: seq<Formula>, k: int, e: Formula, I: S.Interp)
    requires ConvIntAll(vs).Converted? && ConvInt(e).Converted?
    ensures Satisfies(Eq(Mod(Sum(vs), Const(k)), e), I) <==>
      S.EuclidMod(S.EvalSum(ConvIntAll(vs).expr, I), k, I) == S.EvalInt(ConvInt(e).expr, I)
  {
    var sum := S.Add(ConvIntAll(vs).expr);
    assert ConvInt(Sum(vs)) == Converted(sum);
    var lhs := S.Mod(sum, S.IntNum(k));
    assert ConvInt(Mod(Sum(vs), Const(k))) == Converted(lhs);
    assert Conv(Eq(Mod(Sum(vs), Const(k)), e)) == Converted(S.Equal(lhs, ConvInt(e).expr));
    S.EvalModByLiteral(sum, k, I);
  }
}
