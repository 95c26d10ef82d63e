/** The symbolic constraint language: cells of the two matrices, integer terms over them and the
    three relations between integer terms.  A cell is identified by its textual name, which is the
    variable the solver sees. */
module Formulas {
  import opened Wrappers

  /** The known input matrix `A` and the unknown inverse `B`. */
  datatype MatrixId = A | B

  datatype Formula =
    | Cell(m: MatrixId, col: int, row: int)
    | Const(n: int)
    | Zero
    | One
    | Sum(vs: seq<Formula>)
    | Prod(left: Formula, right: Formula)
    | Mod(lhs: Formula, rhs: Formula)
    | Eq(left: Formula, right: Formula)
    | Ge(left: Formula, right: Formula)
    | Le(left: Formula, right: Formula)

  // ---------------------------------------------------------------------------------------------
  // Cell names: "<matrix>[<col>][<row>]", with the integers in decimal as Kotlin prints them

  function MatrixName(m: MatrixId): string
  {
    match m
    case A => "A"
    case B => "B"
  }

  predicate IsDigit(c: char) { '0' <= c <= '9' }

  predicate AllDigits(s: string) { forall i :: 0 <= i < |s| ==> IsDigit(s[i]) }

  function DigitChar(d: nat): (c: char)
    requires d < 10
    ensures IsDigit(c)
  {
    (48 + d) as char
  }

  function DigitValue(c: char): nat
    requires IsDigit(c)
  {
    c as int - 48
  }

  /** The decimal digits of `n`, most significant first, without leading zeros. */
  function NatToString(n: nat): (s: string)
    ensures |s| >= 1 && AllDigits(s)
  {
    if n < 10 then [DigitChar(n)] else NatToString(n / 10) + [DigitChar(n % 10)]
  }

  function IntToString(n: int): string
  {
    if n < 0 then "-" + NatToString(-n) else NatToString(n)
  }

  /** A rendered integer holds no bracket, so the brackets of a cell name delimit its fields. */
  lemma IntToStringNoBrackets(n: int)
    ensures forall i :: 0 <= i < |IntToString(n)| ==> IntToString(n)[i] != ']' && IntToString(n)[i] != '['
  {
    var s := IntToString(n);
    if n < 0 {
      assert forall i :: 1 <= i < |s| ==> s[i] == NatToString(-n)[i - 1];
    }
  }

  /** The solver variable of a cell (`Cell.toString`, which `Cell.name` returns). */
  function CellName(m: MatrixId, col: int, row: int): string
  {
    MatrixName(m) + "[" + IntToString(col) + "][" + IntToString(row) + "]"
  }

  // ---------------------------------------------------------------------------------------------
  // Reading a name back: the left inverse of CellName

  function ParseNat(s: string): nat
    requires |s| >= 1 && AllDigits(s)
  {
    if |s| == 1 then DigitValue(s[0]) else ParseNat(s[..|s| - 1]) * 10 + DigitValue(s[|s| - 1])
  }

  function ParseInt(s: string): Option<int>
  {
    if |s| >= 2 && s[0] == '-' && AllDigits(s[1..]) then Some(0 - ParseNat(s[1..]) as int)
    else if |s| >= 1 && AllDigits(s) then Some(ParseNat(s))
    else None
  }

  /** The position of the first `c` in `s`, or `|s|` when there is none. */
  function IndexOf(s: string, c: char): (k: nat)
    ensures k <= |s| && (k < |s| ==> s[k] == c)
    ensures forall j :: 0 <= j < k ==> s[j] != c
  {
    if s == [] || s[0] == c then 0 else 1 + IndexOf(s[1..], c)
  }

  function ParseMatrixName(c: char): Option<MatrixId>
  {
    if c == 'A' then Some(A) else if c == 'B' then Some(B) else None
  }

  function ParseCellName(s: string): Option<(MatrixId, int, int)>
  {
    if |s| < 2 || s[1] != '[' || ParseMatrixName(s[0]).None? then None
    else
      var rest := s[2..];
      var j := IndexOf(rest, ']');
      if j + 3 > |rest| || rest[j + 1] != '[' || rest[|rest| - 1] != ']' then None
      else
        match (ParseInt(rest[..j]), ParseInt(rest[j + 2..|rest| - 1]))
        case (Some(col), Some(row)) => Some((ParseMatrixName(s[0]).value, col, row))
        case _ => None
  }

  lemma {:induction false} NatRoundTrip(n: nat)
    ensures ParseNat(NatToString(n)) == n
  {
    if n >= 10 {
      var s := NatToString(n);
      assert s[..|s| - 1] == NatToString(n / 10);
      NatRoundTrip(n / 10);
    }
  }

  lemma IntRoundTrip(n: int)
    ensures ParseInt(IntToString(n)) == Some(n)
  {
    var s := IntToString(n);
    if n < 0 {
      assert s[1..] == NatToString(-n);
      NatRoundTrip(-n);
    } else {
      assert IsDigit(s[0]);
      NatRoundTrip(n);
    }
  }

  lemma IndexOfPrefix(x: string, y: string, c: char)
    requires forall i :: 0 <= i < |x| ==> x[i] != c
    requires |y| >= 1 && y[0] == c
    ensures IndexOf(x + y, c) == |x|
  {
    assert (x + y)[|x|] == c;
  }

  /** A name is the matrix letter, an opening bracket and then the rest of the name. */
  lemma NameHead(m: MatrixId, cs: string, rs: string)
    ensures var s := MatrixName(m) + "[" + cs + "][" + rs + "]";
      |s| >= 2 && s[1] == '[' && ParseMatrixName(s[0]) == Some(m) &&
      s[2..] == cs + ("][" + rs + "]")
  {
    var s := MatrixName(m) + "[" + cs + "][" + rs + "]";
    var rest := cs + ("][" + rs + "]");
    assert |s| == 2 + |rest|;
    forall i | 0 <= i < |rest|
      ensures s[2..][i] == rest[i]
    {
      if i < |cs| {
        assert s[2 + i] == cs[i];
      } else if i < |cs| + 2 {
      } else {
        assert s[2 + i] == ("][" + rs + "]")[i - |cs|];
      }
    }
  }

  /** After the opening bracket: the column, the closing and opening brackets, the row, a bracket. */
  lemma NameFields(cs: string, rs: string)
    requires forall i :: 0 <= i < |cs| ==> cs[i] != ']'
    ensures var rest := cs + ("][" + rs + "]");
      IndexOf(rest, ']') == |cs| && |cs| + 3 <= |rest| &&
      rest[|cs| + 1] == '[' && rest[|rest| - 1] == ']' &&
      rest[..|cs|] == cs && rest[|cs| + 2..|rest| - 1] == rs
  {
    var tail := "][" + rs + "]";
    var rest := cs + tail;
    IndexOfPrefix(cs, tail, ']');
    assert rest[..|cs|] == cs;
    assert rest[|cs| + 2..|rest| - 1] == tail[2..|tail| - 1] == rs;
  }

  /** Parsing a name laid out as CellName lays it out reads its two fields back as integers. */
  lemma ParseFields(m: MatrixId, cs: string, rs: string)
    requires forall i :: 0 <= i < |cs| ==> cs[i] != ']'
    requires ParseInt(cs).Some? && ParseInt(rs).Some?
    ensures ParseCellName(MatrixName(m) + "[" + cs + "][" + rs + "]")
         == Some((m, ParseInt(cs).value, ParseInt(rs).value))
  {
    var s := MatrixName(m) + "[" + cs + "][" + rs + "]";
    NameHead(m, cs, rs);
    NameFields(cs, rs);
    var rest := s[2..];
    var j := IndexOf(rest, ']');
    assert j == |cs|;
    assert ParseInt(rest[..j]) == ParseInt(cs);
    assert ParseInt(rest[j + 2..|rest| - 1]) == ParseInt(rs);
  }

  /** Reading back the name of a cell gives the cell. */
  lemma NameRoundTrip(m: MatrixId, col: int, row: int)
    ensures ParseCellName(CellName(m, col, row)) == Some((m, col, row))
  {
    var cs, rs := IntToString(col), IntToString(row);
    IntToStringNoBrackets(col);
    IntRoundTrip(col);
    IntRoundTrip(row);
    ParseFields(m, cs, rs);
  }

  /** Two cells share a solver variable exactly when they are the same cell. */
  lemma CellNameInjective(m: MatrixId, col: int, row: int, m': MatrixId, col': int, row': int)
    ensures CellName(m, col, row) == CellName(m', col', row') <==> (m, col, row) == (m', col', row')
  {
    NameRoundTrip(m, col, row);
    NameRoundTrip(m', col', row');
  }

  // ---------------------------------------------------------------------------------------------
  // Kinds: integer-valued terms and boolean-valued relations

  /** Built only from Cell, Const, Zero, One, Sum, Prod and Mod. */
  predicate IsIntFormula(f: Formula)
  {
    match f
    case Cell(_, _, _) => true
    case Const(_) => true
    case Zero => true
    case One => true
    case Sum(vs) => forall i :: 0 <= i < |vs| ==> IsIntFormula(vs[i])
    case Prod(l, r) => IsIntFormula(l) && IsIntFormula(r)
    case Mod(l, r) => IsIntFormula(l) && IsIntFormula(r)
    case Eq(_, _) => false
    case Ge(_, _) => false
    case Le(_, _) => false
  }

  /** An Eq, Ge or Le relation between two integer-valued terms. */
  predicate IsConstraint(f: Formula)
  {
    (f.Eq? || f.Ge? || f.Le?) && IsIntFormula(f.left) && IsIntFormula(f.right)
  }
}
