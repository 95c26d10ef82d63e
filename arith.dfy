/** Integer helpers: Kotlin's truncating remainder, and the row-major flat index `row * n + col`
    of an `n`-by-`n` matrix. */
module Arith {
  /** The number of iterations of `0 until cols`. */
  function Dim(cols: int): nat { if cols > 0 then cols else 0 }

  lemma MulAtLeast(a: int, d: int)
    requires a >= 1 && d > 0
    ensures a * d >= d
  {
    assert a * d == (a - 1) * d + d;
  }

  lemma DivModUnique(x: int, d: int, q: int, r: int)
    requires d > 0 && x == q * d + r && 0 <= r < d
    ensures x / d == q && x % d == r
  {
    var q', r' := x / d, x % d;
    assert x == q' * d + r';
    if q > q' {
      MulAtLeast(q - q', d);
    } else if q < q' {
      MulAtLeast(q' - q, d);
    }
  }

  function Abs(x: int): nat { if x < 0 then -x else x }

  /** Kotlin's `%` on `Int`: the remainder of division truncated toward zero, so it takes the
      sign of the dividend. */
  function TRem(x: int, d: int): (r: int)
    requires d != 0
    ensures Abs(r) < Abs(d)
    ensures r == 0 || (r < 0 <==> x < 0)
    ensures (x - r) % d == 0
    ensures x >= 0 ==> r == x % d
  {
    if x >= 0 then
      ModOfMultiple(x / d, d);
      assert x - x % d == (x / d) * d;
      x % d
    else
      ModOfMultiple(-((-x) / d), d);
      assert x + (-x) % d == (-((-x) / d)) * d;
      -((-x) % d)
  }

  lemma ModOfMultiple(q: int, d: int)
    requires d != 0
    ensures (q * d) % d == 0
  {
    if d > 0 {
      DivModUnique(q * d, d, q, 0);
    } else {
      DivModUniqueNeg(q * d, d);
      DivModUnique(q * d, -d, -q, 0);
    }
  }

  lemma DivModUniqueNeg(x: int, d: int)
    requires d < 0
    ensures x % d == x % (-d)
  {
    var q, r := x / (-d), x % (-d);
    assert x == (-q) * d + r;
  }

  /** The row-major position of row `r`, column `c` in a matrix of `n` columns. */
  function Flat(n: int, r: int, c: int): int { r * n + c }

  lemma FlatBounds(n: int, r: int, c: int)
    requires 0 <= r < n && 0 <= c < n
    ensures 0 <= Flat(n, r, c) < n * n
  {
    if r < n - 1 {
      MulAtLeast(n - 1 - r, n);
    }
    assert r * n + n <= n * n;
  }

  lemma FlatDivMod(n: int, r: int, c: int)
    requires 0 <= r < n && 0 <= c < n
    ensures Flat(n, r, c) / n == r && Flat(n, r, c) % n == c
  {
    DivModUnique(r * n + c, n, r, c);
  }

  lemma FlatInjective(n: int, r: int, c: int, r': int, c': int)
    requires 0 <= r < n && 0 <= c < n && 0 <= r' < n && 0 <= c' < n
    ensures Flat(n, r, c) == Flat(n, r', c') <==> r == r' && c == c'
  {
    FlatDivMod(n, r, c);
    FlatDivMod(n, r', c');
  }

  lemma FlatSplit(n: nat, i: int)
    requires 0 <= i < n * n
    ensures 0 < n && 0 <= i / n < n && 0 <= i % n < n && i == Flat(n, i / n, i % n)
  {
    assert n != 0;
    if i / n >= n {
      MulAtLeast(i / n - n + 1, n);
    }
  }

  /** After row `r` comes row `r + 1`. */
  lemma FlatNextRow(n: int, r: int)
    ensures Flat(n, r, n) == Flat(n, r + 1, 0)
  {
  }
}
