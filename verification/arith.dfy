/**
 Integer facts the raster model leans on: monotonicity of multiplication,
 uniqueness of Euclidean division, and C-style division that truncates
 toward zero (the effect of casting a non-integral `double` back to `int`).
 */
module Arith {

  lemma MulMonotone(a: int, b: int, c: int)
    requires a <= b && 0 <= c
    ensures a * c <= b * c
  {
  }

  lemma MulSucc(a: int, c: int)
    ensures (a + 1) * c == a * c + c
  {
  }

  /** Quotient and remainder of a Euclidean division are determined by any decomposition. */
  lemma DivUnique(n: int, d: int, q: int, r: int)
    requires 0 < d && 0 <= r < d && n == q * d + r
    ensures n / d == q && n % d == r
  {
    var q' := n / d;
    var r' := n % d;
    assert n == q' * d + r';
    if q' < q {
      MulMonotone(q' + 1, q, d);
      MulSucc(q', d);
      assert false;
    } else if q < q' {
      MulMonotone(q + 1, q', d);
      MulSucc(q, d);
      assert false;
    }
  }

  /** Euclidean division by a positive divisor is the floor: it stays between bounds that bracket n. */
  lemma FloorBetween(n: int, d: int, lo: int, hi: int)
    requires 0 < d && lo * d <= n <= hi * d
    ensures lo <= n / d <= hi
  {
    var q := n / d;
    assert n == q * d + n % d;
    if q < lo {
      MulMonotone(q + 1, lo, d);
      MulSucc(q, d);
      assert false;
    }
    if hi < q {
      MulMonotone(hi, q, d);
      assert false;
    }
  }

  /** Division rounding toward zero, as C's `(int)` cast of the exact quotient does. */
  function TruncDiv(n: int, d: int): int
    requires 0 < d
  {
    if 0 <= n then n / d else -((-n) / d)
  }

  /** An exact multiple divides back to its factor, whatever its sign. */
  lemma TruncDivExact(k: int, d: int)
    requires 0 < d
    ensures TruncDiv(k * d, d) == k
  {
    if 0 <= k * d {
      DivUnique(k * d, d, k, 0);
    } else {
      assert -(k * d) == (-k) * d;
      DivUnique(-(k * d), d, -k, 0);
    }
  }

  /** Truncating a quotient that lies between two integers keeps it between them. */
  lemma TruncDivBetween(n: int, d: int, lo: int, hi: int)
    requires 0 < d && lo * d <= n <= hi * d
    ensures lo <= TruncDiv(n, d) <= hi
  {
    if 0 <= n {
      FloorBetween(n, d, lo, hi);
    } else {
      assert (-hi) * d <= -n <= (-lo) * d;
      FloorBetween(-n, d, -hi, -lo);
    }
  }
}
