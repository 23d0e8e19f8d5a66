/** Products and rounded-down quotients of integers. */
module Integers {

  lemma OrderByProduct(a: int, b: int, c: int)
    requires c > 0 && a * c < b * c
    ensures a < b
  {
  }

  lemma DivisionRemainder(n: int, s: int)
    requires n >= 0 && s > 0
    ensures (n / s) * s <= n < (n / s) * s + s
    ensures 0 <= n / s
  {
    assert n == s * (n / s) + n % s;
  }

  lemma BetweenMultiples(n: int, s: int, f: int, g: int)
    requires s > 0 && f * s <= n < f * s + s && g * s <= n < g * s + s
    ensures f == g
  {
    assert (g + 1) * s == g * s + s && (f + 1) * s == f * s + s;
    OrderByProduct(f, g + 1, s);
    OrderByProduct(g, f + 1, s);
  }

  /** f is n / s rounded down exactly when f * s <= n < (f + 1) * s. */
  lemma FloorMeaning(n: int, s: int, f: int)
    requires n >= 0 && s > 0
    ensures f == n / s <==> f * s <= n < f * s + s
    ensures f == n / s ==> 0 <= f <= n
  {
    DivisionRemainder(n, s);
    if f * s <= n < f * s + s {
      BetweenMultiples(n, s, f, n / s);
    }
    if f == n / s {
      FactorBound(f, s);
    }
  }

  lemma FloorBounds(n: int, s: int)
    requires n >= 0 && s > 0
    ensures 0 <= n / s <= n && (n / s) * s <= n && n + 1 <= (n / s + 1) * s
  {
    FloorMeaning(n, s, n / s);
  }

  lemma FactorBound(a: int, b: int)
    requires a >= 0 && b > 0
    ensures a <= a * b
  {
  }

  lemma ProductLe(a: int, b: int, c: int)
    requires a <= b && c >= 0
    ensures a * c <= b * c
  {
  }

  lemma ProductLt(a: int, b: int, c: int)
    requires a < b && c > 0
    ensures a * c < b * c
  {
  }

  lemma FloorAtMost(n: int, d: int, bound: int)
    requires n >= 0 && d > 0 && n < bound * d + d
    ensures n / d <= bound
  {
    FloorMeaning(n, d, n / d);
    if n / d > bound {
      ProductLe(bound + 1, n / d, d);
    }
  }

  lemma FloorAtLeast(n: int, d: int, bound: int)
    requires n >= 0 && d > 0 && bound * d <= n
    ensures n / d >= bound
  {
    FloorMeaning(n, d, n / d);
    if n / d < bound {
      ProductLe(n / d + 1, bound, d);
    }
  }

  /** n / d is the greatest factor of d that stays within n. */
  lemma FloorIsGreatest(n: int, d: int, k: int)
    requires n >= 0 && d > 0
    ensures k * d <= n <==> k <= n / d
    ensures n / d >= 0
  {
    FloorMeaning(n, d, n / d);
    if k <= n / d {
      ProductLe(k, n / d, d);
    } else {
      ProductLe(n / d + 1, k, d);
    }
  }
}
