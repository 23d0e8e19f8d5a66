/** The big.Float helpers of math/arithmetic.go, and when they agree with integer division. */
module Arithmetic {
  import opened Machine
  import opened Integers
  import opened Rounding

  /** big.NewFloat makes a 53-bit float; SetInt64 on a fresh big.Float a 64-bit one.
      Both are given by their least full mantissa. */
  const SHORT: int := 0x10_0000_0000_0000
  const LONG: int := 0x8000_0000_0000_0000

  function Mul53(x: real, y: real): real {
    Round(SHORT, x * y)
  }

  /** MulFloat64ByBigFloat with a 64-bit factor */
  function Mul64(x: real, y: real): real {
    Round(LONG, x * y)
  }

  function Add53(x: real, y: real): real {
    Round(SHORT, x + y)
  }

  /** The products and sums that an accumulator started at big.NewFloat(seed) goes through. */
  function Products(seed: real, floats: seq<real>): real
    decreases |floats|
  {
    if floats == [] then seed
    else Mul53(Products(seed, floats[..|floats| - 1]), floats[|floats| - 1])
  }

  function Sums(seed: real, floats: seq<real>): real
    decreases |floats|
  {
    if floats == [] then seed
    else Add53(Sums(seed, floats[..|floats| - 1]), floats[|floats| - 1])
  }

  lemma ProductsStep(seed: real, floats: seq<real>, i: nat)
    requires i < |floats|
    ensures Products(seed, floats[..i + 1]) == Mul53(Products(seed, floats[..i]), floats[i])
  {
    assert floats[..i + 1][..i] == floats[..i];
  }

  lemma SumsStep(seed: real, floats: seq<real>, i: nat)
    requires i < |floats|
    ensures Sums(seed, floats[..i + 1]) == Add53(Sums(seed, floats[..i]), floats[i])
  {
    assert floats[..i + 1][..i] == floats[..i];
  }

  method MulF(floats: seq<real>) returns (product: real)
    ensures product == Products(1.0, floats)
  {
    product := 1.0;
    for i := 0 to |floats|
      invariant product == Products(1.0, floats[..i])
    {
      ProductsStep(1.0, floats, i);
      product := Mul53(product, floats[i]);
    }
    assert floats[..|floats|] == floats;
  }

  method AddF(floats: seq<real>) returns (sum: real)
    ensures sum == Sums(0.0, floats)
  {
    sum := 0.0;
    for i := 0 to |floats|
      invariant sum == Sums(0.0, floats[..i])
    {
      SumsStep(0.0, floats, i);
      sum := Add53(sum, floats[i]);
    }
    assert floats[..|floats|] == floats;
  }

  /** new(big.Float).Quo of two 64-bit floats */
  function Quo(x: real, y: real): real
    requires y != 0.0
  {
    Round(LONG, x / y)
  }

  /** Rounded toward zero, as big.Float.Int does. */
  function Int(x: real): int {
    if x >= 0.0 then x.Floor else -((-x).Floor)
  }

  /** big.Int.Uint64 keeps the low 64 bits of the absolute value. */
  function LowUint64(i: int): uint64 {
    (if i >= 0 then i else -i) % TWO_64
  }

  lemma IntMeaning(x: real)
    ensures x >= 0.0 ==> Int(x) as real <= x < (Int(x) + 1) as real
    ensures x <= 0.0 ==> (Int(x) - 1) as real < x <= Int(x) as real
  {
  }

  lemma LowUint64Meaning(i: int)
    ensures Congruent(LowUint64(i), if i >= 0 then i else -i)
    ensures 0 <= i <= MAX_UINT64 ==> LowUint64(i) == i
  {
    var a := if i >= 0 then i else -i;
    assert LowUint64(i) == a + TWO_64 * (-(a / TWO_64));
  }

  // ---------------------------------------------------------------------------------------

  lemma RoundOrder(lead: int, x: real, y: real)
    requires lead >= 1 && 0.0 <= x <= y
    ensures 0.0 <= Round(lead, x) <= Round(lead, y)
  {
    if x > 0.0 {
      RoundScaledMonotone(lead, x, y);
      RoundScaledPositive(lead, x);
    } else if y > 0.0 {
      RoundScaledPositive(lead, y);
    }
  }

  /** Integers that fit the mantissa are unchanged by rounding. */
  lemma RoundInteger(lead: int, k: int)
    requires lead >= 1 && 0 <= k <= 2 * lead
    ensures Round(lead, k as real) == k as real
  {
    if k > 0 {
      RoundScaledNearInteger(lead, k as real, 0.0, k);
    }
  }

  /** The largest product reserve * part for which the float path below is proved exact:
      2^53 - 2^43. */
  const EXACT_LIMIT: int := 0x1f_f800_0000_0000

  /** The float path of liquidity changes: reserve * (part / whole), truncated. */
  function Share(reserve: int, part: int, whole: int): int
    requires whole != 0
  {
    Int(Products(1.0, [reserve as real, Quo(part as real, whole as real)]))
  }

  lemma ProductsOfTwo(x: real, y: real)
    ensures Products(1.0, [x, y]) == Mul53(Round(SHORT, x), y)
  {
    assert [x, y][..1] == [x];
    assert [x][..0] == [];
    assert Products(1.0, [x]) == Mul53(1.0, x);
  }

  lemma MulOrder(a: real, b: real, c: real)
    requires a <= b && c >= 0.0
    ensures a * c <= b * c
  {
  }

  lemma AbsScale(a: real, b: real, c: real)
    requires c >= 0.0
    ensures Abs(a * c - b * c) == Abs(a - b) * c
  {
    assert a * c - b * c == (a - b) * c;
  }

  lemma ScaledError(d: real, c: real, q: real, w: real)
    requires d * c <= q && w >= 0.0
    ensures (d * w) * c <= q * w
  {
    MulOrder(d * c, q, w);
    assert (d * c) * w == (d * w) * c;
  }

  /** An approximation of p / w, scaled by r * w, is as close (relatively) to r * p. */
  lemma ScaledRatio(r: real, p: real, w: real, q: real, ratio: real, c: real)
    requires r >= 0.0 && w > 0.0 && q * w == p && Abs(ratio - q) * c <= q
    ensures Abs((r * ratio) * w - r * p) * c <= r * p
  {
    var rw := r * w;
    assert ratio * rw == (r * ratio) * w;
    assert q * rw == r * (q * w);
    AbsScale(ratio, q, rw);
    ScaledError(Abs(ratio - q), c, q, rw);
  }

  /** z is within n / 2^64 of n / s after scaling by s; y is within z / 2^53 of z. Then y stays below
      (n + 1) / s as long as n is within the limit. */
  lemma BelowNext(n: real, s: real, z: real, y: real)
    requires 0.0 <= n <= 8998403161718784.0 && s > 0.0 && z >= 0.0
    requires Abs(z * s - n) * 18446744073709551616.0 <= n
    requires Abs(y - z) * 9007199254740992.0 <= z
    ensures y * s < n + 1.0
  {
    var zs := z * s;
    var c := 9007199254740992.0;
    ScaledError(Abs(y - z), c, z, s);
    AbsScale(y, z, s);
    assert Abs(y * s - zs) * c <= zs;
  }

  lemma RatioFacts(part: int, whole: int)
    requires part > 0 && whole > 0
    ensures (part as real / whole as real) * whole as real == part as real
    ensures Quo(part as real, whole as real) > 0.0
    ensures Abs(Quo(part as real, whole as real) - part as real / whole as real) * 18446744073709551616.0
         <= part as real / whole as real
  {
    var q := part as real / whole as real;
    RoundScaledError(LONG, q);
    UlpBound(LONG, 9223372036854775808.0, q);
    RoundScaledPositive(LONG, part as real / whole as real);
  }

  /** z is close enough to n / s from below, and f == floor(n / s), for z to round to at least f. */
  lemma AboveFloor(n: real, s: real, z: real, f: int)
    requires 0.0 <= n && s > 0.0 && z > 0.0 && 1 <= f <= 2 * SHORT && f as real * s <= n
    requires Abs(z * s - n) * 18446744073709551616.0 <= n
    ensures RoundScaled(SHORT, z) >= f as real
  {
    if z >= f as real {
      RoundScaledNearInteger(SHORT, f as real, 0.0, f);
      RoundScaledMonotone(SHORT, f as real, z);
    } else {
      GapBound(n, s, z, f as real);
      RoundScaledNearInteger(SHORT, z, f as real - z, f);
    }
  }

  lemma GapBound(n: real, s: real, z: real, f: real)
    requires s > 0.0 && 0.0 < z < f && f * s <= n
    requires Abs(z * s - n) * 18446744073709551616.0 <= n
    ensures (f - z) * 36028797018963968.0 <= f
  {
    var c := 18446744073709551616.0;
    MulOrder(z, f, s);
    // n * (c - 1) <= z * s * c, and f * s <= n
    assert f * s * (c - 1.0) <= z * s * c;
    if f * (c - 1.0) > z * c {
      ProductOrder(z * c, f * (c - 1.0), s);
      assert false;
    }
    assert (f - z) * c <= f;
  }

  lemma RealProduct(a: int, b: int)
    ensures (a * b) as real == a as real * b as real
  {
  }

  lemma FloorPinned(y: real, f: int, n: real, s: real)
    requires f as real <= y && y * s < n + 1.0 && n + 1.0 <= (f as real + 1.0) * s && s > 0.0 && f >= 0
    ensures Int(y) == f
  {
    if y >= f as real + 1.0 {
      MulOrder(f as real + 1.0, y, s);
    }
  }

  /** Within the limit, the float path of liquidity changes is integer division, rounded down. */
  lemma ShareExact(reserve: int, part: int, whole: int)
    requires reserve >= 0 && part >= 0 && whole > 0 && reserve * part <= EXACT_LIMIT
    ensures Share(reserve, part, whole) == reserve * part / whole
  {
    var r, ratio := reserve as real, Quo(part as real, whole as real);
    ProductsOfTwo(r, ratio);
    if reserve == 0 {
      assert 0.0 * ratio == 0.0;
    } else if part == 0 {
      assert Round(SHORT, r) * 0.0 == 0.0;
    } else {
      SharePositive(reserve, part, whole);
    }
  }

  lemma ShareUpper(n: real, s: real, z: real)
    requires 0.0 < n <= 8998403161718784.0 && s > 0.0 && z > 0.0
    requires Abs(z * s - n) * 18446744073709551616.0 <= n
    ensures RoundScaled(SHORT, z) * s < n + 1.0
  {
    hide RoundScaled;
    var y := Nearby(z);
    BelowNext(n, s, z, y);
  }

  lemma Nearby(z: real) returns (y: real)
    requires z > 0.0
    ensures y == RoundScaled(SHORT, z) && Abs(y - z) * 9007199254740992.0 <= z
  {
    y := RoundScaled(SHORT, z);
    RoundScaledError(SHORT, z);
    UlpBound(SHORT, 4503599627370496.0, z);
  }

  lemma ShareLower(n: int, s: int, z: real)
    requires 0 < n <= EXACT_LIMIT && s > 0 && z > 0.0
    requires Abs(z * s as real - n as real) * 18446744073709551616.0 <= n as real
    ensures RoundScaled(SHORT, z) >= (n / s) as real
  {
    FloorBounds(n, s);
    RealProduct(n / s, s);
    if n / s > 0 {
      AboveFloor(n as real, s as real, z, n / s);
    } else {
      RoundScaledPositive(SHORT, z);
    }
  }

  lemma ShareTruncated(n: int, s: int, y: real)
    requires n >= 0 && s > 0 && y >= (n / s) as real && y * s as real < n as real + 1.0
    ensures Int(y) == n / s
  {
    FloorBounds(n, s);
    RealProduct(n / s + 1, s);
    FloorPinned(y, n / s, n as real, s as real);
  }

  lemma ProductNear(reserve: int, part: int, whole: int)
    requires reserve > 0 && part > 0 && whole > 0
    ensures var z := reserve as real * Quo(part as real, whole as real);
      z > 0.0 && Abs(z * whole as real - (reserve * part) as real) * 18446744073709551616.0 <= (reserve * part) as real
  {
    var r, p, w := reserve as real, part as real, whole as real;
    RatioFacts(part, whole);
    ScaledRatio(r, p, w, p / w, Quo(p, w), 18446744073709551616.0);
    RealProduct(reserve, part);
    ProductOrder(0.0, Quo(p, w), r);
  }

  lemma ShareRounded(n: int, s: int, z: real)
    requires 0 < n <= EXACT_LIMIT && s > 0 && z > 0.0
    requires Abs(z * s as real - n as real) * 18446744073709551616.0 <= n as real
    ensures Int(RoundScaled(SHORT, z)) == n / s
  {
    var y := ShareSandwich(n, s, z);
    ShareTruncated(n, s, y);
  }

  lemma ShareSandwich(n: int, s: int, z: real) returns (y: real)
    requires 0 < n <= EXACT_LIMIT && s > 0 && z > 0.0
    requires Abs(z * s as real - n as real) * 18446744073709551616.0 <= n as real
    ensures y == RoundScaled(SHORT, z) && y >= (n / s) as real && y * s as real < n as real + 1.0
  {
    hide RoundScaled, Abs;
    ShareUpper(n as real, s as real, z);
    ShareLower(n, s, z);
    y := RoundScaled(SHORT, z);
  }

  lemma SharePositive(reserve: int, part: int, whole: int)
    requires reserve > 0 && part > 0 && whole > 0 && reserve * part <= EXACT_LIMIT
    ensures Share(reserve, part, whole) == reserve * part / whole
  {
    hide RoundScaled, Quo, Products, Int, Abs;
    var ratio := Quo(part as real, whole as real);
    FactorBound(reserve, part);
    ProductNear(reserve, part, whole);
    ShareRounded(reserve * part, whole, reserve as real * ratio);
    SharePath(reserve, ratio);
  }

  lemma SharePath(reserve: int, ratio: real)
    requires 0 < reserve <= 2 * SHORT && reserve as real * ratio > 0.0
    ensures Products(1.0, [reserve as real, ratio]) == RoundScaled(SHORT, reserve as real * ratio)
  {
    var r := reserve as real;
    RoundInteger(SHORT, reserve);
    assert Round(SHORT, r) == r;
    ProductsOfTwo(r, ratio);
    assert Products(1.0, [r, ratio]) == Mul53(r, ratio);
    Mul53Positive(r, ratio);
    assert Mul53(r, ratio) == RoundScaled(SHORT, r * ratio);
  }

  lemma Mul53Positive(x: real, y: real)
    requires x * y > 0.0
    ensures Mul53(x, y) == RoundScaled(SHORT, x * y)
  {
  }

  // ---------------------------------------------------------------------------------------
  // Beyond the limit

  /** A quotient of p by w is at most 1 for p up to w, and 1 if they are equal. */
  lemma QuotientAtMostOne(q: real, p: real, w: real)
    requires 0.0 <= p <= w && 0.0 < w && q * w == p
    ensures 0.0 <= q <= 1.0
    ensures p == w ==> q == 1.0
  {
    assert 1.0 * w == w && 0.0 * w == 0.0;
    if q > 1.0 {
      ProductOrder(1.0, q, w);
    } else if q < 0.0 {
      ProductOrder(q, 0.0, w);
    } else if q < 1.0 {
      ProductOrder(q, 1.0, w);
    }
  }

  lemma QuotientTimes(p: real, w: real)
    requires w > 0.0
    ensures (p / w) * w == p
  {
  }

  lemma RatioAtMostOne(part: int, whole: int)
    requires 0 <= part <= whole && 0 < whole
    ensures 0.0 <= Quo(part as real, whole as real) <= 1.0
    ensures part == whole ==> Quo(part as real, whole as real) == 1.0
  {
    hide Round;
    QuotientTimes(part as real, whole as real);
    QuotientAtMostOne(part as real / whole as real, part as real, whole as real);
    RoundInteger(LONG, 1);
    RoundOrder(LONG, part as real / whole as real, 1.0);
  }

  /** x * y lies between 0 and x for y between 0 and 1. */
  lemma FractionOf(x: real, y: real)
    requires x >= 0.0 && 0.0 <= y <= 1.0
    ensures 0.0 <= x * y <= x
    ensures y == 1.0 ==> x * y == x
  {
    MulOrder(0.0, y, x);
    MulOrder(y, 1.0, x);
    assert 0.0 * x == 0.0 && 1.0 * x == x && y * x == x * y;
  }

  lemma MulOrder53(x: real, y: real)
    requires x >= 0.0 && 0.0 <= y <= 1.0
    ensures 0.0 <= Mul53(x, y) <= Round(SHORT, x)
    ensures y == 1.0 ==> Mul53(x, y) == Round(SHORT, x)
  {
    FractionOf(x, y);
    var z := x * y;
    assert Mul53(x, y) == Round(SHORT, z);
    hide Round;
    RoundOrder(SHORT, z, x);
  }

  /** A reserve that 53 bits hold, or that they round down */
  predicate NotRoundedUp(reserve: int) {
    Round(SHORT, reserve as real) <= reserve as real
  }

  lemma SmallNotRoundedUp(reserve: int)
    requires 0 <= reserve <= 2 * SHORT
    ensures NotRoundedUp(reserve)
  {
    RoundInteger(SHORT, reserve);
  }

  /** Without any bound on the product: a withdrawal never takes more than a reserve that is not rounded
      up, and withdrawing everything from a reserve of up to 2^53 takes exactly that reserve. */
  lemma ShareAtMost(reserve: int, part: int, whole: int)
    requires 0 <= reserve && NotRoundedUp(reserve) && 0 <= part <= whole && 0 < whole
    ensures 0 <= Share(reserve, part, whole) <= reserve
    ensures part == whole && reserve <= 2 * SHORT ==> Share(reserve, part, whole) == reserve
  {
    hide Round, Products, Quo, Mul53;
    var r, ratio := reserve as real, Quo(part as real, whole as real);
    RatioAtMostOne(part, whole);
    ProductsOfTwo(r, ratio);
    RoundOrder(SHORT, 0.0, r);
    RoundNothing(SHORT);
    MulOrder53(Round(SHORT, r), ratio);
    RoundOrder(SHORT, Round(SHORT, r), r);
    if reserve <= 2 * SHORT {
      RoundInteger(SHORT, reserve);
    }
  }

  lemma RoundNothing(lead: int)
    requires lead >= 1
    ensures Round(lead, 0.0) == 0.0
  {
  }

  /** Withdrawing everything from a reserve that is rounded up takes more than the reserve. */
  lemma ShareOfAllExceeds(reserve: int, whole: int)
    requires 0 < reserve <= MAX_INT64 && !NotRoundedUp(reserve) && 0 < whole
    ensures reserve < Share(reserve, whole, whole) <= MAX_UINT64
  {
    hide Round, Products, Quo, Mul53;
    var r, ratio := reserve as real, Quo(whole as real, whole as real);
    var once := Round(SHORT, r);
    var twice := Round(SHORT, once);
    RatioAtMostOne(whole, whole);
    ProductsOfTwo(r, ratio);
    MulOrder53(once, ratio);
    RoundOrder(SHORT, r, once);
    if reserve <= 2 * SHORT {
      RoundInteger(SHORT, reserve);
    }
    RoundWhole(SHORT, r);
    RoundWhole(SHORT, once);
    RoundDouble(r);
    RoundDouble(once);
  }

  /** Rounding leaves no fraction from lead on. */
  lemma {:induction false} RoundScaledWhole(lead: int, x: real)
    requires lead >= 1 && x >= lead as real
    ensures RoundScaled(lead, x) == RoundScaled(lead, x).Floor as real
    decreases Steps(lead, x)
  {
    if x >= 2.0 * lead as real {
      RoundScaledWhole(lead, x / 2.0);
      var k := RoundScaled(lead, x / 2.0).Floor;
      assert RoundScaled(lead, x) == (2 * k) as real;
    }
  }

  lemma RoundWhole(lead: int, x: real)
    requires lead >= 1 && x >= lead as real
    ensures Round(lead, x) == Round(lead, x).Floor as real
  {
    RoundScaledWhole(lead, x);
  }

  /** A crude bound: rounding to 53 bits never reaches 5/4 of the value. */
  lemma RoundDouble(x: real)
    requires x > 0.0
    ensures Round(SHORT, x) <= x * 1.25
  {
    RoundScaledError(SHORT, x);
    UlpBound(SHORT, 4503599627370496.0, x);
  }

  /** The bounds are close to sharp: from 2^53 + 1 on the float path can be off by one, in either
      direction, even when the whole pool is withdrawn. */
  lemma ShareInexact()
    ensures Share(2 * SHORT + 1, 1, 1) == 2 * SHORT
    ensures Share(2 * SHORT + 3, 1, 1) == 2 * SHORT + 4
  {
    RatioAtMostOne(1, 1);
    var a, b := (2 * SHORT + 1) as real, (2 * SHORT + 3) as real;
    ProductsOfTwo(a, 1.0);
    ProductsOfTwo(b, 1.0);
    RoundOdd(SHORT);
    assert Round(SHORT, a) == (2 * SHORT) as real;
    assert Round(SHORT, b) == (2 * SHORT + 4) as real;
    hide Round, Products, Mul53, Quo;
    RoundInteger(SHORT, 2 * SHORT);
    RoundEven(SHORT);
    MulOrder53((2 * SHORT) as real, 1.0);
    MulOrder53((2 * SHORT + 4) as real, 1.0);
  }

  lemma RoundOdd(lead: int)
    requires lead >= 4 && lead % 2 == 0
    ensures Round(lead, (2 * lead + 1) as real) == (2 * lead) as real
    ensures Round(lead, (2 * lead + 3) as real) == (2 * lead + 4) as real
  {
    var a, b := (2 * lead + 1) as real / 2.0, (2 * lead + 3) as real / 2.0;
    assert a.Floor == lead && b.Floor == lead + 1;
    assert RoundScaled(lead, a) == lead as real;
    assert RoundScaled(lead, b) == (lead + 2) as real;
  }

  lemma RoundEven(lead: int)
    requires lead >= 4
    ensures Round(lead, (2 * lead + 4) as real) == (2 * lead + 4) as real
  {
    var a := (2 * lead + 4) as real / 2.0;
    assert a == (lead + 2) as real;
    assert RoundScaled(lead, a) == (lead + 2) as real;
  }
}
