/** The arithmetic of math/big's Float as math/arithmetic.go uses it: every operation yields the
    exact real result rounded to a fixed number of bits, to nearest, ties to even. */
module Rounding {

  function NearestEven(x: real): int {
    var f := x.Floor;
    var d := x - f as real;
    if d < 0.5 || (d == 0.5 && f % 2 == 0) then f else f + 1
  }

  /** Bounds the number of halvings or doublings that bring x between lead and 2 * lead. */
  function Distance(lead: int, x: real): nat
    requires lead >= 1 && x > 0.0
  {
    if x >= 2.0 * lead as real then (x / lead as real).Floor
    else if x < lead as real then (lead as real / x).Floor
    else 0
  }

  lemma HalvingShrinks(t: real)
    requires t >= 1.0
    ensures (t / 2.0).Floor < t.Floor
  {
    if t >= 2.0 {
      assert t / 2.0 <= t - 1.0;
    }
  }

  lemma DistanceDown(lead: int, x: real)
    requires lead >= 1 && x >= 2.0 * lead as real
    ensures Distance(lead, x / 2.0) < Distance(lead, x)
  {
    var t := x / lead as real;
    assert t >= 2.0;
    assert (x / 2.0) / lead as real == t / 2.0;
    HalvingShrinks(t);
  }

  lemma DistanceUp(lead: int, x: real)
    requires lead >= 1 && 0.0 < x < lead as real
    ensures Distance(lead, x * 2.0) < Distance(lead, x)
  {
    var t := lead as real / x;
    assert t >= 1.0;
    assert lead as real / (x * 2.0) == t / 2.0;
    HalvingShrinks(t);
  }

  /** The number of halvings or doublings that bring x between lead and 2 * lead. */
  function Steps(lead: int, x: real): nat
    requires lead >= 1 && x > 0.0
    decreases Distance(lead, x)
  {
    if x >= 2.0 * lead as real then
      DistanceDown(lead, x);
      1 + Steps(lead, x / 2.0)
    else if x < lead as real then
      DistanceUp(lead, x);
      1 + Steps(lead, x * 2.0)
    else 0
  }

  /** x > 0 rounded to the mantissas from lead to 2 * lead: scale x into that range, round to an
      integer, scale back. */
  function RoundScaled(lead: int, x: real): (r: real)
    requires lead >= 1 && x > 0.0
    decreases Steps(lead, x)
  {
    if x >= 2.0 * lead as real then
      RoundScaled(lead, x / 2.0) * 2.0
    else if x < lead as real then
      RoundScaled(lead, x * 2.0) / 2.0
    else
      NearestEven(x) as real
  }

  /** x rounded to nearest, ties to even. With lead == 2^(p - 1) the result has p bits. */
  function Round(lead: int, x: real): real
    requires lead >= 1
  {
    if x == 0.0 then 0.0
    else if x < 0.0 then -RoundScaled(lead, -x)
    else RoundScaled(lead, x)
  }

  // ---------------------------------------------------------------------------------------
  // An independent reading of "nearest, ties to even"

  /** m * 2^e */
  function Scaled(m: int, e: int): real
    decreases if e < 0 then -e else e
  {
    if e == 0 then m as real
    else if e > 0 then 2.0 * Scaled(m, e - 1)
    else Scaled(m, e + 1) / 2.0
  }

  /** x has a binary representation whose mantissa stays within 2 * lead. */
  ghost predicate Representable(lead: int, x: real) {
    exists m: int, e: int :: 0 <= m <= 2 * lead && x == Scaled(m, e)
  }

  lemma {:induction false} ScaledShift(m: int, e: int)
    ensures Scaled(m, e + 1) == 2.0 * Scaled(m, e)
    decreases if e < 0 then -e else e
  {
  }

  lemma {:induction false} RoundScaledRepresentable(lead: int, x: real)
    requires lead >= 1 && x > 0.0
    ensures Representable(lead, RoundScaled(lead, x))
    decreases Steps(lead, x)
  {
    if x >= 2.0 * lead as real {
      RoundScaledRepresentable(lead, x / 2.0);
      var m, e :| 0 <= m <= 2 * lead && RoundScaled(lead, x / 2.0) == Scaled(m, e);
      ScaledShift(m, e);
      assert RoundScaled(lead, x) == Scaled(m, e + 1);
    } else if x < lead as real {
      RoundScaledRepresentable(lead, x * 2.0);
      var m, e :| 0 <= m <= 2 * lead && RoundScaled(lead, x * 2.0) == Scaled(m, e);
      ScaledShift(m, e - 1);
      assert RoundScaled(lead, x) == Scaled(m, e - 1);
    } else {
      assert RoundScaled(lead, x) == Scaled(NearestEven(x), 0);
    }
  }

  lemma {:induction false} ScaledInteger(m: int, e: int)
    requires e >= 0
    ensures Scaled(m, e) == Scaled(m, e).Floor as real
    decreases e
  {
    if e == 0 {
      assert Scaled(m, e) == m as real;
    } else {
      ScaledInteger(m, e - 1);
      var k := Scaled(m, e - 1).Floor;
      assert Scaled(m, e) == (2 * k) as real;
    }
  }

  lemma {:induction false} ScaledBelowHalf(m: int, e: int)
    requires e < 0 && m >= 0
    ensures 0.0 <= Scaled(m, e) <= m as real / 2.0
    decreases -e
  {
    if e < -1 {
      ScaledBelowHalf(m, e + 1);
    }
  }

  function Abs(x: real): real {
    if x < 0.0 then -x else x
  }

  lemma NearestEvenIsNearest(x: real, k: int)
    ensures Abs(x - NearestEven(x) as real) <= Abs(x - k as real)
    ensures Abs(x - NearestEven(x) as real) == Abs(x - k as real) && k != NearestEven(x)
            ==> NearestEven(x) % 2 == 0
  {
    var f := x.Floor;
    if k <= f {
      assert k as real <= f as real;
    } else {
      assert k as real >= f as real + 1.0;
    }
  }

  /** No value with that many bits is closer to x than the rounded value; if another one is as
      close, the rounded value is the one with the even mantissa. */
  lemma {:induction false} RoundScaledIsNearest(lead: int, x: real, m: int, e: int)
    requires lead >= 1 && x > 0.0 && 0 <= m <= 2 * lead
    ensures Abs(x - RoundScaled(lead, x)) <= Abs(x - Scaled(m, e))
    ensures Abs(x - RoundScaled(lead, x)) == Abs(x - Scaled(m, e)) && Scaled(m, e) != RoundScaled(lead, x)
            ==> exists n: int, f: int :: lead <= n <= 2 * lead && n % 2 == 0 && RoundScaled(lead, x) == Scaled(n, f)
    decreases Steps(lead, x)
  {
    if x >= 2.0 * lead as real {
      ScaledShift(m, e - 1);
      RoundScaledIsNearest(lead, x / 2.0, m, e - 1);
      if n: int, f: int :| lead <= n <= 2 * lead && n % 2 == 0 && RoundScaled(lead, x / 2.0) == Scaled(n, f) {
        ScaledShift(n, f);
        assert RoundScaled(lead, x) == Scaled(n, f + 1);
      }
    } else if x < lead as real {
      ScaledShift(m, e);
      RoundScaledIsNearest(lead, x * 2.0, m, e + 1);
      if n: int, f: int :| lead <= n <= 2 * lead && n % 2 == 0 && RoundScaled(lead, x * 2.0) == Scaled(n, f) {
        ScaledShift(n, f - 1);
        assert RoundScaled(lead, x) == Scaled(n, f - 1);
      }
    } else {
      NearestInRange(lead, x, m, e);
    }
  }

  lemma NearestInRange(lead: int, x: real, m: int, e: int)
    requires lead >= 1 && lead as real <= x < 2.0 * lead as real && 0 <= m <= 2 * lead
    ensures Abs(x - RoundScaled(lead, x)) <= Abs(x - Scaled(m, e))
    ensures Abs(x - RoundScaled(lead, x)) == Abs(x - Scaled(m, e)) && Scaled(m, e) != RoundScaled(lead, x)
            ==> exists n: int, f: int :: lead <= n <= 2 * lead && n % 2 == 0 && RoundScaled(lead, x) == Scaled(n, f)
  {
    var k: int;
    if e >= 0 {
      ScaledInteger(m, e);
      k := Scaled(m, e).Floor;
    } else {
      ScaledBelowHalf(m, e);
      k := lead;
    }
    NearestEvenIsNearest(x, k);
    assert RoundScaled(lead, x) == Scaled(NearestEven(x), 0);
  }

  // ---------------------------------------------------------------------------------------
  // Consequences that the pool arithmetic rests on

  lemma ProductOrder(a: real, b: real, c: real)
    requires a <= b && c > 0.0
    ensures a * c <= b * c
    ensures a < b ==> a * c < b * c
  {
  }

  /** The unit in the last place of x. */
  function Ulp(lead: int, x: real): real
    requires lead >= 1 && x > 0.0
    decreases Steps(lead, x)
  {
    if x >= 2.0 * lead as real then Ulp(lead, x / 2.0) * 2.0
    else if x < lead as real then Ulp(lead, x * 2.0) / 2.0
    else 1.0
  }

  /** Rounding moves x by at most half a unit in the last place. */
  lemma {:induction false} RoundScaledError(lead: int, x: real)
    requires lead >= 1 && x > 0.0
    ensures Abs(RoundScaled(lead, x) - x) <= Ulp(lead, x) / 2.0
    decreases Steps(lead, x)
  {
    var l := lead as real;
    if x >= 2.0 * l {
      RoundScaledError(lead, x / 2.0);
    } else if x < l {
      RoundScaledError(lead, x * 2.0);
    }
  }

  /** x is worth at least lead units in the last place. */
  lemma {:induction false} UlpBound(lead: int, l: real, x: real)
    requires lead >= 1 && x > 0.0 && l == lead as real
    ensures Ulp(lead, x) * l <= x
    decreases Steps(lead, x)
  {
    if x >= 2.0 * l {
      UlpBound(lead, l, x / 2.0);
      Twice(Ulp(lead, x / 2.0), l, x / 2.0);
    } else if x < l {
      UlpBound(lead, l, x * 2.0);
      Half(Ulp(lead, x * 2.0), l, x * 2.0);
    }
  }

  lemma Twice(d: real, c: real, x: real)
    requires d * c <= x
    ensures (d * 2.0) * c <= x * 2.0
  {
  }

  lemma Half(d: real, c: real, x: real)
    requires d * c <= x
    ensures (d / 2.0) * c <= x / 2.0
  {
  }

  lemma {:induction false} RoundScaledPositive(lead: int, x: real)
    requires lead >= 1 && x > 0.0
    ensures RoundScaled(lead, x) > 0.0
    decreases Steps(lead, x)
  {
    var l := lead as real;
    if x >= 2.0 * l {
      RoundScaledPositive(lead, x / 2.0);
    } else if x < l {
      RoundScaledPositive(lead, x * 2.0);
    } else {
      NearestEvenOrder(l, x);
    }
  }

  lemma GapQuarter(gap: real, l: real, k: real)
    requires l > 0.0 && k <= 2.0 * l && gap * (8.0 * l) <= k
    ensures gap <= 0.25
  {
    if gap > 0.25 {
      ProductOrder(0.25, gap, 8.0 * l);
    }
  }

  lemma GapDoubles(gap: real, l: real, k: real)
    requires gap * (8.0 * l) <= k
    ensures gap * 2.0 * (8.0 * l) <= k * 2.0
  {
  }

  lemma NearestEvenNear(x: real, gap: real, k: int)
    requires 0.0 <= gap <= 0.25 && x == k as real - gap
    ensures NearestEven(x) == k
  {
    assert x.Floor == if gap == 0.0 then k else k - 1;
  }

  lemma NearIntegerInRange(lead: int, x: real, gap: real, k: int)
    requires lead >= 1 && 1 <= k <= 2 * lead
    requires x >= lead as real && 0.0 <= gap <= 0.25 && x == k as real - gap
    ensures RoundScaled(lead, x) == k as real
  {
    var l := lead as real;
    if x >= 2.0 * l {
      NearestEvenNear(l, 0.0, lead);
      assert k == 2 * lead && x / 2.0 == l;
      assert RoundScaled(lead, x / 2.0) == l;
    } else {
      NearestEvenNear(x, gap, k);
    }
  }

  /** A value just below (or at) an integer that fits the mantissa rounds to that integer. */
  lemma {:induction false} RoundScaledNearInteger(lead: int, x: real, gap: real, k: int)
    requires lead >= 1 && 1 <= k <= 2 * lead
    requires x > 0.0 && gap >= 0.0 && x == k as real - gap && gap * (8.0 * lead as real) <= k as real
    ensures RoundScaled(lead, x) == k as real
    decreases Steps(lead, x)
  {
    var l := lead as real;
    GapQuarter(gap, l, k as real);
    if x < l {
      assert k <= lead;
      GapDoubles(gap, l, k as real);
      RoundScaledNearInteger(lead, x * 2.0, gap * 2.0, 2 * k);
    } else {
      NearIntegerInRange(lead, x, gap, k);
    }
  }

  lemma NearestEvenOrder(x: real, y: real)
    requires x <= y
    ensures NearestEven(x) <= NearestEven(y)
  {
    assert x.Floor <= y.Floor;
  }

  lemma {:induction false} RoundScaledLower(lead: int, x: real)
    requires lead >= 1 && x >= lead as real
    ensures RoundScaled(lead, x) >= lead as real
    decreases Steps(lead, x)
  {
    var l := lead as real;
    if x >= 2.0 * l {
      RoundScaledLower(lead, x / 2.0);
    } else {
      NearestEvenOrder(l, x);
    }
  }

  lemma {:induction false} RoundScaledUpper(lead: int, x: real)
    requires lead >= 1 && 0.0 < x < 2.0 * lead as real
    ensures RoundScaled(lead, x) <= 2.0 * lead as real
    decreases Steps(lead, x)
  {
    var l := lead as real;
    if x < l {
      RoundScaledUpper(lead, x * 2.0);
    } else {
      NearestEvenOrder(x, (2 * lead) as real);
    }
  }

  /** Rounding keeps order. */
  lemma {:induction false} RoundScaledMonotone(lead: int, x: real, y: real)
    requires lead >= 1 && 0.0 < x <= y
    ensures RoundScaled(lead, x) <= RoundScaled(lead, y)
    decreases Steps(lead, x) + Steps(lead, y)
  {
    var l := lead as real;
    if y >= 2.0 * l {
      if x >= 2.0 * l {
        RoundScaledMonotone(lead, x / 2.0, y / 2.0);
      } else {
        RoundScaledUpper(lead, x);
        RoundScaledLower(lead, y / 2.0);
      }
    } else if x < l {
      if y < l {
        RoundScaledMonotone(lead, x * 2.0, y * 2.0);
      } else {
        RoundScaledUpper(lead, x * 2.0);
        RoundScaledLower(lead, y);
      }
    } else {
      NearestEvenOrder(x, y);
    }
  }
}
