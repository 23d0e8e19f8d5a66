/** What every conversion keeps, whatever the exponents of the two currencies. */
module ConversionProofs {
  import opened Machine
  import opened Integers
  import opened Accounts
  import opened Stablecoin
  import opened Totals

  function Pow10(k: nat): (r: nat)
    ensures r >= 1
  {
    if k == 0 then 1 else 10 * Pow10(k - 1)
  }

  lemma {:induction false} Pow10Split(a: nat, b: nat)
    ensures Pow10(a + b) == Pow10(a) * Pow10(b) && Pow10(a) >= 1
  {
    if a > 0 {
      Pow10Split(a - 1, b);
      TimesTen(Pow10(a - 1), Pow10(b));
    }
  }

  lemma TimesTen(x: int, y: int)
    ensures 10 * (x * y) == (10 * x) * y
  {
  }

  lemma Pow10Bound(k: nat)
    requires k <= 18
    ensures 1 <= Pow10(k) <= 1_000_000_000_000_000_000
  {
    Pow10Split(k, 18 - k);
    Pow10Split(18 - k, 0);
    Pow10At18();
    FactorBound(Pow10(k), Pow10(18 - k));
  }

  lemma Pow10At18()
    ensures Pow10(18) == 1_000_000_000_000_000_000
  {
    assert Pow10(6) == 1_000_000;
    Pow10Split(6, 6);
    Pow10Split(12, 6);
  }

  /** Up to 18 decimals, the program's powers of ten are exact. */
  lemma {:induction false} Exp10Exact(k: nat)
    requires k <= 18
    ensures Exp10(k) == Pow10(k)
  {
    if k > 0 {
      Exp10Exact(k - 1);
      Pow10Bound(k);
    }
  }

  /** Beyond, they are the low 64 bits of the power. */
  lemma {:induction false} Exp10Congruent(k: nat)
    ensures Congruent(Exp10(k), Pow10(k))
  {
    if k == 0 {
      assert Exp10(0) == Pow10(0) + TWO_64 * 0;
    } else {
      Exp10Congruent(k - 1);
      var before: int := Exp10(k - 1);
      WrapCongruent(before * 10);
      var l: int :| before == Pow10(k - 1) + TWO_64 * l;
      var m: int :| Wrap(before * 10) == before * 10 + TWO_64 * m;
      assert Exp10(k) == Pow10(k) + TWO_64 * (10 * l + m);
    }
  }

  /** Assets with at most 18 decimals */
  predicate Standard(assets: Assets) {
    "" !in assets && forall id :: id in assets ==> assets[id].decimals <= 18
  }

  function Unit(assets: Assets, id: string): (unit: nat)
    requires id in assets
    ensures unit >= 1
  {
    Pow10(assets[id].decimals)
  }

  /** How many of the smallest fractions (10^-18 of a dollar) one unit of the asset is worth */
  function Weight(assets: Assets, id: string): nat
    requires Standard(assets) && id in assets
  {
    Pow10(18 - assets[id].decimals)
  }

  lemma UnitWeight(assets: Assets, id: string)
    requires Standard(assets) && id in assets
    ensures Unit(assets, id) * Weight(assets, id) == Pow10(18)
    ensures Unit(assets, id) >= 1 && Weight(assets, id) >= 1
  {
    Pow10Split(assets[id].decimals, 18 - assets[id].decimals);
    Pow10Split(18 - assets[id].decimals, 0);
  }

  /** The amounts of all currencies, each at 18 decimals */
  function Values(assets: Assets, b: Bals): map<string, int>
    requires Standard(assets)
  {
    map id | id in assets && assets[id].isCurrency :: AmountOf(b, id) * Weight(assets, id)
  }

  ghost function Worth(assets: Assets, b: Bals): int
    requires Standard(assets)
  {
    Total(Values(assets, b))
  }

  // ---------------------------------------------------------------------------------------
  // Movements

  function Shift(id: string, from: string, loss: int, to: string, gain: int): int {
    if id == from then -loss else if id == to then gain else 0
  }

  /** b is a after loss left `from` and gain reached `to`, with no amount cut off. */
  ghost predicate Moved(a: Book, b: Book, from: string, loss: int, to: string, gain: int) {
    from != to &&
    (forall id :: AmountOf(b.owned, id) == AmountOf(a.owned, id) + Shift(id, from, loss, to, gain)) &&
    (forall id :: AmountOf(b.sseq, id) == AmountOf(a.sseq, id) + Shift(id, from, loss, to, gain))
  }

  ghost predicate SameBook(a: Book, b: Book) {
    SameAmounts(a.owned, b.owned) && SameAmounts(a.sseq, b.sseq)
  }

  lemma AddExact(b: Bals, id: string, amount: int64)
    requires id != "" && Fits(AmountOf(b, id) + amount)
    ensures forall x :: AmountOf(AddTo(b, id, amount), x) == AmountOf(b, x) + (if x == id then amount else 0)
  {
  }

  lemma ShiftExact(b: Bals, from: string, loss: int64, to: string, gain: int64)
    requires from != "" && to != "" && from != to && loss >= 0
    requires Fits(AmountOf(b, from) - loss) && Fits(AmountOf(b, to) + gain)
    ensures forall x :: AmountOf(AddTo(SubFrom(b, from, loss), to, gain), x) == AmountOf(b, x) + Shift(x, from, loss, to, gain)
  {
    hide AddTo, Wrap;
    assert Negated(loss) == -loss;
    AddExact(b, from, Negated(loss));
    AddExact(SubFrom(b, from, loss), to, gain);
  }

  lemma MoveExact(a: Book, from: string, loss: int64, to: string, gain: int64)
    requires from != "" && to != "" && from != to && loss >= 0 && gain >= 0
    requires Fits(AmountOf(a.owned, from) - loss) && Fits(AmountOf(a.owned, to) + gain)
    requires Fits(AmountOf(a.sseq, from) - loss) && Fits(AmountOf(a.sseq, to) + gain)
    ensures Moved(a, Move(a, Balance(from, loss), Balance(to, gain)), from, loss, to, gain)
  {
    ShiftExact(a.owned, from, loss, to, gain);
    ShiftExact(a.sseq, from, loss, to, gain);
  }

  // ---------------------------------------------------------------------------------------
  // Invariants of conversions

  /** From a to b: what was owned before any equivalence is unchanged for every asset, other assets are
      untouched, and both totals over all currencies are preserved to the last fraction. */
  ghost predicate Keeps(assets: Assets, a: Book, b: Book)
    requires Standard(assets)
  {
    (forall id :: AmountOf(b.owned, id) - AmountOf(b.sseq, id) == AmountOf(a.owned, id) - AmountOf(a.sseq, id)) &&
    (forall id :: !IsCurrency(assets, id) ==>
       AmountOf(b.owned, id) == AmountOf(a.owned, id) && AmountOf(b.sseq, id) == AmountOf(a.sseq, id)) &&
    Worth(assets, b.owned) == Worth(assets, a.owned) && Worth(assets, b.sseq) == Worth(assets, a.sseq)
  }

  lemma KeepsTransitive(assets: Assets, a: Book, b: Book, c: Book)
    requires Standard(assets) && Keeps(assets, a, b) && Keeps(assets, b, c)
    ensures Keeps(assets, a, c)
  {
    hide Worth;
  }

  lemma WorthSame(assets: Assets, a: Bals, b: Bals)
    requires Standard(assets) && SameAmounts(a, b)
    ensures Worth(assets, a) == Worth(assets, b)
  {
    assert Values(assets, a) == Values(assets, b);
  }

  lemma SameKeeps(assets: Assets, a: Book, b: Book)
    requires Standard(assets) && SameBook(a, b)
    ensures Keeps(assets, a, b)
  {
    WorthSame(assets, a.owned, b.owned);
    WorthSame(assets, a.sseq, b.sseq);
  }

  lemma WorthShift(assets: Assets, a: Bals, b: Bals, from: string, loss: int, to: string, gain: int)
    requires Standard(assets) && IsCurrency(assets, from) && IsCurrency(assets, to) && from != to
    requires forall id :: AmountOf(b, id) == AmountOf(a, id) + Shift(id, from, loss, to, gain)
    requires loss * Weight(assets, from) == gain * Weight(assets, to)
    ensures Worth(assets, b) == Worth(assets, a)
  {
    hide Weight;
    var before, after := Values(assets, a), Values(assets, b);
    TotalTransfer(before, after, from, to);
    Minus(AmountOf(a, from), loss, Weight(assets, from));
    Plus(AmountOf(a, to), gain, Weight(assets, to));
  }

  lemma Minus(x: int, y: int, w: int)
    ensures (x + -y) * w - x * w == -(y * w)
  {
  }

  lemma Plus(x: int, y: int, w: int)
    ensures (x + y) * w - x * w == y * w
  {
  }

  /** A movement of equal worth between two currencies keeps all of this. */
  lemma MovedKeeps(assets: Assets, a: Book, b: Book, from: string, loss: int, to: string, gain: int)
    requires Standard(assets) && IsCurrency(assets, from) && IsCurrency(assets, to)
    requires Moved(a, b, from, loss, to, gain) && loss * Weight(assets, from) == gain * Weight(assets, to)
    ensures Keeps(assets, a, b)
  {
    WorthShift(assets, a.owned, b.owned, from, loss, to, gain);
    WorthShift(assets, a.sseq, b.sseq, from, loss, to, gain);
  }

  // ---------------------------------------------------------------------------------------
  // Dividing by powers of ten

  /** By a positive divisor, the quotient is rounded toward zero. */
  lemma TruncDivMeaning(n: int64, m: int64)
    requires m > 0
    ensures var r := n - TruncDiv(n, m) * m; (n >= 0 ==> 0 <= r < m) && (n <= 0 ==> 0 - m < r <= 0)
  {
    var x: int := n;
    var a := if x >= 0 then x else 0 - x;
    FloorMeaning(a, m, a / m);
    assert (0 - a / m) * m == 0 - a / m * m;
  }

  /** The division of the program is exact floor, or ceiling when rounding up. */
  lemma ApplyFloor(n: int64, x: nat)
    requires n >= 0 && x <= 18
    ensures ApplyDecimalsThenRound(n, x, false) == n / Pow10(x)
    ensures 0 <= n / Pow10(x) <= n
  {
    Exp10Exact(x);
    Pow10Bound(x);
    FloorMeaning(n, Pow10(x), n / Pow10(x));
  }

  lemma ApplyCeiling(n: int64, x: nat)
    requires n >= 0 && x <= 18 && n + Pow10(x) <= MAX_INT64
    ensures var g := ApplyDecimalsThenRound(n, x, true);
      g >= 0 && g * Pow10(x) >= n && g * Pow10(x) < n + Pow10(x)
  {
    Exp10Exact(x);
    Pow10Bound(x);
    var f := n / Pow10(x);
    FloorMeaning(n, Pow10(x), f);
    assert (f + 1) * Pow10(x) == f * Pow10(x) + Pow10(x);
  }
}
