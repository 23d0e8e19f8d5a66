/** Amounts per asset, as values: what ledger/types/balances_math.go computes. */
module Accounts {
  import opened Machine

  type Bals = map<string, int64>

  /** A missing entry counts as zero. */
  function AmountOf(b: Bals, id: string): int64 {
    if id in b then b[id] else 0
  }

  function NonZero(b: Bals): Bals {
    map id | id in b && b[id] != 0 :: b[id]
  }

  function AddTo(b: Bals, id: string, amount: int64): Bals {
    if id == "" then b else b[id := Wrap(AmountOf(b, id) + amount)]
  }

  function Negated(amount: int64): int64 {
    var x: int := amount;
    Wrap(-x)
  }

  function SubFrom(b: Bals, id: string, amount: int64): Bals {
    AddTo(b, id, Negated(amount))
  }

  predicate HasAtLeast(b: Bals, id: string, amount: int64) {
    if amount == 0 then true
    else if amount < 0 then AmountOf(b, id) <= amount
    else AmountOf(b, id) >= amount
  }

  /** A single amount of one asset: types.Balance. */
  datatype Balance = Balance(asset: string, amount: uint64) {
    function Amt(): int64 {
      Wrap(amount)
    }
  }

  function NewBalance(asset: string, amount: int): Balance
    requires amount <= MAX_UINT64
  {
    if asset == "" then Balance("", 0) else Balance(asset, if amount > 0 then amount else 0)
  }

  /** ids lists the elements of s, each once, in some order. */
  ghost predicate Lists(ids: seq<string>, s: set<string>) {
    (forall i :: 0 <= i < |ids| ==> ids[i] in s) &&
    (forall id :: id in s ==> id in ids) &&
    (forall i, j :: 0 <= i < j < |ids| ==> ids[i] != ids[j])
  }

  function Positives(b: Bals): set<string> {
    set id | id in b && b[id] > 0
  }

  function Negatives(b: Bals): set<string> {
    set id | id in b && b[id] < 0
  }

  ghost predicate SameAmounts(a: Bals, b: Bals) {
    forall id :: AmountOf(a, id) == AmountOf(b, id)
  }

  lemma SameAmountsNonZero(a: Bals, b: Bals)
    ensures SameAmounts(a, b) <==> NonZero(a) == NonZero(b)
    ensures SameAmounts(a, NonZero(a))
  {
    if SameAmounts(a, b) {
      forall id
        ensures id in NonZero(a) <==> id in NonZero(b)
        ensures id in NonZero(a) ==> NonZero(a)[id] == NonZero(b)[id]
      {
        assert AmountOf(a, id) == AmountOf(b, id);
      }
    }
    if NonZero(a) == NonZero(b) {
      forall id
        ensures AmountOf(a, id) == AmountOf(b, id)
      {
        assert AmountOf(a, id) == AmountOf(NonZero(a), id);
        assert AmountOf(b, id) == AmountOf(NonZero(b), id);
      }
    }
  }

  // ---------------------------------------------------------------------------------------
  // Subtracting down to zero

  /** What SubToZero leaves of an amount, and what it could not take: have minus sub, entry by entry. */
  function TakeToZero(have: int64, sub: int64): (int64, int64) {
    if sub == 0 then (have, 0)
    else if have <= 0 then (have, sub)
    else
      var naive := Wrap(have - sub);
      if naive < 0 then (0, Negated(naive))
      else (Wrap(have + Negated(sub)), 0)
  }

  /** Nothing is lost or created, as far as the machine can tell. */
  lemma TakeToZeroCongruent(have: int64, sub: int64)
    ensures var (left, surplus) := TakeToZero(have, sub); Congruent(have + surplus, left + sub)
  {
    hide Wrap;
    var (left, surplus) := TakeToZero(have, sub);
    var naive := Wrap(have - sub);
    WrapCongruent(have - sub);
    WrapCongruent(0 - sub);
    WrapCongruent(-naive);
    WrapCongruent(have + Negated(sub));
    if sub == 0 || have <= 0 {
      assert have + surplus == left + sub + TWO_64 * 0;
    } else if naive < 0 {
      var k :| naive == have - sub + TWO_64 * k;
      var l :| surplus == -naive + TWO_64 * l;
      assert have + surplus == left + sub + TWO_64 * (l - k);
    } else {
      var k :| Negated(sub) == -sub + TWO_64 * k;
      var l :| left == have + Negated(sub) + TWO_64 * l;
      assert have + surplus == left + sub + TWO_64 * (-(k + l));
    }
  }

  /** Conservation is exact unless a positive amount minus a negative one leaves the int64 range by more
      than one. */
  lemma TakeToZeroConserves(have: int64, sub: int64)
    ensures var (left, surplus) := TakeToZero(have, sub);
      have + surplus == left + sub <==> have <= 0 || have - sub <= TWO_63
  {
  }

  /** For amounts to subtract that are not negative, a positive balance ends at max(0, have - sub), and
      any other is untouched. */
  lemma TakeToZeroClamps(have: int64, sub: int64)
    requires sub >= 0
    ensures var left := TakeToZero(have, sub).0;
      left == if have <= 0 then have else if have <= sub then 0 else have - sub
  {
  }

  /** result and surplus are b and subs taken to zero in each asset. The empty ID names none. */
  ghost predicate SubbedToZero(b: Bals, subs: Bals, result: Bals, surplus: Bals) {
    (forall id :: id != "" ==>
      AmountOf(result, id) == TakeToZero(AmountOf(b, id), AmountOf(subs, id)).0 &&
      AmountOf(surplus, id) == TakeToZero(AmountOf(b, id), AmountOf(subs, id)).1) &&
    AmountOf(result, "") == AmountOf(b, "") && AmountOf(surplus, "") == 0
  }

  /** What is negative in subs is no no-op: it leaves the result alone exactly where the balance is not
      positive, and only zero leaves the surplus alone as well. */
  lemma NegativeIsNoOpIff(b: Bals, subs: Bals, result: Bals, surplus: Bals)
    requires SubbedToZero(b, subs, result, surplus) && forall id :: AmountOf(subs, id) <= 0
    ensures SameAmounts(result, b) <==> forall id :: id != "" && AmountOf(subs, id) != 0 ==> AmountOf(b, id) <= 0
    ensures SameAmounts(result, b) && SameAmounts(surplus, map[]) <==> forall id :: id != "" ==> AmountOf(subs, id) == 0
  {
    hide TakeToZero;
    forall id
      ensures var (left, over) := TakeToZero(AmountOf(b, id), AmountOf(subs, id));
        (left == AmountOf(b, id) <==> AmountOf(subs, id) == 0 || AmountOf(b, id) <= 0) &&
        (left == AmountOf(b, id) && over == 0 <==> AmountOf(subs, id) == 0)
    {
      TakeNegative(AmountOf(b, id), AmountOf(subs, id));
    }
  }

  lemma TakeNegative(have: int64, sub: int64)
    requires sub <= 0
    ensures TakeToZero(have, sub).0 == have <==> sub == 0 || have <= 0
    ensures TakeToZero(have, sub) == (have, 0) <==> sub == 0
  {
  }

  /** Taking -1 from 1 gives 2. */
  lemma NegativeAdds(result: Bals, surplus: Bals)
    requires SubbedToZero(map["A" := 1], map["A" := -1], result, surplus)
    ensures AmountOf(result, "A") == 2 && AmountOf(surplus, "A") == 0
  {
  }
}
