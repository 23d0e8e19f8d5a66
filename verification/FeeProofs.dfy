/** What the fee of a product-pool swap amounts to, and what the swap then pays. */
module FeeProofs {
  import opened Machine
  import opened Integers
  import opened Rounding
  import opened Arithmetic
  import opened Pools
  import opened LiquidityProofs
  import opened SwapProofs

  /** Up to 2^53, the amount itself is exact, and the product with the factor is rounded once. */
  lemma FeeRounds(amount: int64, factor: real)
    requires 0 <= amount <= 2 * SHORT && factor >= 0.0
    ensures ExactFee(amount, factor) >= 0.0
    ensures FeeOn(amount, factor) == Int(Round(SHORT, ExactFee(amount, factor)))
  {
    hide Round, Products, Int;
    RoundInteger(SHORT, amount);
    ProductsOfTwo(amount as real, factor);
    MulOrder(0.0, factor, amount as real);
    Commutes(amount as real, factor);
  }

  lemma Commutes(x: real, y: real)
    ensures x * y == y * x && 0.0 * x == 0.0
  {
  }

  function ExactFee(amount: int, factor: real): real {
    amount as real * factor
  }

  /** x, which lies between k and k + 1, rounded down, if it is whole or not too close below k + 1; it is never off
      by more than rounding up. */
  predicate Floored(x: real, k: int, floor: int) {
    k <= floor <= k + 1 && (x == k as real || Away(x, k + 1) ==> floor == k)
  }

  /** The fee is the product rounded down. */
  lemma FeeMeaning(amount: int64, factor: real, k: int)
    requires 0 <= amount <= 2 * SHORT && factor >= 0.0
    requires 0 <= k && k as real <= ExactFee(amount, factor) < (k + 1) as real && k + 1 <= 2 * SHORT
    ensures Floored(ExactFee(amount, factor), k, FeeOn(amount, factor))
  {
    hide Round, FeeOn;
    var x := ExactFee(amount, factor);
    FeeRounds(amount, factor);
    RoundBetween(SHORT, x, k);
    RoundingAdds(x);
    Truncated(Round(SHORT, x), k);
  }

  lemma Truncated(x: real, k: int)
    requires 0 <= k && k as real <= x <= (k + 1) as real
    ensures k <= Int(x) <= k + 1 && (x < (k + 1) as real ==> Int(x) == k)
  {
  }

  lemma IntOrder(x: real, y: real)
    requires 0.0 <= x <= y
    ensures 0 <= Int(x) <= Int(y)
  {
  }

  lemma FeeUnfold(amount: int64, factor: real)
    ensures FeeOn(amount, factor) == Int(Mul53(Round(SHORT, Round(SHORT, amount as real)), factor))
  {
    hide Round, Products, Int;
    ProductsOfTwo(Round(SHORT, amount as real), factor);
  }

  /** A larger amount or factor is never charged less. */
  lemma FeeMonotone(a: int64, b: int64, f: real, g: real)
    requires 0 <= a <= b && 0.0 <= f <= g
    ensures 0 <= FeeOn(a, f) <= FeeOn(b, g)
  {
    hide Round, FeeOn, Int;
    FeeUnfold(a, f);
    FeeUnfold(b, g);
    RoundOrder(SHORT, 0.0, a as real);
    RoundOrder(SHORT, a as real, b as real);
    var x, y := Round(SHORT, a as real), Round(SHORT, b as real);
    RoundOrder(SHORT, 0.0, x);
    RoundOrder(SHORT, x, y);
    hide Mul53;
    ProductsInOrder(Round(SHORT, x), Round(SHORT, y), f, g);
    IntOrder(Mul53(Round(SHORT, x), f), Mul53(Round(SHORT, y), g));
  }

  lemma ProductsInOrder(x: real, y: real, f: real, g: real)
    requires 0.0 <= x <= y && 0.0 <= f <= g
    ensures 0.0 <= Mul53(x, f) <= Mul53(y, g)
  {
    hide Round;
    ProductOrder(x, y, f, g);
    RoundOrder(SHORT, x * f, y * g);
  }

  lemma ProductOrder(x: real, y: real, f: real, g: real)
    requires 0.0 <= x <= y && 0.0 <= f <= g
    ensures 0.0 <= x * f <= y * g
  {
    MulOrder(x, y, f);
    MulOrder(f, g, y);
    MulOrder(0.0, x, f);
    Commutes(f, y);
    Commutes(g, y);
    Commutes(f, 0.0);
  }

  /** Up to a factor of one the fee never exceeds an amount of up to 2^53. */
  lemma FeeAtMost(amount: int64, factor: real)
    requires 0 <= amount <= 2 * SHORT && 0.0 <= factor <= 1.0
    ensures FeeOn(amount, factor) <= amount
  {
    hide Round, FeeOn, Int;
    FeeMonotone(amount, amount, factor, 1.0);
    FeeRounds(amount, 1.0);
    RoundInteger(SHORT, amount);
    WholeInt(amount);
  }

  lemma WholeInt(k: int)
    requires k >= 0
    ensures Int(k as real) == k
  {
  }

  // ---------------------------------------------------------------------------------------
  // The simulated swap

  function AssetOut(p: State, swap: Swap): string {
    if swap.sellBase then p.quoteAsset else p.baseAsset
  }

  /** What a swap that costs this fee is to be answered: what is left over buys, by the constant-product formula,
      from the other reserve. */
  function Answer(p: State, swap: Swap, fee: int): Outcome<(Amount, Amount)>
    requires Tradable(p) && SwapSized(p, swap) && fee >= 0
  {
    if swap.amount == 0 then Failed(ZeroAmount)
    else if swap.amount <= fee then Failed(InsufficientBalance)
    else
      var net := swap.amount - fee;
      OutFits(ReserveIn(p, swap), ReserveOut(p, swap), net);
      FormulaOf(ReserveIn(p, swap), ReserveOut(p, swap), net);
      Done((Amount(AssetOut(p, swap), ReserveOut(p, swap) * net / (ReserveIn(p, swap) + net)),
            Amount(AssetIn(p, swap), fee)))
  }

  lemma FormulaOf(x: nat, y: nat, d: nat)
    requires x + d > 0
    ensures ProductOut(x, y, d) == y * d / (x + d)
  {
  }

  /** The program's answer to a swap of up to 2^53, in terms of the reserves, the factor and the amount: the
      fee is the product of amount and factor, rounded down. */
  lemma SimulateMeaning(p: State, swap: Swap, k: int) returns (fee: int)
    requires Tradable(p) && SwapSized(p, swap) && swap.amount <= 2 * SHORT && 0 <= k && k + 1 <= 2 * SHORT
    requires k as real <= ExactFee(swap.amount, p.feeFactor) < (k + 1) as real
    ensures Floored(ExactFee(swap.amount, p.feeFactor), k, fee)
    ensures Simulate(p, Amount(AssetIn(p, swap), swap.amount)) == Answer(p, swap, fee)
  {
    hide FeeOn, ExactFee, Floored, Quoted, Simulate, AssetIn, Answer;
    fee := FeeCharged(p, swap.amount, k);
    QuotedAnswer(p, swap, fee);
    SimulateUnfold(p, swap);
  }

  lemma FeeCharged(p: State, amount: int64, k: int) returns (fee: int)
    requires 0 <= amount <= 2 * SHORT && p.feeFactor >= 0.0
    requires 0 <= k && k as real <= ExactFee(amount, p.feeFactor) < (k + 1) as real && k + 1 <= 2 * SHORT
    ensures fee == FeeOn(amount, p.feeFactor) >= 0 && Floored(ExactFee(amount, p.feeFactor), k, fee)
  {
    hide FeeOn, Away, ExactFee;
    fee := FeeOn(amount, p.feeFactor);
    FeeMeaning(amount, p.feeFactor, k);
  }

  lemma SimulateUnfold(p: State, swap: Swap)
    requires Small(swap.amount)
    ensures Simulate(p, Amount(AssetIn(p, swap), swap.amount)) ==
      Quoted(p, Amount(AssetIn(p, swap), swap.amount), FeeOn(swap.amount, p.feeFactor))
  {
    hide Quoted, FeeOn;
    WrapSmall(swap.amount);
  }

  lemma QuotedAnswer(p: State, swap: Swap, fee: int)
    requires Tradable(p) && SwapSized(p, swap) && fee >= 0
    ensures Quoted(p, Amount(AssetIn(p, swap), swap.amount), fee) == Answer(p, swap, fee)
  {
    hide Quoted, ProductOut;
    if fee < swap.amount {
      OutFits(ReserveIn(p, swap), ReserveOut(p, swap), swap.amount - fee);
      QuotedMeaning(p, swap, fee, OutFor(p, swap, swap.amount - fee));
      FormulaOf(ReserveIn(p, swap), ReserveOut(p, swap), swap.amount - fee);
    } else {
      QuotedRefuses(p, swap, fee);
    }
  }

  lemma WrapSmall(x: int)
    requires Small(x)
    ensures Wrap(x) == x
  {
  }

  lemma QuotedRefuses(p: State, swap: Swap, fee: int)
    requires Tradable(p) && SwapSized(p, swap) && swap.amount <= fee
    ensures Quoted(p, Amount(AssetIn(p, swap), swap.amount), fee) ==
      Failed(if swap.amount == 0 then ZeroAmount else InsufficientBalance)
  {
    hide ProductOut;
    BalancesMeaning(p, swap);
  }

  /** 1000 of each asset, and a fee of one percent: 1000 sold cost 10 and buy 497. */
  lemma SimulateExample(p: State)
    requires Tradable(p) && p.base == 1000 && p.quote == 1000 && p.feeFactor == 0.01
    ensures Simulate(p, Amount(p.baseAsset, 1000)) == Done((Amount(p.quoteAsset, 497), Amount(p.baseAsset, 10)))
  {
    hide Simulate, Away;
    var fee := SimulateMeaning(p, Swap(true, 1000), 10);
  }
}
