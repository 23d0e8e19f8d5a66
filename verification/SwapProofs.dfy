/** What product-pool swaps do to the reserves. */
module SwapProofs {
  import opened Machine
  import opened Integers
  import opened Rounding
  import opened Arithmetic
  import opened Pools
  import opened LiquidityProofs

  // ---------------------------------------------------------------------------------------
  // One swap, on the integers

  /** The pool always keeps part of the other reserve, and the product of the reserves never drops. */
  lemma SwapKeepsProduct(x: nat, y: nat, d: nat)
    requires x > 0 && y > 0
    ensures ProductOut(x, y, d) < y
    ensures (x + d) * (y - ProductOut(x, y, d)) >= x * y
  {
    var out := ProductOut(x, y, d);
    ProductLe(0, d, y);
    FloorMeaning(y * d, x + d, out);
    KeepsProduct(x, y, d, out);
    ProductLt(0, x, y);
    if out >= y {
      ProductLe(y, out, x + d);
    }
  }

  lemma KeepsProduct(x: int, y: int, d: int, out: int)
    requires out * (x + d) <= y * d
    ensures (x + d) * (y - out) >= x * y
  {
    assert (x + d) * (y - out) == x * y + y * d - out * (x + d);
  }

  /** No larger output would keep the product: the formula pays out all it can. */
  lemma SwapPaysAllItCan(x: nat, y: nat, d: nat, out: nat)
    requires x + d > 0 && out <= y
    ensures (x + d) * (y - out) >= x * y <==> out <= ProductOut(x, y, d)
  {
    ProductLe(0, d, y);
    var f := ProductOut(x, y, d);
    FloorMeaning(y * d, x + d, f);
    assert (x + d) * (y - out) == x * y + y * d - out * (x + d);
    if out <= f {
      ProductLe(out, f, x + d);
    } else {
      ProductLe(f + 1, out, x + d);
      assert (f + 1) * (x + d) == f * (x + d) + (x + d);
    }
  }

  // ---------------------------------------------------------------------------------------
  // Splitting

  /** The total paid out when the inputs are swapped one after another in one direction. */
  function SplitOut(x: nat, y: nat, inputs: seq<nat>): nat
    requires x > 0 && y > 0
    decreases |inputs|
  {
    if inputs == [] then 0
    else
      SwapKeepsProduct(x, y, inputs[0]);
      var out := ProductOut(x, y, inputs[0]);
      out + SplitOut(x + inputs[0], y - out, inputs[1..])
  }

  function TotalIn(inputs: seq<nat>): nat {
    if inputs == [] then 0 else inputs[0] + TotalIn(inputs[1..])
  }

  lemma {:induction false} SplitKeepsProduct(x: nat, y: nat, inputs: seq<nat>)
    requires x > 0 && y > 0
    ensures SplitOut(x, y, inputs) <= y
    ensures (x + TotalIn(inputs)) * (y - SplitOut(x, y, inputs)) >= x * y
    decreases |inputs|
  {
    if inputs != [] {
      var d := inputs[0];
      SwapKeepsProduct(x, y, d);
      SplitKeepsProduct(x + d, y - ProductOut(x, y, d), inputs[1..]);
    }
  }

  /** Splitting an input over several swaps never pays out more than swapping it at once. */
  lemma SplittingNeverHelps(x: nat, y: nat, inputs: seq<nat>)
    requires x > 0 && y > 0
    ensures SplitOut(x, y, inputs) <= ProductOut(x, y, TotalIn(inputs))
  {
    SplitKeepsProduct(x, y, inputs);
    SwapPaysAllItCan(x, y, TotalIn(inputs), SplitOut(x, y, inputs));
  }

  // ---------------------------------------------------------------------------------------
  // Runs of swaps on the pool

  datatype Swap = Swap(sellBase: bool, amount: uint64)

  function AssetIn(p: State, swap: Swap): string {
    if swap.sellBase then p.baseAsset else p.quoteAsset
  }

  /** A simulated swap carried out: the input after fee goes into the pool, the fee is booked, the
      output leaves. A swap that is refused changes nothing. */
  function Execute(p: State, swap: Swap): State {
    Settle(p, swap, Simulate(p, Amount(AssetIn(p, swap), swap.amount)))
  }

  function Settle(p: State, swap: Swap, quoted: Outcome<(Amount, Amount)>): State {
    match quoted
    case Failed(_) => p
    case Done((balanceOut, fee)) =>
      var filled := Deposit(p, Amount(AssetIn(p, swap), ToUint64(swap.amount - fee.value))).0;
      var charged := Accrue(filled, fee).0;
      Withdraw(charged, balanceOut).0
  }

  function ExecuteAll(p: State, swaps: seq<Swap>): State
    decreases |swaps|
  {
    if swaps == [] then p else ExecuteAll(Execute(p, swaps[0]), swaps[1..])
  }

  predicate Tradable(p: State) {
    Sized(p) && p.base > 0 && p.quote > 0 && p.feeFactor >= 0.0 &&
    p.baseAsset != "" && p.quoteAsset != "" && p.baseAsset != p.quoteAsset
  }

  /** The amounts stay within int64, as the conversions of the program require. */
  predicate SwapSized(p: State, swap: Swap) {
    Small(swap.amount) && Small(p.base + swap.amount) && Small(p.quote + swap.amount)
  }

  predicate AllSized(p: State, swaps: seq<Swap>)
    decreases |swaps|
  {
    swaps == [] || (SwapSized(p, swaps[0]) && AllSized(Execute(p, swaps[0]), swaps[1..]))
  }

  lemma FeeNotNegative(amount: int64, factor: real)
    requires amount >= 0 && factor >= 0.0
    ensures FeeOn(amount, factor) >= 0
  {
    var a := amount as real;
    RoundOrder(SHORT, 0.0, a);
    var r := Round(SHORT, a);
    ProductsOfTwo(r, factor);
    RoundOrder(SHORT, 0.0, r);
    MulOrder(0.0, Round(SHORT, r), factor);
    RoundOrder(SHORT, 0.0, Round(SHORT, r) * factor);
  }

  function ReserveIn(p: State, swap: Swap): uint64 {
    if swap.sellBase then p.base else p.quote
  }

  function ReserveOut(p: State, swap: Swap): uint64 {
    if swap.sellBase then p.quote else p.base
  }

  /** The input that reaches the pool: the amount after fee, or nothing if the swap is refused. */
  function NetIn(swap: Swap, fee: int): int {
    if swap.amount == 0 || swap.amount <= fee then 0 else swap.amount - fee
  }

  lemma OutFits(x: nat, y: nat, d: nat)
    requires x > 0 && 0 < y <= MAX_INT64
    ensures 0 <= ProductOut(x, y, d) < y && Clamp(LowInt64(ProductOut(x, y, d))) == ProductOut(x, y, d)
  {
    SwapKeepsProduct(x, y, d);
    ProductLe(0, d, y);
    FloorMeaning(y * d, x + d, ProductOut(x, y, d));
  }

  function OutFor(p: State, swap: Swap, net: nat): nat
    requires ReserveIn(p, swap) + net > 0
  {
    ProductOut(ReserveIn(p, swap), ReserveOut(p, swap), net)
  }

  lemma QuotedMeaning(p: State, swap: Swap, fee: int, out: uint64)
    requires Tradable(p) && SwapSized(p, swap) && 0 <= fee < swap.amount && out == OutFor(p, swap, swap.amount - fee)
    ensures Quoted(p, Amount(AssetIn(p, swap), swap.amount), fee) ==
      Done((Amount(if swap.sellBase then p.quoteAsset else p.baseAsset, out), Amount(AssetIn(p, swap), fee)))
  {
    BalancesMeaning(p, swap);
    var (reserveIn, reserveOut) := Balances(p, AssetIn(p, swap)).result;
    QuotedDone(p, Amount(AssetIn(p, swap), swap.amount), fee, reserveIn, reserveOut);
    PaidOutMeaning(reserveIn, reserveOut, swap.amount - fee);
  }

  lemma QuotedDone(p: State, balanceIn: Amount, fee: int, reserveIn: Amount, reserveOut: Amount)
    requires balanceIn.asset != "" && Small(balanceIn.value) && 0 <= fee < balanceIn.value
    requires Balances(p, balanceIn.asset) == Done((reserveIn, reserveOut))
    ensures Quoted(p, balanceIn, fee) ==
      Done((PaidOut(reserveIn, reserveOut, balanceIn.value - fee), Amount(balanceIn.asset, fee)))
  {
    Unclamped(fee);
  }

  lemma PaidOutMeaning(reserveIn: Amount, reserveOut: Amount, d: int)
    requires reserveOut.asset != "" && reserveIn.value > 0 && 0 < reserveOut.value <= MAX_INT64 && d > 0
    ensures 0 <= ProductOut(reserveIn.value, reserveOut.value, d) < reserveOut.value
    ensures PaidOut(reserveIn, reserveOut, d) == Amount(reserveOut.asset, ProductOut(reserveIn.value, reserveOut.value, d))
  {
    OutFits(reserveIn.value, reserveOut.value, d);
  }

  lemma BalancesMeaning(p: State, swap: Swap)
    requires Tradable(p)
    ensures Balances(p, AssetIn(p, swap)) ==
      Done((Amount(AssetIn(p, swap), ReserveIn(p, swap)),
            Amount(if swap.sellBase then p.quoteAsset else p.baseAsset, ReserveOut(p, swap))))
  {
    Unclamped(p.base);
    Unclamped(p.quote);
  }

  lemma Unclamped(x: int)
    requires Small(x)
    ensures Clamp(Wrap(x)) == x && Clamp(LowInt64(x)) == x
  {
  }

  lemma SettleMeaning(p: State, swap: Swap, fee: uint64, out: uint64)
    requires Tradable(p) && SwapSized(p, swap) && fee < swap.amount && out <= ReserveOut(p, swap)
    ensures var after := Settle(p, swap,
        Done((Amount(if swap.sellBase then p.quoteAsset else p.baseAsset, out), Amount(AssetIn(p, swap), fee))));
      ReserveIn(after, swap) == ReserveIn(p, swap) + (swap.amount - fee) &&
      ReserveOut(after, swap) == ReserveOut(p, swap) - out && OnlyTraded(p, after, swap, fee)
  {
  }

  /** Besides the reserves, only the fee of the asset sold and the sequence change. */
  predicate OnlyTraded(p: State, after: State, swap: Swap, fee: uint64) {
    after == p.(base := after.base, quote := after.quote, sequence := after.sequence,
                feesBase := if swap.sellBase then ToUint64(p.feesBase + fee) else p.feesBase,
                feesQuote := if swap.sellBase then p.feesQuote else ToUint64(p.feesQuote + fee))
  }

  /** What one swap does to the pool, whatever its fee: the input splits into fee and net input, and the
      formula's output leaves. A fee that eats up the input refuses the swap. */
  lemma SwapMeaning(p: State, swap: Swap, fee: int)
    requires Tradable(p) && SwapSized(p, swap) && fee >= 0
    ensures var d, after := NetIn(swap, fee), Settle(p, swap, Quoted(p, Amount(AssetIn(p, swap), swap.amount), fee));
      0 <= d <= swap.amount &&
      (if d == 0 then after == p else d + fee == swap.amount && OnlyTraded(p, after, swap, fee)) &&
      ReserveIn(after, swap) == ReserveIn(p, swap) + d &&
        ReserveOut(after, swap) == ReserveOut(p, swap) - OutFor(p, swap, d)
  {
    if NetIn(swap, fee) > 0 {
      OutFits(ReserveIn(p, swap), ReserveOut(p, swap), swap.amount - fee);
      QuotedMeaning(p, swap, fee, OutFor(p, swap, swap.amount - fee));
      SettleMeaning(p, swap, fee, OutFor(p, swap, swap.amount - fee));
    } else {
      FloorMeaning(0, ReserveIn(p, swap), 0);
    }
  }

  lemma ExecuteKeepsProduct(p: State, swap: Swap)
    requires Tradable(p) && SwapSized(p, swap)
    ensures var after := Execute(p, swap); Tradable(after) && after.base * after.quote >= p.base * p.quote
  {
    FeeNotNegative(swap.amount, p.feeFactor);
    SwapKeeps(p, swap, FeeOn(swap.amount, p.feeFactor));
  }

  lemma SwapKeeps(p: State, swap: Swap, fee: int)
    requires Tradable(p) && SwapSized(p, swap) && fee >= 0
    ensures var after := Settle(p, swap, Quoted(p, Amount(AssetIn(p, swap), swap.amount), fee));
      Tradable(after) && after.base * after.quote >= p.base * p.quote
  {
    hide ProductOut, Quoted, Settle;
    var d := NetIn(swap, fee);
    var x, y, out := ReserveIn(p, swap), ReserveOut(p, swap), OutFor(p, swap, d);
    SwapMeaning(p, swap, fee);
    OutFits(x, y, d);
    SwapKeepsProduct(x, y, d);
    ProductKept(p, Settle(p, swap, Quoted(p, Amount(AssetIn(p, swap), swap.amount), fee)), swap, d, out);
  }

  lemma ProductKept(p: State, after: State, swap: Swap, d: int, out: int)
    requires ReserveIn(after, swap) == ReserveIn(p, swap) + d && ReserveOut(after, swap) == ReserveOut(p, swap) - out
    requires (ReserveIn(p, swap) + d) * (ReserveOut(p, swap) - out) >= ReserveIn(p, swap) * ReserveOut(p, swap)
    ensures after.base * after.quote >= p.base * p.quote
  {
  }

  /** Over any run of swaps in both directions: neither reserve is ever emptied, and the product of
      the reserves never drops. */
  lemma {:induction false} RunKeepsProduct(p: State, swaps: seq<Swap>)
    requires Tradable(p) && AllSized(p, swaps)
    ensures var after := ExecuteAll(p, swaps); Tradable(after) && after.base * after.quote >= p.base * p.quote
    decreases |swaps|
  {
    if swaps != [] {
      ExecuteKeepsProduct(p, swaps[0]);
      RunKeepsProduct(Execute(p, swaps[0]), swaps[1..]);
    }
  }

  /** Nobody can trade the pool back to the same base and walk away with some of its quote; the same
      holds the other way round. */
  lemma RunGivesNothingAway(p: State, swaps: seq<Swap>)
    requires Tradable(p) && AllSized(p, swaps)
    ensures var after := ExecuteAll(p, swaps);
      (after.base <= p.base ==> after.quote >= p.quote) && (after.quote <= p.quote ==> after.base >= p.base)
  {
    hide ExecuteAll, AllSized;
    RunKeepsProduct(p, swaps);
    var after := ExecuteAll(p, swaps);
    if after.base <= p.base {
      ProductPins(p.base, p.quote, after.base, after.quote);
    }
    if after.quote <= p.quote {
      ProductPins(p.quote, p.base, after.quote, after.base);
    }
  }

  lemma ProductPins(x: int, y: int, x': int, y': int)
    requires x > 0 && y > 0 && x' > 0 && x' * y' >= x * y && x' <= x
    ensures y' >= y
  {
    if y' < y {
      ProductLt(y', y, x');
      ProductLe(x', x, y);
    }
  }
}
