/** The liquidity pool of pools/types/pools.go: its state, and the operations that change it. */
module Pools {
  import opened Machine
  import opened Rounding
  import opened Arithmetic

  datatype Amount = Amount(asset: string, value: uint64)

  datatype Error =
    | EmptyAssetID
    | ZeroAmount
    | AssetMismatch
    | NotEnoughShares
    | Overflow
    | AssetNotFound
    | InsufficientBalance

  datatype Outcome<T> = Done(result: T) | Failed(error: Error)

  datatype State = State(
    poolID: string,
    baseAsset: string,
    quoteAsset: string,
    shares: uint64,
    base: uint64,
    quote: uint64,
    feesBase: uint64,
    feesQuote: uint64,
    feeFactor: real,
    initialRatio: real,
    sequence: uint64)

  function Next(sequence: uint64): uint64 {
    ToUint64(sequence + 1)
  }

  // ---------------------------------------------------------------------------------------
  // Liquidity

  /** The share part / whole of an amount, all converted to int64 first */
  function Portion(amount: uint64, part: uint64, whole: uint64): uint64
    requires whole > 0
  {
    LowUint64(Share(Wrap(amount), Wrap(part), Wrap(whole)))
  }

  /** What a deposit of the base asset also takes from the depositor, and what it is worth. */
  function QuoteFor(p: State, amount: uint64): uint64 {
    if p.base == 0 then LowUint64(Int(Mul64(p.initialRatio, Wrap(amount) as real)))
    else Portion(p.quote, amount, p.base)
  }

  function SharesFor(p: State, amount: uint64): uint64 {
    if p.base == 0 then
      LowUint64(Int(Sums(0.0, [Wrap(amount) as real, Mul64(p.initialRatio, Wrap(amount) as real)])))
    else Portion(p.shares, amount, p.base)
  }

  /** The checked updates in program order. A failing one stores zero in its field and keeps the
      updates before it. */
  function Grow(p: State, shares: uint64, base: uint64, quote: uint64): (State, bool) {
    match CheckedAddU64(p.shares, shares)
    case Overflow => (p.(shares := 0), false)
    case Exact(s) =>
      match CheckedAddU64(p.base, base)
      case Overflow => (p.(shares := s, base := 0), false)
      case Exact(b) =>
        match CheckedAddU64(p.quote, quote)
        case Overflow => (p.(shares := s, base := b, quote := 0), false)
        case Exact(q) => (p.(shares := s, base := b, quote := q, sequence := Next(p.sequence)), true)
  }

  function Shrink(p: State, shares: uint64, base: uint64, quote: uint64): (State, bool) {
    match CheckedSubU64(p.shares, shares)
    case Overflow => (p.(shares := 0), false)
    case Exact(s) =>
      match CheckedSubU64(p.base, base)
      case Overflow => (p.(shares := s, base := 0), false)
      case Exact(b) =>
        match CheckedSubU64(p.quote, quote)
        case Overflow => (p.(shares := s, base := b, quote := 0), false)
        case Exact(q) => (p.(shares := s, base := b, quote := q, sequence := Next(p.sequence)), true)
  }

  function Add(p: State, baseIn: Amount): (State, Outcome<(uint64, uint64)>) {
    if baseIn.asset == "" then (p, Failed(EmptyAssetID))
    else if baseIn.value == 0 then (p, Failed(ZeroAmount))
    else if baseIn.asset != p.baseAsset then (p, Failed(AssetMismatch))
    else
      var quoteIn, sharesOut := QuoteFor(p, baseIn.value), SharesFor(p, baseIn.value);
      var (after, ok) := Grow(p, sharesOut, baseIn.value, quoteIn);
      (after, if ok then Done((quoteIn, sharesOut)) else Failed(Error.Overflow))
  }

  function Remove(p: State, sharesIn: Amount): (State, Outcome<(uint64, uint64)>) {
    if sharesIn.asset == "" then (p, Failed(EmptyAssetID))
    else if sharesIn.value == 0 then (p, Failed(ZeroAmount))
    else if sharesIn.asset != p.poolID then (p, Failed(AssetMismatch))
    else if p.shares < sharesIn.value then (p, Failed(NotEnoughShares))
    else
      var baseOut, quoteOut := Portion(p.base, sharesIn.value, p.shares), Portion(p.quote, sharesIn.value, p.shares);
      var (after, ok) := Shrink(p, sharesIn.value, baseOut, quoteOut);
      (after, if ok then Done((baseOut, quoteOut)) else Failed(Error.Overflow))
  }

  // ---------------------------------------------------------------------------------------
  // Swaps

  /** Amount.AddUint64 and CheckedSubU64 on one of the two reserves. */
  function Deposit(p: State, amount: Amount): (State, Outcome<()>) {
    if amount.asset == p.baseAsset then
      match CheckedAddU64(amount.value, p.base)
      case Overflow => (p, Failed(Error.Overflow))
      case Exact(b) => (p.(base := b, sequence := Next(p.sequence)), Done(()))
    else if amount.asset == p.quoteAsset then
      match CheckedAddU64(amount.value, p.quote)
      case Overflow => (p, Failed(Error.Overflow))
      case Exact(q) => (p.(quote := q, sequence := Next(p.sequence)), Done(()))
    else (p, Failed(AssetNotFound))
  }

  function Withdraw(p: State, amount: Amount): (State, Outcome<()>) {
    if amount.asset == p.baseAsset then
      match CheckedSubU64(p.base, amount.value)
      case Overflow => (p, Failed(Error.Overflow))
      case Exact(b) => (p.(base := b, sequence := Next(p.sequence)), Done(()))
    else if amount.asset == p.quoteAsset then
      match CheckedSubU64(p.quote, amount.value)
      case Overflow => (p, Failed(Error.Overflow))
      case Exact(q) => (p.(quote := q, sequence := Next(p.sequence)), Done(()))
    else (p, Failed(AssetNotFound))
  }

  function Accrue(p: State, fee: Amount): (State, Outcome<()>) {
    if fee.asset == "" then (p, Failed(EmptyAssetID))
    else if fee.asset == p.baseAsset then
      (p.(feesBase := ToUint64(p.feesBase + fee.value), sequence := Next(p.sequence)), Done(()))
    else if fee.asset == p.quoteAsset then
      (p.(feesQuote := ToUint64(p.feesQuote + fee.value), sequence := Next(p.sequence)), Done(()))
    else (p, Failed(AssetNotFound))
  }

  function Clamp(x: int64): uint64 {
    if x > 0 then x else 0
  }

  function NewBalance(asset: string, x: int64): Amount {
    if asset == "" then Amount("", 0) else Amount(asset, Clamp(x))
  }

  /** MulIF64(amount, factor) */
  function FeeOn(amount: int64, factor: real): int {
    Int(Products(1.0, [Round(SHORT, amount as real), factor]))
  }

  /** The constant-product formula. */
  function ProductOut(reserveIn: nat, reserveOut: nat, amountIn: nat): (out: nat)
    requires reserveIn + amountIn > 0
  {
    reserveOut * amountIn / (reserveIn + amountIn)
  }

  /** big.Int.Int64 */
  function LowInt64(i: int): int64 {
    var low: int := Wrap(if i >= 0 then i else -i);
    if i >= 0 then low else Wrap(-low)
  }

  /** Pool.Balances: both reserves, the given asset first. */
  function Balances(p: State, asset: string): Outcome<(Amount, Amount)> {
    var base := NewBalance(p.baseAsset, Wrap(p.base));
    var quote := NewBalance(p.quoteAsset, Wrap(p.quote));
    if asset == p.baseAsset then Done((base, quote))
    else if asset == p.quoteAsset then Done((quote, base))
    else Failed(AssetNotFound)
  }

  /** The swap itself, once its fee is known: the balance out, and the fee. */
  function Quoted(p: State, balanceIn: Amount, fee: int): Outcome<(Amount, Amount)> {
    if balanceIn.asset == "" then Failed(EmptyAssetID)
    else if balanceIn.value == 0 then Failed(ZeroAmount)
    else
      match Balances(p, balanceIn.asset)
      case Failed(error) => Failed(error)
      case Done((reserveIn, reserveOut)) =>
        var amountInAfterFee := Wrap(balanceIn.value) - fee;
        if amountInAfterFee <= 0 then Failed(InsufficientBalance)
        else Done((PaidOut(reserveIn, reserveOut, amountInAfterFee), NewBalance(balanceIn.asset, LowInt64(fee))))
  }

  function PaidOut(reserveIn: Amount, reserveOut: Amount, amountIn: int): Amount
    requires amountIn > 0
  {
    NewBalance(reserveOut.asset, LowInt64(ProductOut(reserveIn.value, reserveOut.value, amountIn)))
  }

  /** simulateProductPoolSwap */
  function Simulate(p: State, balanceIn: Amount): Outcome<(Amount, Amount)> {
    Quoted(p, balanceIn, FeeOn(Wrap(balanceIn.value), p.feeFactor))
  }

  // ---------------------------------------------------------------------------------------

  /** The pool as the program holds it. */
  class Pool {
    var PoolID: string
    var BaseAsset: string
    var QuoteAsset: string
    var AmountShares: uint64
    var AmountBase: uint64
    var AmountQuote: uint64
    var FeesCollectedBase: uint64
    var FeesCollectedQuote: uint64
    var FeeFactor: real
    var InitialAssetsRatio: real
    var Sequence: uint64

    ghost function Value(): State
      reads this
    {
      State(PoolID, BaseAsset, QuoteAsset, AmountShares, AmountBase, AmountQuote,
            FeesCollectedBase, FeesCollectedQuote, FeeFactor, InitialAssetsRatio, Sequence)
    }

    method AddLiquidity(baseIn: Amount) returns (r: Outcome<(uint64, uint64)>)
      modifies this
      ensures (Value(), r) == Add(old(Value()), baseIn)
    {
      hide Products, Sums, Round, Int, LowUint64;
      if baseIn.asset == "" {
        return Failed(EmptyAssetID);
      }
      if baseIn.value == 0 {
        return Failed(ZeroAmount);
      }
      if baseIn.asset != BaseAsset {
        return Failed(AssetMismatch);
      }
      var baseInF, poolBaseF := Wrap(baseIn.value) as real, Wrap(AmountBase) as real;
      var quoteIn, sharesOut;
      if poolBaseF == 0.0 {
        var quoteInF := Mul64(InitialAssetsRatio, baseInF);
        quoteIn := LowUint64(Int(quoteInF));
        var sum := AddF([baseInF, quoteInF]);
        sharesOut := LowUint64(Int(sum));
      } else {
        var addedRatio := Quo(baseInF, poolBaseF);
        var quoteF := MulF([Wrap(AmountQuote) as real, addedRatio]);
        quoteIn := LowUint64(Int(quoteF));
        var sharesF := MulF([Wrap(AmountShares) as real, addedRatio]);
        sharesOut := LowUint64(Int(sharesF));
      }
      var shares := CheckedAddU64(AmountShares, sharesOut);
      AmountShares := Stored(shares);
      if shares.Overflow? {
        return Failed(Error.Overflow);
      }
      var base := CheckedAddU64(AmountBase, baseIn.value);
      AmountBase := Stored(base);
      if base.Overflow? {
        return Failed(Error.Overflow);
      }
      var quote := CheckedAddU64(AmountQuote, quoteIn);
      AmountQuote := Stored(quote);
      if quote.Overflow? {
        return Failed(Error.Overflow);
      }
      Sequence := Next(Sequence);
      return Done((quoteIn, sharesOut));
    }

    method RemoveLiquidity(sharesIn: Amount) returns (r: Outcome<(uint64, uint64)>)
      modifies this
      ensures (Value(), r) == Remove(old(Value()), sharesIn)
    {
      hide Products, Round, Int, LowUint64;
      if sharesIn.asset == "" {
        return Failed(EmptyAssetID);
      }
      if sharesIn.value == 0 {
        return Failed(ZeroAmount);
      }
      if sharesIn.asset != PoolID {
        return Failed(AssetMismatch);
      }
      if AmountShares < sharesIn.value {
        return Failed(NotEnoughShares);
      }
      var removeRatio := Quo(Wrap(sharesIn.value) as real, Wrap(AmountShares) as real);
      var baseF := MulF([Wrap(AmountBase) as real, removeRatio]);
      var quoteF := MulF([Wrap(AmountQuote) as real, removeRatio]);
      var baseOut, quoteOut := LowUint64(Int(baseF)), LowUint64(Int(quoteF));

      var shares := CheckedSubU64(AmountShares, sharesIn.value);
      AmountShares := Stored(shares);
      if shares.Overflow? {
        return Failed(Error.Overflow);
      }
      var base := CheckedSubU64(AmountBase, baseOut);
      AmountBase := Stored(base);
      if base.Overflow? {
        return Failed(Error.Overflow);
      }
      var quote := CheckedSubU64(AmountQuote, quoteOut);
      AmountQuote := Stored(quote);
      if quote.Overflow? {
        return Failed(Error.Overflow);
      }
      Sequence := Next(Sequence);
      return Done((baseOut, quoteOut));
    }

    method AddAmount(amount: Amount) returns (r: Outcome<()>)
      modifies this
      ensures (Value(), r) == Deposit(old(Value()), amount)
    {
      if amount.asset == BaseAsset {
        var sum := CheckedAddU64(amount.value, AmountBase);
        if sum.Overflow? {
          return Failed(Error.Overflow);
        }
        AmountBase := sum.value;
      } else if amount.asset == QuoteAsset {
        var sum := CheckedAddU64(amount.value, AmountQuote);
        if sum.Overflow? {
          return Failed(Error.Overflow);
        }
        AmountQuote := sum.value;
      } else {
        return Failed(AssetNotFound);
      }
      Sequence := Next(Sequence);
      return Done(());
    }

    method SubAmount(amount: Amount) returns (r: Outcome<()>)
      modifies this
      ensures (Value(), r) == Withdraw(old(Value()), amount)
    {
      if amount.asset == BaseAsset {
        var diff := CheckedSubU64(AmountBase, amount.value);
        if diff.Overflow? {
          return Failed(Error.Overflow);
        }
        AmountBase := diff.value;
      } else if amount.asset == QuoteAsset {
        var diff := CheckedSubU64(AmountQuote, amount.value);
        if diff.Overflow? {
          return Failed(Error.Overflow);
        }
        AmountQuote := diff.value;
      } else {
        return Failed(AssetNotFound);
      }
      Sequence := Next(Sequence);
      return Done(());
    }

    method AddAccumulatedFees(bal: Amount) returns (r: Outcome<()>)
      modifies this
      ensures (Value(), r) == Accrue(old(Value()), bal)
    {
      if bal.asset == "" {
        return Failed(EmptyAssetID);
      }
      if bal.asset == BaseAsset {
        FeesCollectedBase := ToUint64(FeesCollectedBase + bal.value);
      } else if bal.asset == QuoteAsset {
        FeesCollectedQuote := ToUint64(FeesCollectedQuote + bal.value);
      } else {
        return Failed(AssetNotFound);
      }
      Sequence := Next(Sequence);
      return Done(());
    }
  }
}
