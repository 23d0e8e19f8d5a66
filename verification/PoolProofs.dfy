/** What the operations of a pool answer and leave behind, for all pools and all amounts. */
module PoolProofs {
  import opened Machine
  import opened Rounding
  import opened Arithmetic
  import opened Pools

  /** Nothing but the amounts and the sequence differs. */
  predicate OnlyAmounts(p: State, after: State) {
    after == p.(shares := after.shares, base := after.base, quote := after.quote, sequence := after.sequence)
  }

  predicate Counted(p: State, after: State) {
    if p.sequence == MAX_UINT64 then after.sequence == 0 else after.sequence == p.sequence + 1
  }

  /** A deposit books exactly what it answers. It is refused, and changes nothing, for the reasons given. */
  lemma AddOutcomes(p: State, baseIn: Amount)
    ensures var (after, r) := Add(p, baseIn);
      (r == Failed(EmptyAssetID) <==> baseIn.asset == "") &&
      (r == Failed(ZeroAmount) <==> baseIn.asset != "" && baseIn.value == 0) &&
      (r == Failed(AssetMismatch) <==> baseIn.asset !in ["", p.baseAsset] && baseIn.value > 0) &&
      (r.Failed? ==> after.sequence == p.sequence && (r.error == Error.Overflow || after == p)) &&
      OnlyAmounts(p, after) &&
      (r.Done? ==>
         Counted(p, after) && after.base == p.base + baseIn.value &&
         after.quote == p.quote + r.result.0 && after.shares == p.shares + r.result.1)
  {
    hide QuoteFor, SharesFor;
  }

  /** A withdrawal takes from the books exactly what it answers. */
  lemma RemoveOutcomes(p: State, sharesIn: Amount)
    ensures var (after, r) := Remove(p, sharesIn);
      (r == Failed(EmptyAssetID) <==> sharesIn.asset == "") &&
      (r == Failed(ZeroAmount) <==> sharesIn.asset != "" && sharesIn.value == 0) &&
      (r == Failed(AssetMismatch) <==> sharesIn.asset !in ["", p.poolID] && sharesIn.value > 0) &&
      (r == Failed(NotEnoughShares) <==> p.poolID == sharesIn.asset != "" && sharesIn.value > p.shares) &&
      (r.Failed? ==> after.sequence == p.sequence && (r.error == Error.Overflow || after == p)) &&
      OnlyAmounts(p, after) &&
      (r.Done? ==>
         Counted(p, after) && after.shares + sharesIn.value == p.shares &&
         after.base + r.result.0 == p.base && after.quote + r.result.1 == p.quote)
  {
    hide Portion;
  }

  /** If a withdrawal fails after its guards, the first reserve that the payout exceeds is zero afterwards, and
      the shares are gone. */
  lemma RemoveFailureZeroes(p: State, amount: uint64)
    requires p.poolID != "" && 0 < amount <= p.shares
    ensures var (after, r) := Remove(p, Amount(p.poolID, amount));
      var base, quote := p.base - Portion(p.base, amount, p.shares), p.quote - Portion(p.quote, amount, p.shares);
      (r.Failed? <==> base < 0 || quote < 0) &&
      (r.Failed? ==>
         after.shares == p.shares - amount && after.base == (if base < 0 then 0 else base) &&
         after.quote == (if base < 0 then p.quote else 0))
  {
    hide Portion;
  }

  /** The reserve of an asset, if the pool holds it; base comes first if both assets are the same. */
  function ReserveOf(p: State, asset: string): uint64 {
    if asset == p.baseAsset then p.base else p.quote
  }

  predicate Holds(p: State, asset: string) {
    asset == p.baseAsset || asset == p.quoteAsset
  }

  /** after differs from p in the reserve of the asset at most, which is as given, and is counted. */
  predicate ReserveSet(p: State, after: State, asset: string, reserve: int) {
    Counted(p, after) && OnlyAmounts(p, after) && after.shares == p.shares && ReserveOf(after, asset) == reserve &&
    (asset == p.baseAsset ==> after.quote == p.quote) && (asset != p.baseAsset ==> after.base == p.base)
  }

  /** Changing a reserve succeeds exactly if the pool holds the asset and the result is a uint64; else nothing
      changes. */
  lemma ReserveOutcomes(p: State, amount: Amount)
    ensures var (after, r) := Deposit(p, amount);
      var reserve := ReserveOf(p, amount.asset) + amount.value;
      (r.Done? <==> Holds(p, amount.asset) && reserve <= MAX_UINT64) &&
      (r == Failed(AssetNotFound) <==> !Holds(p, amount.asset)) &&
      if r.Done? then ReserveSet(p, after, amount.asset, reserve) else after == p
    ensures var (after, r) := Withdraw(p, amount);
      var reserve := ReserveOf(p, amount.asset) - amount.value;
      (r.Done? <==> Holds(p, amount.asset) && reserve >= 0) &&
      (r == Failed(AssetNotFound) <==> !Holds(p, amount.asset)) &&
      if r.Done? then ReserveSet(p, after, amount.asset, reserve) else after == p
  {
  }

  /** What was added can be taken out again: the pool is as before, but for two more operations counted. */
  lemma WithdrawUndoesDeposit(p: State, amount: Amount)
    requires Deposit(p, amount).1.Done?
    ensures var (after, r) := Withdraw(Deposit(p, amount).0, amount);
      r.Done? && after == p.(sequence := after.sequence)
  {
  }

  /** Fees are booked for the asset they are charged in, modulo 2^64. */
  lemma AccrueOutcomes(p: State, fee: Amount)
    ensures var (after, r) := Accrue(p, fee);
      (r.Done? <==> fee.asset != "" && Holds(p, fee.asset)) &&
      (r == Failed(EmptyAssetID) <==> fee.asset == "") &&
      (r.Failed? ==> after == p) &&
      (r.Done? ==>
         Counted(p, after) &&
         after == p.(feesBase := after.feesBase, feesQuote := after.feesQuote, sequence := after.sequence) &&
         Congruent(after.feesBase, p.feesBase + (if fee.asset == p.baseAsset then fee.value else 0)) &&
         Congruent(after.feesQuote, p.feesQuote + (if fee.asset == p.baseAsset then 0 else fee.value)))
  {
    UintCongruent(p.feesBase + fee.value);
    UintCongruent(p.feesQuote + fee.value);
    UintCongruent(p.feesBase);
    UintCongruent(p.feesQuote);
  }

  lemma UintCongruent(x: int)
    ensures Congruent(ToUint64(x), x)
  {
    assert ToUint64(x) == x + TWO_64 * (-(x / TWO_64));
  }

  // ---------------------------------------------------------------------------------------
  // Simulated swaps

  /** When the simulation refuses, and for which reason */
  lemma SimulateOutcomes(p: State, balanceIn: Amount)
    ensures var r := Simulate(p, balanceIn);
      (r == Failed(EmptyAssetID) <==> balanceIn.asset == "") &&
      (r == Failed(ZeroAmount) <==> balanceIn.asset != "" && balanceIn.value == 0) &&
      (r == Failed(AssetNotFound) <==> balanceIn.asset != "" && balanceIn.value > 0 && !Holds(p, balanceIn.asset)) &&
      (r.Done? ==>
         r.result.1.asset == balanceIn.asset &&
         r.result.0.asset == if balanceIn.asset == p.baseAsset then p.quoteAsset else p.baseAsset)
  {
    hide FeeOn, ProductOut;
  }

  /** A reserve of 2^63 or more, or one without an asset, pays nothing out. */
  lemma LargeReservePaysNothing(p: State, balanceIn: Amount)
    requires Simulate(p, balanceIn).Done?
    requires var (asset, reserve) :=
        if balanceIn.asset == p.baseAsset then (p.quoteAsset, p.quote) else (p.baseAsset, p.base);
      asset == "" || reserve > MAX_INT64
    ensures Simulate(p, balanceIn).result.0.value == 0
  {
    hide FeeOn, ProductOut;
    var (reserveIn, reserveOut) := Balances(p, balanceIn.asset).result;
    assert reserveOut.value == 0;
    var d := Wrap(balanceIn.value) - FeeOn(Wrap(balanceIn.value), p.feeFactor);
    NothingOut(reserveIn.value, d);
  }

  lemma NothingOut(x: nat, d: nat)
    requires x + d > 0
    ensures ProductOut(x, 0, d) == 0
  {
    assert 0 * d == 0;
  }

  lemma LowInt64Congruent(i: int)
    ensures Congruent(LowInt64(i), i)
  {
    if i >= 0 {
      WrapCongruent(i);
    } else {
      var low: int := Wrap(-i);
      WrapCongruent(-i);
      WrapCongruent(-low);
      var k: int :| low == -i + TWO_64 * k;
      var l: int :| Wrap(-low) == -low + TWO_64 * l;
      assert LowInt64(i) == i + TWO_64 * (l - k);
    }
  }

  // ---------------------------------------------------------------------------------------
  // Amounts that int64 cannot hold

  lemma RoundOdd(lead: int, x: real)
    requires lead >= 1
    ensures Round(lead, 0.0 - x) == 0.0 - Round(lead, x)
  {
  }

  lemma IntOdd(x: real)
    ensures Int(0.0 - x) == 0 - Int(x)
  {
  }

  lemma QuoOdd(x: real, y: real)
    requires y != 0.0
    ensures Quo(0.0 - x, y) == 0.0 - Quo(x, y) && Quo(x, 0.0 - y) == 0.0 - Quo(x, y)
  {
    hide Round;
    assert (0.0 - x) / y == 0.0 - x / y && x / (0.0 - y) == 0.0 - x / y;
    RoundOdd(LONG, x / y);
  }

  lemma Mul53Odd(x: real, y: real)
    ensures Mul53(0.0 - x, y) == 0.0 - Mul53(x, y) && Mul53(x, 0.0 - y) == 0.0 - Mul53(x, y)
  {
    hide Round;
    assert (0.0 - x) * y == 0.0 - x * y && x * (0.0 - y) == 0.0 - x * y;
    RoundOdd(SHORT, x * y);
  }

  lemma ShareUnfold(amount: int, part: int, whole: int)
    requires whole != 0
    ensures Share(amount, part, whole) == Int(Mul53(Round(SHORT, amount as real), Quo(part as real, whole as real)))
  {
    hide Round, Quo, Mul53, Int;
    ProductsOfTwo(amount as real, Quo(part as real, whole as real));
  }

  lemma ShareOdd(amount: int, part: int, whole: int)
    requires whole != 0
    ensures Share(0 - amount, part, whole) == 0 - Share(amount, part, whole)
    ensures Share(amount, 0 - part, whole) == 0 - Share(amount, part, whole)
    ensures Share(amount, part, 0 - whole) == 0 - Share(amount, part, whole)
  {
    hide Share, Round, Quo, Mul53, Int;
    var r, q := Round(SHORT, amount as real), Quo(part as real, whole as real);
    ShareUnfold(amount, part, whole);
    ShareUnfold(0 - amount, part, whole);
    ShareUnfold(amount, 0 - part, whole);
    ShareUnfold(amount, part, 0 - whole);
    RoundOdd(SHORT, amount as real);
    QuoOdd(part as real, whole as real);
    Mul53Odd(r, q);
    IntOdd(Mul53(r, q));
  }

  lemma WrapMirror(x: uint64)
    requires x > 0 && x != TWO_63
    ensures Wrap(TWO_64 - x) == 0 - Wrap(x) && Wrap(x) != 0
  {
  }

  lemma LowMirror(i: int)
    ensures LowUint64(0 - i) == LowUint64(i)
  {
  }

  /** Above 2^63 the conversion to int64 makes an amount x count as 2^64 - x, wherever it enters. */
  lemma PortionMirror(amount: uint64, part: uint64, whole: uint64)
    requires amount > 0 && part > 0 && whole > 0
    ensures Portion(TWO_64 - amount, part, whole) == Portion(amount, part, whole)
    ensures Portion(amount, TWO_64 - part, whole) == Portion(amount, part, whole)
    ensures Portion(amount, part, TWO_64 - whole) == Portion(amount, part, whole)
  {
    hide Share, Wrap, LowUint64;
    WrapNonZero(whole);
    ShareOdd(Wrap(amount), Wrap(part), Wrap(whole));
    LowMirror(Share(Wrap(amount), Wrap(part), Wrap(whole)));
    if amount != TWO_63 {
      WrapMirror(amount);
    }
    if part != TWO_63 {
      WrapMirror(part);
    }
    if whole != TWO_63 {
      WrapMirror(whole);
    }
  }

  /** So whoever withdraws all shares of a pool with 2^64 - r base gets r, and the rest stays without shares. */
  lemma LargeReserveStays(p: State, r: int)
    requires p.poolID != "" && 0 < p.shares <= MAX_INT64 && 0 < r <= 2 * SHORT && p.base == TWO_64 - r
    requires p.quote <= 2 * SHORT
    ensures var (after, payout) := Remove(p, Amount(p.poolID, p.shares));
      payout == Done((r, p.quote)) && after.shares == 0 && after.base == TWO_64 - 2 * r
  {
    hide Share, NotRoundedUp;
    PortionMirror(p.base, p.shares, p.shares);
    SmallNotRoundedUp(r);
    SmallNotRoundedUp(p.quote);
    ShareAtMost(r, p.shares, p.shares);
    ShareAtMost(p.quote, p.shares, p.shares);
  }

  lemma WrapNonZero(x: uint64)
    requires x > 0
    ensures Wrap(x) != 0
  {
  }
}
