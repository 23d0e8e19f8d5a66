/** What adding and removing liquidity does to the owners of a pool. */
module LiquidityProofs {
  import opened Machine
  import opened Integers
  import opened Rounding
  import opened Arithmetic
  import opened Pools

  predicate Small(x: int) {
    0 <= x <= MAX_INT64
  }

  /** The pool's amounts survive the int64 conversions. */
  predicate Sized(p: State) {
    Small(p.shares) && Small(p.base) && Small(p.quote)
  }

  lemma SmallShare(reserve: int, part: int, whole: int)
    requires Small(reserve) && Small(part) && Small(whole) && whole > 0 && reserve * part <= EXACT_LIMIT
    ensures LowUint64(Share(Wrap(reserve), Wrap(part), Wrap(whole))) == reserve * part / whole
    ensures 0 <= reserve * part / whole <= EXACT_LIMIT
  {
    hide Share;
    assert reserve * part >= 0;
    ShareExact(reserve, part, whole);
    FloorMeaning(reserve * part, whole, reserve * part / whole);
  }

  // ---------------------------------------------------------------------------------------
  // The float path refines integer division

  predicate AddExactly(p: State, amount: int) {
    Sized(p) && Small(amount) && amount > 0 && p.base > 0 &&
    p.quote * amount <= EXACT_LIMIT && p.shares * amount <= EXACT_LIMIT
  }

  /** Adding to a pool that holds base takes and mints the floored proportional amounts. */
  lemma AddRefinesFloor(p: State, amount: uint64)
    requires AddExactly(p, amount) && p.baseAsset != ""
    ensures var quoteIn, sharesOut := p.quote * amount / p.base, p.shares * amount / p.base;
      0 <= quoteIn <= EXACT_LIMIT && 0 <= sharesOut <= EXACT_LIMIT &&
      Add(p, Amount(p.baseAsset, amount)) ==
        (p.(shares := p.shares + sharesOut, base := p.base + amount, quote := p.quote + quoteIn,
            sequence := Next(p.sequence)),
         Done((quoteIn, sharesOut)))
  {
    SmallShare(p.quote, amount, p.base);
    SmallShare(p.shares, amount, p.base);
  }

  predicate RemoveExactly(p: State, amount: int) {
    Sized(p) && 0 < amount <= p.shares &&
    p.base * amount <= EXACT_LIMIT && p.quote * amount <= EXACT_LIMIT
  }

  lemma ShareOfReserve(reserve: int, part: int, whole: int)
    requires reserve >= 0 && 0 < part <= whole
    ensures 0 <= reserve * part / whole <= reserve
    ensures part == whole ==> reserve * part / whole == reserve
    ensures reserve > 0 && part < whole ==> reserve * part / whole < reserve
  {
    var n := reserve * part;
    ProductLe(part, whole, reserve);
    FloorAtMost(n, whole, reserve);
    FloorAtLeast(n, whole, 0);
    if part == whole {
      FloorAtLeast(n, whole, reserve);
    } else if reserve > 0 {
      ProductLt(part, whole, reserve);
      FloorAtMost(n, whole, reserve - 1);
    }
  }

  /** Removing shares pays out the floored proportional amounts. */
  lemma RemoveRefinesFloor(p: State, amount: uint64)
    requires RemoveExactly(p, amount) && p.poolID != ""
    ensures var baseOut, quoteOut := p.base * amount / p.shares, p.quote * amount / p.shares;
      0 <= baseOut <= p.base && 0 <= quoteOut <= p.quote &&
      Remove(p, Amount(p.poolID, amount)) ==
        (p.(shares := p.shares - amount, base := p.base - baseOut, quote := p.quote - quoteOut,
            sequence := Next(p.sequence)),
         Done((baseOut, quoteOut)))
  {
    SmallShare(p.base, amount, p.shares);
    SmallShare(p.quote, amount, p.shares);
    ShareOfReserve(p.base, amount, p.shares);
    ShareOfReserve(p.quote, amount, p.shares);
  }

  // ---------------------------------------------------------------------------------------
  // Depositing and withdrawing again

  /** Shares minted at s * base <= shares * amount are worth no more base than was paid. */
  lemma RoundTripBase(base: int, shares: int, amount: int, s: int)
    requires base > 0 && shares >= 0 && amount > 0 && s > 0
    requires s * base <= shares * amount
    ensures (base + amount) * s / (shares + s) <= amount
  {
    assert (base + amount) * s == s * base + amount * s;
    assert amount * (shares + s) == shares * amount + amount * s;
    FloorAtMost((base + amount) * s, shares + s, amount);
  }

  lemma Regroup(a: int, b: int, c: int)
    ensures (a * b) * c == (c * a) * b
    ensures (a * b + b) * c == (a * c + c) * b
  {
  }

  /** The shares minted never outgrow (quote paid + 1). */
  lemma QuoteCoversShares(base: int, quote: int, shares: int, amount: int, q: int, s: int)
    requires base > 0 && quote >= 0 && shares > 0
    requires quote * amount < q * base + base && s * base <= shares * amount
    ensures quote * s < q * shares + shares
  {
    ProductLe(s * base, shares * amount, quote);
    ProductLt(quote * amount, q * base + base, shares);
    Regroup(s, base, quote);
    Regroup(shares, amount, quote);
    Regroup(quote, amount, shares);
    Regroup(q, base, shares);
    assert (shares * amount) * quote == (quote * amount) * shares;
    OrderByProduct(quote * s, q * shares + shares, base);
  }

  lemma RoundTripQuote(quote: int, shares: int, q: int, s: int)
    requires quote >= 0 && q >= 0 && shares > 0 && s > 0
    requires quote * s < q * shares + shares
    ensures (quote + q) * s / (shares + s) <= q
  {
    assert (quote + q) * s == quote * s + q * s;
    assert q * (shares + s) == q * shares + q * s;
    FloorAtMost((quote + q) * s, shares + s, q);
  }

  /** A deposit of amount mints sharesOut for quoteIn; withdrawing them pays out this much. */
  lemma RoundTrip(p: State, amount: int, quoteIn: int, sharesOut: int)
    requires p.base > 0 && amount > 0 && sharesOut > 0
    requires quoteIn == p.quote * amount / p.base && sharesOut == p.shares * amount / p.base
    ensures (p.base + amount) * sharesOut / (p.shares + sharesOut) <= amount
    ensures (p.quote + quoteIn) * sharesOut / (p.shares + sharesOut) <= quoteIn
  {
    ProductLe(0, amount, p.quote);
    ProductLe(0, amount, p.shares);
    FloorMeaning(p.quote * amount, p.base, quoteIn);
    FloorMeaning(p.shares * amount, p.base, sharesOut);
    RoundTripBase(p.base, p.shares, amount, sharesOut);
    if p.shares > 0 {
      QuoteCoversShares(p.base, p.quote, p.shares, amount, quoteIn, sharesOut);
      RoundTripQuote(p.quote, p.shares, quoteIn, sharesOut);
    }
  }

  /** Withdrawing exactly the shares just received returns no more base and no more quote than the
      deposit took, and leaves every other owner's reserves at least as large. */
  lemma AddThenRemove(p: State, amount: uint64, quoteIn: uint64, sharesOut: uint64)
    requires AddExactly(p, amount) && p.baseAsset != "" && p.poolID != ""
    requires Add(p, Amount(p.baseAsset, amount)).1 == Done((quoteIn, sharesOut))
    requires RemoveExactly(Add(p, Amount(p.baseAsset, amount)).0, sharesOut)
    ensures var (after, payout) := Remove(Add(p, Amount(p.baseAsset, amount)).0, Amount(p.poolID, sharesOut));
      payout.Done? &&
      payout.result.0 <= amount && payout.result.1 <= quoteIn &&
      after.shares == p.shares && after.base >= p.base && after.quote >= p.quote
  {
    hide Add, Remove;
    AddRefinesFloor(p, amount);
    RemoveRefinesFloor(Add(p, Amount(p.baseAsset, amount)).0, sharesOut);
    RoundTrip(p, amount, quoteIn, sharesOut);
  }

  // ---------------------------------------------------------------------------------------
  // Withdrawals never leave the pool half-updated

  /** What a withdrawal pays out of reserves that 53 bits do not round up. */
  lemma RemoveWithin(p: State, amount: uint64)
    requires p.poolID != "" && Sized(p) && 0 < amount <= p.shares
    requires NotRoundedUp(p.base) && NotRoundedUp(p.quote)
    ensures var (after, payout) := Remove(p, Amount(p.poolID, amount));
      payout.Done? &&
      after.shares + amount == p.shares &&
      after.base + payout.result.0 == p.base && after.quote + payout.result.1 == p.quote
  {
    hide Share, NotRoundedUp;
    ShareAtMost(p.base, amount, p.shares);
    ShareAtMost(p.quote, amount, p.shares);
  }

  /** Withdrawing all shares fails if 53 bits round either reserve up. */
  lemma RemoveAllFails(p: State)
    requires p.poolID != "" && Sized(p) && 0 < p.shares
    requires !NotRoundedUp(p.base) || !NotRoundedUp(p.quote)
    ensures Remove(p, Amount(p.poolID, p.shares)).1 == Failed(Error.Overflow)
  {
    hide Share;
    SmallNotRoundedUp(0);
    if !NotRoundedUp(p.base) {
      ShareOfAllExceeds(p.base, p.shares);
    }
    if !NotRoundedUp(p.quote) {
      ShareOfAllExceeds(p.quote, p.shares);
    }
  }

  /** Every withdrawal that passes the guards succeeds exactly when neither reserve is rounded up by a
      conversion to 53 bits. */
  lemma RemoveSucceedsIff(p: State)
    requires p.poolID != "" && Sized(p) && 0 < p.shares
    ensures (forall amount: uint64 :: 0 < amount <= p.shares ==> Remove(p, Amount(p.poolID, amount)).1.Done?) <==>
      NotRoundedUp(p.base) && NotRoundedUp(p.quote)
  {
    hide Remove, NotRoundedUp;
    if NotRoundedUp(p.base) && NotRoundedUp(p.quote) {
      forall amount: uint64 | 0 < amount <= p.shares
        ensures Remove(p, Amount(p.poolID, amount)).1.Done?
      {
        RemoveWithin(p, amount);
      }
    } else {
      RemoveAllFails(p);
    }
  }

  /** With reserves of at most 2^53 a withdrawal that passes the guards succeeds; withdrawing all shares
      empties both reserves. */
  lemma RemoveNeverFails(p: State, amount: uint64)
    requires p.poolID != "" && Sized(p) && 0 < amount <= p.shares
    requires p.base <= 2 * SHORT && p.quote <= 2 * SHORT
    ensures var (after, payout) := Remove(p, Amount(p.poolID, amount));
      payout.Done? &&
      after.shares + amount == p.shares &&
      after.base + payout.result.0 == p.base && after.quote + payout.result.1 == p.quote &&
      (amount == p.shares ==> after.shares == 0 && after.base == 0 && after.quote == 0)
  {
    hide Share, NotRoundedUp;
    SmallNotRoundedUp(p.base);
    SmallNotRoundedUp(p.quote);
    RemoveWithin(p, amount);
    ShareAtMost(p.base, amount, p.shares);
    ShareAtMost(p.quote, amount, p.shares);
  }

  /** The bound on the reserves cannot be raised by much: this withdrawal of the only share passes every
      guard, fails, and leaves no shares and no base in the books. */
  lemma RemoveCanStrand(p: State)
    requires p.poolID != "" && p.shares == 1 && p.base == 2 * SHORT + 3
    ensures var (after, payout) := Remove(p, Amount(p.poolID, 1));
      payout == Failed(Error.Overflow) && after == p.(shares := 0, base := 0)
  {
    ShareInexact();
  }

  /** A deposit fails after its guards exactly when one of the three sums overflows. The first one that does
      leaves zero in its field: shares, base or quote are wiped out, the later fields miss the deposit, and
      the earlier ones keep it. */
  lemma AddFailureZeroes(p: State, amount: uint64)
    requires p.baseAsset != "" && amount > 0
    ensures var (after, r) := Add(p, Amount(p.baseAsset, amount));
      var shares, base, quote := p.shares + SharesFor(p, amount), p.base + amount, p.quote + QuoteFor(p, amount);
      (r.Failed? <==> shares > MAX_UINT64 || base > MAX_UINT64 || quote > MAX_UINT64) &&
      (r.Failed? ==>
         after.sequence == p.sequence &&
         after.shares == (if shares > MAX_UINT64 then 0 else shares) &&
         after.base == (if shares > MAX_UINT64 then p.base else if base > MAX_UINT64 then 0 else base) &&
         after.quote == (if shares > MAX_UINT64 || base > MAX_UINT64 then p.quote else 0))
  {
    hide QuoteFor, SharesFor;
  }

  // ---------------------------------------------------------------------------------------
  // Every run from a fresh pool

  datatype Change = Deposits(amount: uint64) | Withdraws(shares: uint64)

  function Apply(p: State, change: Change): State {
    match change
    case Deposits(amount) => Add(p, Amount(p.baseAsset, amount)).0
    case Withdraws(shares) => Remove(p, Amount(p.poolID, shares)).0
  }

  function Run(p: State, changes: seq<Change>): State
    decreases |changes|
  {
    if changes == [] then p else Run(Apply(p, changes[0]), changes[1..])
  }

  /** The change fails one of the guards, or stays where the float path is exact. */
  predicate InRange(p: State, change: Change) {
    match change
    case Deposits(amount) =>
      amount == 0 || AddExactly(p, amount) ||
      (p.base == 0 && Sized(p) && p.initialRatio >= 0.0 && amount <= MAX_INT64 &&
       amount as real + p.initialRatio * amount as real <= 9007199254740990.0)
    case Withdraws(shares) => shares == 0 || shares > p.shares || RemoveExactly(p, shares)
  }

  predicate RunInRange(p: State, changes: seq<Change>)
    decreases |changes|
  {
    changes == [] || (InRange(p, changes[0]) && RunInRange(Apply(p, changes[0]), changes[1..]))
  }

  predicate Named(p: State) {
    p.poolID != "" && p.baseAsset != ""
  }

  /** Shares exist exactly when base does, and an empty pool holds no quote. */
  predicate Consistent(p: State) {
    (p.shares == 0 <==> p.base == 0) && (p.base == 0 ==> p.quote == 0)
  }

  lemma SumsOfTwo(x: real, y: real)
    ensures Sums(0.0, [x, y]) == Round(SHORT, Round(SHORT, x) + y)
  {
    assert [x, y][..1] == [x];
    assert [x][..0] == [];
    assert Sums(0.0, [x]) == Add53(0.0, x);
  }

  /** x rounded lies between the integers around x, and is x itself if x is one of them. */
  lemma RoundBetween(lead: int, x: real, k: int)
    requires lead >= 1 && 0 <= k && k as real <= x <= (k + 1) as real && k + 1 <= 2 * lead
    ensures k as real <= Round(lead, x) <= (k + 1) as real
    ensures x == k as real ==> Round(lead, x) == x
  {
    hide Round;
    RoundInteger(lead, k);
    RoundInteger(lead, k + 1);
    RoundOrder(lead, k as real, x);
    RoundOrder(lead, x, (k + 1) as real);
  }

  lemma SharesBetween(amount: int, quoteF: real, q: int)
    requires amount > 0 && 0 <= q && q as real <= quoteF <= (q + 1) as real && amount + q + 1 <= 2 * SHORT
    ensures var s := Sums(0.0, [amount as real, quoteF]);
      (amount + q) as real <= s <= (amount + q + 1) as real && (quoteF == q as real ==> s == (amount + q) as real)
  {
    hide Round, Sums;
    RoundInteger(SHORT, amount);
    SumsOfTwo(amount as real, quoteF);
    RoundBetween(SHORT, amount as real + quoteF, amount + q);
  }

  /** What the first deposit costs and mints: the ratio's share of quote, and one share per unit of base and
      quote, each rounded down or, where the 64- or 53-bit result reaches the next integer, up. */
  lemma FirstDepositBounds(ratio: real, amount: int, k: int)
    requires ratio >= 0.0 && 0 < amount && 0 <= k && k as real <= ratio * amount as real < (k + 1) as real
    requires amount + k + 2 <= 2 * SHORT
    ensures var quoteF := Mul64(ratio, amount as real);
      var quoteIn, sharesOut := Int(quoteF), Int(Sums(0.0, [amount as real, quoteF]));
      k <= quoteIn <= k + 1 && amount + quoteIn <= sharesOut <= amount + quoteIn + 1 &&
      (ratio * amount as real == k as real ==> quoteIn == k && sharesOut == amount + k)
  {
    hide Round, Sums;
    var quoteF := Mul64(ratio, amount as real);
    RoundBetween(LONG, ratio * amount as real, k);
    SharesBetween(amount, quoteF, Int(quoteF));
  }

  /** The terms of the first deposit are the ratio's share and the sum: both rounded down if the share is whole
      or the sum not too close below the next integer, the quote already if the share is not too close; they
      are never off by more than rounding up. */
  predicate Rounded(ratio: real, amount: int, k: int, quoteIn: int, sharesOut: int) {
    k <= quoteIn <= k + 1 && amount + quoteIn <= sharesOut <= amount + quoteIn + 1 &&
    (Clear(ratio * amount as real, k + 1) ==> quoteIn == k) &&
    (ratio * amount as real == k as real || Away(amount as real + ratio * amount as real, amount + k + 1) ==>
       quoteIn == k && sharesOut == amount + k)
  }

  lemma FirstDeposit(ratio: real, amount: int, k: int)
    requires ratio >= 0.0 && 0 < amount && 0 <= k && k as real <= ratio * amount as real < (k + 1) as real
    requires amount + k + 2 <= 2 * SHORT
    ensures var quoteF := Mul64(ratio, amount as real);
      Rounded(ratio, amount, k, Int(quoteF), Int(Sums(0.0, [amount as real, quoteF])))
  {
    hide Round, Sums, Int, Away, Clear;
    FirstDepositBounds(ratio, amount, k);
    if Clear(ratio * amount as real, k + 1) {
      FirstQuoteExact(ratio * amount as real, k);
    }
    if Away(amount as real + ratio * amount as real, amount + k + 1) {
      FirstDepositExact(ratio * amount as real, amount, k);
    }
  }

  /** Rounding to 53 or 64 bits adds at most this much. */
  lemma RoundingAdds(x: real)
    requires x >= 0.0
    ensures Round(SHORT, x) <= x + x / 9007199254740992.0
    ensures Round(LONG, x) <= x + x / 18446744073709551616.0
  {
    if x > 0.0 {
      RoundScaledError(SHORT, x);
      UlpBound(SHORT, 4503599627370496.0, x);
      RoundScaledError(LONG, x);
      UlpBound(LONG, 9223372036854775808.0, x);
    }
  }

  /** t stays below the integer n by more than a 2^-52th part of itself. */
  predicate Away(t: real, n: int) {
    t + t / 4503599627370496.0 < n as real
  }

  /** t stays below the integer n by more than a 2^-63th part of itself. */
  predicate Clear(t: real, n: int) {
    t + t / 9223372036854775808.0 < n as real
  }

  /** The quote alone is rounded to 64 bits. */
  lemma FirstQuoteExact(x: real, k: int)
    requires 0 <= k && k as real <= x && Clear(x, k + 1) && k + 1 <= 2 * SHORT
    ensures Int(Round(LONG, x)) == k
  {
    hide Round;
    RoundingAdds(x);
    RoundBetween(LONG, x, k);
  }

  /** Unless base and the ratio's share together come within a 2^-52th part of the next integer, both
      results are rounded down. */
  lemma FirstDepositExact(x: real, amount: int, k: int)
    requires 0 < amount && 0 <= k && k as real <= x && amount + k + 2 <= 2 * SHORT
    requires Away(amount as real + x, amount + k + 1)
    ensures Int(Round(LONG, x)) == k && Int(Sums(0.0, [amount as real, Round(LONG, x)])) == amount + k
  {
    hide Round, Sums;
    var a, q := amount as real, Round(LONG, x);
    RoundingAdds(x);
    RoundBetween(LONG, x, k);
    RoundInteger(SHORT, amount);
    SumsOfTwo(a, q);
    RoundingAdds(a + q);
    RoundBetween(SHORT, a + q, amount + k);
  }

  lemma FloorOfShare(ratio: real, amount: int) returns (k: int)
    requires ratio >= 0.0 && 0 < amount && amount as real + ratio * amount as real <= 9007199254740990.0
    ensures 0 <= k && k as real <= ratio * amount as real < (k + 1) as real && amount + k + 2 <= 2 * SHORT
  {
    var x := ratio * amount as real;
    MulOrder(0.0, ratio, amount as real);
    k := x.Floor;
  }

  /** The first deposit into an empty pool. */
  lemma AddToEmpty(p: State, amount: uint64) returns (k: int)
    requires p.baseAsset != "" && p.base == 0 && Sized(p) && p.initialRatio >= 0.0 && 0 < amount
    requires amount as real + p.initialRatio * amount as real <= 9007199254740990.0
    ensures k as real <= p.initialRatio * amount as real < (k + 1) as real
    ensures var (after, r) := Add(p, Amount(p.baseAsset, amount));
      r.Done? &&
      var (quoteIn, sharesOut) := r.result;
      Rounded(p.initialRatio, amount, k, quoteIn, sharesOut) &&
      after == p.(shares := p.shares + sharesOut, base := amount, quote := p.quote + quoteIn, sequence := Next(p.sequence))
  {
    hide QuoteFor, SharesFor, Add;
    k := FloorOfShare(p.initialRatio, amount);
    FirstTerms(p, amount, k);
    AddSucceeds(p, amount);
  }

  lemma FirstTerms(p: State, amount: uint64, k: int)
    requires p.base == 0 && p.initialRatio >= 0.0 && 0 < amount && 0 <= k && amount + k + 2 <= 2 * SHORT
    requires k as real <= p.initialRatio * amount as real < (k + 1) as real
    ensures var quoteIn, sharesOut := QuoteFor(p, amount), SharesFor(p, amount);
      Rounded(p.initialRatio, amount, k, quoteIn, sharesOut)
  {
    hide Round, Sums, Int, Mul64, Rounded, QuoteFor, SharesFor, LowUint64;
    FirstTermsUnfold(p, amount);
    FirstDeposit(p.initialRatio, amount, k);
    var quoteF := Mul64(p.initialRatio, amount as real);
    FirstSizes(p.initialRatio, amount, k, Int(quoteF), Int(Sums(0.0, [amount as real, quoteF])));
    LowBits(Int(quoteF));
    LowBits(Int(Sums(0.0, [amount as real, quoteF])));
  }

  lemma FirstSizes(ratio: real, amount: int, k: int, quoteIn: int, sharesOut: int)
    requires Rounded(ratio, amount, k, quoteIn, sharesOut) && 0 < amount && 0 <= k && amount + k + 2 <= 2 * SHORT
    ensures 0 <= quoteIn <= MAX_UINT64 && 0 <= sharesOut <= MAX_UINT64 && 0 < sharesOut
  {
  }

  lemma LowBits(i: int)
    requires 0 <= i <= MAX_UINT64
    ensures LowUint64(i) == i
  {
  }

  lemma FirstTermsUnfold(p: State, amount: uint64)
    requires p.base == 0 && amount <= MAX_INT64
    ensures var quoteF := Mul64(p.initialRatio, amount as real);
      QuoteFor(p, amount) == LowUint64(Int(quoteF)) &&
      SharesFor(p, amount) == LowUint64(Int(Sums(0.0, [amount as real, quoteF])))
  {
    hide Round, Sums, Int, Mul64, LowUint64;
    assert Wrap(amount) == amount;
  }

  lemma AddSucceeds(p: State, amount: uint64)
    requires p.baseAsset != "" && 0 < amount
    requires p.shares + SharesFor(p, amount) <= MAX_UINT64 && p.base + amount <= MAX_UINT64
    requires p.quote + QuoteFor(p, amount) <= MAX_UINT64
    ensures var quoteIn, sharesOut := QuoteFor(p, amount), SharesFor(p, amount);
      Add(p, Amount(p.baseAsset, amount)) ==
        (p.(shares := p.shares + sharesOut, base := p.base + amount, quote := p.quote + quoteIn,
            sequence := Next(p.sequence)),
         Done((quoteIn, sharesOut)))
  {
    hide QuoteFor, SharesFor;
  }

  lemma ApplyConsistent(p: State, change: Change)
    requires Named(p) && Consistent(p) && InRange(p, change)
    ensures Consistent(Apply(p, change)) && Named(Apply(p, change))
  {
    match change
    case Deposits(amount) =>
      if amount > 0 {
        if p.base > 0 {
          AddRefinesFloor(p, amount);
        } else {
          var k := AddToEmpty(p, amount);
        }
      }
    case Withdraws(shares) =>
      if 0 < shares <= p.shares {
        RemoveRefinesFloor(p, shares);
        ShareOfReserve(p.base, shares, p.shares);
        ShareOfReserve(p.quote, shares, p.shares);
      }
  }

  lemma {:induction false} RunConsistent(p: State, changes: seq<Change>)
    requires Named(p) && Consistent(p) && RunInRange(p, changes)
    ensures Consistent(Run(p, changes)) && Named(Run(p, changes))
    decreases |changes|
  {
    if changes != [] {
      ApplyConsistent(p, changes[0]);
      RunConsistent(Apply(p, changes[0]), changes[1..]);
    }
  }

  /** base per share does not drop from a to b */
  predicate NoLessBasePerShare(a: State, b: State) {
    b.base * a.shares >= a.base * b.shares
  }

  predicate NoLessQuotePerShare(a: State, b: State) {
    b.quote * a.shares >= a.quote * b.shares
  }

  /** A deposit into a pool with shares: base per share does not drop, and quote per share drops by
      less than one unit of quote spread over the pool. */
  lemma DepositTerms(p: State, amount: uint64)
    requires Named(p) && AddExactly(p, amount) && p.shares > 0
    ensures var after := Apply(p, Deposits(amount));
      NoLessBasePerShare(p, after) && p.quote * after.shares < (after.quote + 1) * p.shares
  {
    AddRefinesFloor(p, amount);
    var q, s := p.quote * amount / p.base, p.shares * amount / p.base;
    DepositInequalities(p.base, p.quote, p.shares, amount, q, s);
  }

  lemma DepositInequalities(base: int, quote: int, shares: int, amount: int, q: int, s: int)
    requires base > 0 && quote >= 0 && shares > 0 && amount > 0
    requires q == quote * amount / base && s == shares * amount / base
    ensures (base + amount) * shares >= base * (shares + s)
    ensures quote * (shares + s) < (quote + q + 1) * shares
  {
    ProductLe(0, amount, quote);
    ProductLe(0, amount, shares);
    FloorMeaning(quote * amount, base, q);
    FloorMeaning(shares * amount, base, s);
    QuoteCoversShares(base, quote, shares, amount, q, s);
    Expand(base, amount, shares, s);
    Expand(quote, q + 1, shares, s);
    Expand(q, 1, shares, 0);
  }

  lemma Expand(a: int, b: int, c: int, d: int)
    ensures (a + b) * c == a * c + c * b && a * (c + d) == a * c + d * a && a * d == d * a
  {
  }

  /** A withdrawal lowers neither base nor quote per share. */
  lemma WithdrawalTerms(p: State, amount: uint64)
    requires Named(p) && RemoveExactly(p, amount)
    ensures var after := Apply(p, Withdraws(amount));
      NoLessBasePerShare(p, after) && NoLessQuotePerShare(p, after)
  {
    RemoveRefinesFloor(p, amount);
    PayoutInequality(p.base, p.shares, amount);
    PayoutInequality(p.quote, p.shares, amount);
  }

  lemma PayoutInequality(reserve: int, shares: int, amount: int)
    requires reserve >= 0 && 0 < amount <= shares
    ensures (reserve - reserve * amount / shares) * shares >= reserve * (shares - amount)
  {
    ProductLe(0, amount, reserve);
    var out := reserve * amount / shares;
    FloorMeaning(reserve * amount, shares, out);
    assert (reserve - out) * shares == reserve * shares - out * shares;
    assert reserve * (shares - amount) == reserve * shares - reserve * amount;
  }

  lemma ApplyBasePerShare(p: State, change: Change)
    requires Named(p) && Consistent(p) && InRange(p, change) && p.shares > 0
    ensures NoLessBasePerShare(p, Apply(p, change))
  {
    match change
    case Deposits(amount) =>
      if amount > 0 {
        DepositTerms(p, amount);
      }
    case Withdraws(shares) =>
      if 0 < shares <= p.shares {
        WithdrawalTerms(p, shares);
      }
  }

  /** Shares remain after every change of the run. */
  predicate SharesRemain(p: State, changes: seq<Change>)
    decreases |changes|
  {
    p.shares > 0 && (changes == [] || SharesRemain(Apply(p, changes[0]), changes[1..]))
  }

  lemma BasePerShareTransitive(b0: int, s0: int, b1: int, s1: int, b2: int, s2: int)
    requires s0 >= 0 && s1 > 0 && s2 >= 0 && b1 * s0 >= b0 * s1 && b2 * s1 >= b1 * s2
    ensures b2 * s0 >= b0 * s2
  {
    ProductLe(b0 * s1, b1 * s0, s2);
    ProductLe(b1 * s2, b2 * s1, s0);
    assert (b1 * s0) * s2 == (b1 * s2) * s0;
    assert (b0 * s1) * s2 == (b0 * s2) * s1;
    assert (b2 * s1) * s0 == (b2 * s0) * s1;
    if b2 * s0 < b0 * s2 {
      ProductLt(b2 * s0, b0 * s2, s1);
    }
  }

  /** However deposits and withdrawals alternate, a share's claim on the base never shrinks. */
  lemma {:induction false} RunBasePerShare(p: State, changes: seq<Change>)
    requires Named(p) && Consistent(p) && RunInRange(p, changes) && SharesRemain(p, changes)
    ensures NoLessBasePerShare(p, Run(p, changes))
    decreases |changes|
  {
    if changes != [] {
      var next, last := Apply(p, changes[0]), Run(p, changes);
      ApplyBasePerShare(p, changes[0]);
      ApplyConsistent(p, changes[0]);
      RunBasePerShare(next, changes[1..]);
      BasePerShareTransitive(p.base, p.shares, next.base, next.shares, last.base, last.shares);
    }
  }
}
