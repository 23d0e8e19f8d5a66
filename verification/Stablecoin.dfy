/** Stablecoin equivalence (helpers/users.go): what one conversion does to a user's balances, and the
    two operations that perform conversions. */
module Stablecoin {
  import opened Machine
  import opened Accounts
  import opened Codec
  import opened Ledger
  import opened Positions

  datatype Asset = Asset(decimals: nat, isCurrency: bool)

  /** AssetData: the registered assets. */
  type Assets = map<string, Asset>

  predicate IsCurrency(assets: Assets, id: string) {
    id in assets && assets[id].isCurrency
  }

  /** 10^x in int64 arithmetic for positive x, 1 otherwise */
  function Exp10(x: int): int64 {
    if x <= 0 then 1 else Wrap(Exp10(x - 1) * 10)
  }

  method ComputeExp10(x: int) returns (result: int64)
    ensures result == Exp10(x)
  {
    result := 1;
    var i := 0;
    while i < x
      invariant 0 <= i && (i <= x || i == 0) && result == Exp10(i)
    {
      result := Wrap(result * 10);
      i := i + 1;
    }
  }

  /** The power of ten of a currency does not wrap to zero, by which dividing would panic. Registering an
      asset does not see to that. */
  predicate Divides(assets: Assets, id: string) {
    IsCurrency(assets, id) ==> assets[id].decimals < 64
  }

  /** Divides n by 10^x, then rounds up if asked to. */
  function ApplyDecimalsThenRound(n: int64, x: int, roundUp: bool): int64
    requires x < 64
  {
    Exp10NonZero(x);
    var m := Exp10(x);
    var result := TruncDiv(n, m);
    if Wrap(result * m) < n && roundUp then Wrap(result + 1) else result
  }

  /** 2^(x) divides the wrapped power, with an odd quotient, for x up to 63. */
  lemma {:induction false} Exp10NonZero(x: int)
    requires x < 64
    ensures Exp10(x) != 0
  {
    if x > 0 {
      var q := Exp10Odd(x);
      Pow2Split(x, 0);
    }
  }

  function Pow2(k: nat): nat {
    if k == 0 then 1 else 2 * Pow2(k - 1)
  }

  lemma {:induction false} Pow2Split(a: nat, b: nat)
    ensures Pow2(a + b) == Pow2(a) * Pow2(b) && Pow2(a) >= 1
  {
    if a > 0 {
      Pow2Split(a - 1, b);
      Doubled(Pow2(a - 1), Pow2(b));
    }
  }

  lemma Doubled(x: int, y: int)
    ensures 2 * (x * y) == (2 * x) * y
  {
  }

  lemma TwoTo64(x: nat)
    requires x < 64
    ensures Pow2(x) * Pow2(64 - x) == TWO_64 && Pow2(64 - x) == 2 * Pow2(63 - x)
  {
    Pow2Split(x, 64 - x);
    Pow64();
  }

  lemma Pow64()
    ensures Pow2(64) == TWO_64
  {
    assert Pow2(8) == 256;
    Pow2Split(8, 8);
    Pow2Split(16, 16);
    Pow2Split(32, 32);
  }

  lemma {:induction false} Exp10Odd(x: nat) returns (q: int)
    requires x < 64
    ensures Exp10(x) == Pow2(x) * q && q % 2 == 1
  {
    if x == 0 {
      q := 1;
    } else {
      var r := Exp10Odd(x - 1);
      var before: int := Exp10(x - 1);
      WrapCongruent(before * 10);
      var k :| Wrap(before * 10) == before * 10 + TWO_64 * k;
      TwoTo64(x);
      q := 5 * r + Pow2(64 - x) * k;
      Distribute(Pow2(x), Pow2(x - 1), r, Pow2(64 - x), k);
      OddSum(r, Pow2(64 - x), Pow2(63 - x), k);
    }
  }

  /** The wrapped power of ten, and with it the divisor of the conversions, is zero exactly from 64 on. */
  lemma {:induction false} Exp10ZeroIff(x: int)
    ensures Exp10(x) == 0 <==> x >= 64
    decreases x
  {
    if x < 64 {
      Exp10NonZero(x);
    } else if x == 64 {
      Exp10At64();
    } else {
      Exp10ZeroIff(x - 1);
    }
  }

  lemma Exp10At64()
    ensures Exp10(64) == 0
  {
    hide Pow2, Wrap;
    var q := Exp10Odd(63);
    Pow64();
    HalfOf64();
    Wrapped(Pow2(63), q);
  }

  lemma HalfOf64()
    ensures Pow2(64) == 2 * Pow2(63)
  {
  }

  lemma Wrapped(h: int, q: int)
    requires 2 * h == TWO_64
    ensures Wrap((h * q) * 10) == 0
  {
    assert (h * q) * 10 == 18446744073709551616 * (5 * q);
  }

  lemma OddSum(r: int, s: int, t: int, k: int)
    requires r % 2 == 1 && s == 2 * t
    ensures (5 * r + s * k) % 2 == 1
  {
    assert s * k == 2 * (t * k);
  }

  lemma Distribute(p: int, h: int, r: int, s: int, k: int)
    requires p == 2 * h
    ensures p * (5 * r + s * k) == (h * r) * 10 + (p * s) * k
  {
  }

  // ---------------------------------------------------------------------------------------
  // Conversions

  /** What equivalence changes in a position. */
  datatype Book = Book(owned: Bals, sseq: Bals)

  /** loss leaves and gain arrives, in the owned balances and in the record of conversions alike. */
  function Move(book: Book, loss: Balance, gain: Balance): Book {
    Book(AddTo(SubFrom(book.owned, loss.asset, loss.Amt()), gain.asset, gain.Amt()),
         AddTo(SubFrom(book.sseq, loss.asset, loss.Amt()), gain.asset, gain.Amt()))
  }

  datatype Progress = Progress(book: Book, converted: int64)

  predicate Target(assets: Assets, required: Balance) {
    IsCurrency(assets, required.asset) && Divides(assets, required.asset)
  }

  predicate AllDivide(assets: Assets, ids: seq<string>) {
    forall id :: id in ids ==> Divides(assets, id)
  }

  /** Whole dollars of one asset that can be converted while `left` are still wanted. */
  function Dollars(assets: Assets, owned: Bals, id: string, left: int64): int64
    requires IsCurrency(assets, id) && Divides(assets, id)
  {
    var dollars := ApplyDecimalsThenRound(AmountOf(owned, id), assets[id].decimals, false);
    if dollars > left then left else dollars
  }

  /** One iteration of the loop over a user's positive assets. */
  function Convert(assets: Assets, required: Balance, goal: int64, p: Progress, id: string): Progress
    requires Target(assets, required) && (p.converted < goal ==> Divides(assets, id))
  {
    if p.converted >= goal || !IsCurrency(assets, id) || id == required.asset then p
    else
      var dollars := Dollars(assets, p.book.owned, id, Wrap(goal - p.converted));
      if dollars <= 0 then p
      else
        var gain := NewBalance(required.asset, Wrap(dollars * Exp10(assets[required.asset].decimals)));
        var loss := NewBalance(id, Wrap(dollars * Exp10(assets[id].decimals)));
        if loss.Amt() < 0 || !HasAtLeast(p.book.owned, loss.asset, loss.Amt()) then p
        else Progress(Move(p.book, loss, gain), Wrap(p.converted + dollars))
  }

  /** The loop, for one order of the assets. */
  function ConvertAll(assets: Assets, required: Balance, goal: int64, p: Progress, order: seq<string>): (r: Progress)
    requires Target(assets, required) && (p.converted < goal ==> AllDivide(assets, order))
    ensures p.converted >= goal ==> r == p
    decreases |order|
  {
    if order == [] then p
    else
      var last := |order| - 1;
      Convert(assets, required, goal, ConvertAll(assets, required, goal, p, order[..last]), order[last])
  }

  predicate Needed(assets: Assets, book: Book, required: Balance) {
    IsCurrency(assets, required.asset) && !HasAtLeast(book.owned, required.asset, required.Amt())
  }

  /** Whole dollars that are missing, rounded up. */
  function Goal(assets: Assets, book: Book, required: Balance): int64
    requires Target(assets, required)
  {
    ApplyDecimalsThenRound(Wrap(required.Amt() - AmountOf(book.owned, required.asset)),
                           assets[required.asset].decimals, true)
  }

  /** No division panics, whatever the order: not that for the goal, and if there is one, none of those for
      the assets that may come first. */
  ghost predicate Activatable(assets: Assets, book: Book, required: Balance) {
    Needed(assets, book, required) ==>
      Divides(assets, required.asset) &&
      (Goal(assets, book, required) > 0 ==> forall id :: id in Positives(book.owned) ==> Divides(assets, id))
  }

  ghost function Activate(assets: Assets, book: Book, required: Balance, order: seq<string>): Book
    requires Activatable(assets, book, required) && Lists(order, Positives(book.owned))
  {
    if Needed(assets, book, required) then
      ConvertAll(assets, required, Goal(assets, book, required), Progress(book, 0), order).book
    else book
  }

  function Least(a: int64, b: int64, c: int64): int64 {
    if a <= b && a <= c then a else if b <= c then b else c
  }

  /** The exponents differ so little that scaling one to the other does not divide by zero. */
  predicate Comparable(assets: Assets, a: string, b: string) {
    IsCurrency(assets, a) && IsCurrency(assets, b) ==> -64 < assets[a].decimals - assets[b].decimals < 64
  }

  /** Converting back as much of one gained asset into one lost asset as both allow. */
  function Cleanup(assets: Assets, book: Book, neg: string, pos: string): Book
    requires Comparable(assets, neg, pos)
  {
    if !IsCurrency(assets, neg) || !IsCurrency(assets, pos) then book
    else
      var posExponent, negExponent := assets[pos].decimals, assets[neg].decimals;
      var minimum := if posExponent < negExponent then posExponent else negExponent;
      var lost := Negated(AmountOf(book.sseq, neg));
      var amount := Least(
        ApplyDecimalsThenRound(AmountOf(book.owned, pos), posExponent - minimum, false),
        ApplyDecimalsThenRound(AmountOf(book.sseq, pos), posExponent - minimum, false),
        ApplyDecimalsThenRound(if lost > 0 then lost else 0, negExponent - minimum, false));
      if amount <= 0 then book
      else
        var gain, loss := Wrap(amount * Exp10(negExponent - minimum)), Wrap(amount * Exp10(posExponent - minimum));
        if loss < 0 || !HasAtLeast(book.owned, pos, loss) then book
        else Book(AddTo(SubFrom(book.owned, pos, loss), neg, gain), AddTo(SubFrom(book.sseq, pos, loss), neg, gain))
  }

  // ---------------------------------------------------------------------------------------
  // The operations

  ghost function BookOf(p: Position): Book
    requires p.Ready()
    reads p, p.Owned, p.SSEQ
  {
    Book(p.Owned.Bals, p.SSEQ.Bals)
  }

  /** The balances that equivalence does not concern are the same objects as before, and nothing else
      changes. */
  twostate predicate OthersKept(p: Position)
    reads p
  {
    p.Locked == old(p.Locked) && p.Supplied == old(p.Supplied) &&
    p.Inactive == old(p.Inactive) && p.InterestSources == old(p.InterestSources) &&
    p.UserID == old(p.UserID) && p.NativeAsset == old(p.NativeAsset) && p.LastUpdated == old(p.LastUpdated) &&
    p.Sequence == old(p.Sequence) && p.original == old(p.original) && p.originalSequence == old(p.originalSequence)
  }

  /** position itself, or a copy of it that went through JSON */
  ghost predicate SelfOrCopy(position: Position, result: Position)
    requires position.Ready()
    reads result, result.Owned, result.Locked, result.Supplied, result.SSEQ, result.Inactive, result.InterestSources
    reads position, position.Owned, position.Locked, position.Supplied, position.SSEQ, position.Inactive, position.InterestSources
  {
    result == position ||
    (result.SameOriginal(position) && if position.Marshals() then result.IsCopyOf(position) else result.Unset())
  }

  /** order is the order in which the map happened to be iterated. */
  method ActivateStablecoinEquivalence(assets: Assets, position: Position, required: Balance, gate: string -> bool)
    returns (result: Position, ghost order: seq<string>)
    requires position.Ready() && Activatable(assets, BookOf(position), required) && AcceptsFlatObjects(gate)
    modifies position
    ensures position.Ready() && OthersKept(position)
    ensures Lists(order, Positives(old(BookOf(position)).owned))
    ensures BookOf(position) == Activate(assets, old(BookOf(position)), required, order)
    ensures SelfOrCopy(position, result)
  {
    hide AcceptsFlatObjects, Convert, Positives, Goal, AllValid, HasAtLeast;
    ghost var book := BookOf(position);
    order := position.Owned.PositiveAssets();
    result := position;
    if !IsCurrency(assets, required.asset) {
      return;
    }
    if HasAtLeast(position.Owned.Bals, required.asset, required.Amt()) {
      return;
    }
    var decimals := assets[required.asset].decimals;
    var toConvert := GoalOf(assets, position.Owned, required, book);
    var converted: int64 := 0;
    var ids := position.Owned.PositiveAssets();
    order := ids;
    for i := 0 to |ids|
      invariant position.Ready() && OthersKept(position) && result == position && ids == order
      invariant Progress(BookOf(position), converted) ==
        ConvertAll(assets, required, toConvert, Progress(book, 0), ids[..i])
    {
      if converted >= toConvert {
        StopsChanging(assets, required, toConvert, Progress(book, 0), ids, i);
        return;
      }
      assert ids[..i + 1][..i] == ids[..i];
      converted := ConvertOne(assets, position, required, toConvert, converted, ids[i]);
    }
    assert ids[..|ids|] == ids;
    result := position.Copy(gate);
  }

  method GoalOf(assets: Assets, owned: Balances, required: Balance, ghost book: Book) returns (toConvert: int64)
    requires Target(assets, required) && book.owned == owned.Bals
    ensures toConvert == Goal(assets, book, required)
  {
    toConvert := Wrap(required.Amt() - AmountOf(owned.Bals, required.asset));
    toConvert := ApplyDecimalsThenRound(toConvert, assets[required.asset].decimals, true);
  }

  /** The body of the loop. */
  method ConvertOne(assets: Assets, position: Position, required: Balance, toConvert: int64, converted: int64,
      assetID: string)
    returns (total: int64)
    requires Target(assets, required) && Divides(assets, assetID) && position.Ready() && converted < toConvert
    modifies position
    ensures position.Ready() && OthersKept(position)
    ensures Progress(BookOf(position), total) ==
      Convert(assets, required, toConvert, Progress(old(BookOf(position)), converted), assetID)
  {
    hide Exp10, ApplyDecimalsThenRound, Wrap, HasAtLeast, AddTo, Negated;
    total := converted;
    if !IsCurrency(assets, assetID) || assetID == required.asset {
      return;
    }
    var dollars := ApplyDecimalsThenRound(AmountOf(position.Owned.Bals, assetID), assets[assetID].decimals, false);
    if dollars > Wrap(toConvert - converted) {
      dollars := Wrap(toConvert - converted);
    }
    if dollars <= 0 {
      return;
    }
    var gain := NewBalance(required.asset, Wrap(dollars * Exp10(assets[required.asset].decimals)));
    var loss := NewBalance(assetID, Wrap(dollars * Exp10(assets[assetID].decimals)));
    var owned, ok := position.Owned.SafeSub(loss.asset, loss.Amt());
    position.Owned := owned;
    if !ok {
      return;
    }
    position.Owned := position.Owned.AddAmount(gain.asset, gain.Amt());
    position.SSEQ := position.SSEQ.SubAmount(loss.asset, loss.Amt());
    position.SSEQ := position.SSEQ.AddAmount(gain.asset, gain.Amt());
    total := Wrap(converted + dollars);
  }

  /** Once the goal is reached, the rest of the loop has nothing left to do. */
  lemma {:induction false} StopsChanging(assets: Assets, required: Balance, goal: int64, p: Progress,
      order: seq<string>, i: nat)
    requires Target(assets, required) && i <= |order| && (p.converted < goal ==> AllDivide(assets, order))
    requires ConvertAll(assets, required, goal, p, order[..i]).converted >= goal
    ensures ConvertAll(assets, required, goal, p, order) == ConvertAll(assets, required, goal, p, order[..i])
    decreases |order|
  {
    if i < |order| {
      var shorter := order[..|order| - 1];
      assert shorter[..i] == order[..i];
      StopsChanging(assets, required, goal, p, shorter, i);
    } else {
      assert order[..i] == order;
    }
  }

  /** neg and pos are the first IDs that the two map iterations happened to yield. */
  method CleanupStablecoinEquivalence(assets: Assets, position: Position, gate: string -> bool)
    returns (result: Position, ghost neg: string, ghost pos: string)
    requires position.Ready() && AcceptsFlatObjects(gate)
    requires forall neg, pos :: neg in Negatives(position.SSEQ.Bals) && pos in Positives(position.SSEQ.Bals) ==>
      Comparable(assets, neg, pos)
    modifies position
    ensures position.Ready() && OthersKept(position)
    ensures var before := old(BookOf(position));
      if Negatives(before.sseq) == {} || Positives(before.sseq) == {} then BookOf(position) == before
      else
        neg in Negatives(before.sseq) && pos in Positives(before.sseq) &&
        BookOf(position) == Cleanup(assets, before, neg, pos)
    ensures SelfOrCopy(position, result)
  {
    hide AcceptsFlatObjects, AllValid, Cleanup, ApplyDecimalsThenRound;
    ghost var book := BookOf(position);
    result, neg, pos := position, "", "";
    var negativeSSEQ := position.SSEQ.Negative();
    var positiveSSEQ := position.SSEQ.Positive();
    var negIDs := negativeSSEQ.AssetIDs();
    var posIDs := positiveSSEQ.AssetIDs();
    SameSigns(book.sseq, negativeSSEQ.Bals, positiveSSEQ.Bals);
    if |negIDs| < 1 || |posIDs| < 1 {
      return;
    }
    assert negIDs[0] in Negatives(book.sseq) && posIDs[0] in Positives(book.sseq);
    negIDs := negativeSSEQ.AssetIDs();
    posIDs := positiveSSEQ.AssetIDs();
    neg, pos := negIDs[0], posIDs[0];
    var negBal := negativeSSEQ.SelectPositive(negIDs[0]);
    var posBal := positiveSSEQ.SelectPositive(posIDs[0]);
    var changed := ConvertBack(assets, position, negBal, posBal);
    if changed {
      result := position.Copy(gate);
    }
  }

  lemma SameSigns(sseq: Bals, negative: Bals, positive: Bals)
    requires negative == map id | id in sseq && sseq[id] < 0 :: Negated(sseq[id])
    requires positive == map id | id in sseq && sseq[id] > 0 :: sseq[id]
    ensures NonZero(negative).Keys == Negatives(sseq) && NonZero(positive).Keys == Positives(sseq)
  {
  }

  lemma SmallAmt(b: Balance)
    requires b.amount <= MAX_INT64
    ensures b.Amt() == b.amount
  {
  }

  /** The conversion itself, once its two assets are chosen. */
  method ConvertBack(assets: Assets, position: Position, negBal: Balance, posBal: Balance) returns (changed: bool)
    requires Comparable(assets, negBal.asset, posBal.asset) && position.Ready()
    requires negBal.asset in Negatives(position.SSEQ.Bals) && posBal.asset in Positives(position.SSEQ.Bals)
    requires posBal.amount == position.SSEQ.Bals[posBal.asset]
    requires var lost := Negated(position.SSEQ.Bals[negBal.asset]); negBal.amount == if lost > 0 then lost else 0
    modifies position
    ensures position.Ready() && OthersKept(position)
    ensures BookOf(position) == Cleanup(assets, old(BookOf(position)), negBal.asset, posBal.asset)
    ensures !changed ==> BookOf(position) == old(BookOf(position))
  {
    hide Exp10, ApplyDecimalsThenRound, HasAtLeast, AddTo, Negated, Wrap, Least;
    SmallAmt(posBal);
    SmallAmt(negBal);
    changed := false;
    if !IsCurrency(assets, negBal.asset) || !IsCurrency(assets, posBal.asset) {
      return;
    }
    var posExponent, negExponent := assets[posBal.asset].decimals, assets[negBal.asset].decimals;
    var minimum := if posExponent < negExponent then posExponent else negExponent;
    var amtOwned := ApplyDecimalsThenRound(AmountOf(position.Owned.Bals, posBal.asset), posExponent - minimum, false);
    var amtPos := ApplyDecimalsThenRound(posBal.Amt(), posExponent - minimum, false);
    var amtNeg := ApplyDecimalsThenRound(negBal.Amt(), negExponent - minimum, false);
    var amount := Least(amtOwned, amtPos, amtNeg);
    if amount <= 0 {
      return;
    }
    var gainAmount := Wrap(amount * Exp10(negExponent - minimum));
    var lossAmount := Wrap(amount * Exp10(posExponent - minimum));
    var owned, ok := position.Owned.SafeSub(posBal.asset, lossAmount);
    position.Owned := owned;
    if !ok {
      return;
    }
    position.Owned := position.Owned.AddAmount(negBal.asset, gainAmount);
    position.SSEQ := position.SSEQ.SubAmount(posBal.asset, lossAmount);
    position.SSEQ := position.SSEQ.AddAmount(negBal.asset, gainAmount);
    changed := true;
  }
}
