/** Converting back: what one cleanup call does, why repeating it ends, and that it undoes activation. */
module CleanupProofs {
  import opened Machine
  import opened Integers
  import opened Accounts
  import opened Stablecoin
  import opened Totals
  import opened ConversionProofs
  import opened ActivateProofs

  function Lower(assets: Assets, a: string, b: string): nat
    requires a in assets && b in assets
  {
    if assets[a].decimals < assets[b].decimals then assets[a].decimals else assets[b].decimals
  }

  /** How many units of the asset make one unit at the smaller of both exponents */
  function Grain(assets: Assets, id: string, other: string): (g: nat)
    requires id in assets && other in assets
    ensures g >= 1
  {
    Pow10(assets[id].decimals - Lower(assets, id, other))
  }

  lemma GrainPowers(assets: Assets, id: string, other: string)
    requires Standard(assets) && id in assets && other in assets
    ensures Grain(assets, id, other) * Weight(assets, id) == Pow10(18 - Lower(assets, id, other))
    ensures Unit(assets, id) == Pow10(Lower(assets, id, other)) * Grain(assets, id, other)
  {
    var lower := Lower(assets, id, other);
    Pow10Split(assets[id].decimals - lower, 18 - assets[id].decimals);
    Pow10Split(lower, assets[id].decimals - lower);
  }

  lemma GrainWorth(assets: Assets, neg: string, pos: string, amount: int)
    requires Standard(assets) && neg in assets && pos in assets
    ensures (amount * Grain(assets, pos, neg)) * Weight(assets, pos) == (amount * Grain(assets, neg, pos)) * Weight(assets, neg)
    ensures Unit(assets, pos) == Pow10(Lower(assets, neg, pos)) * Grain(assets, pos, neg)
    ensures Unit(assets, neg) == Pow10(Lower(assets, neg, pos)) * Grain(assets, neg, pos)
  {
    hide Pow10, Grain, Weight, Unit;
    GrainPowers(assets, pos, neg);
    GrainPowers(assets, neg, pos);
    Grouping(amount, Grain(assets, pos, neg), Weight(assets, pos));
    Grouping(amount, Grain(assets, neg, pos), Weight(assets, neg));
  }

  lemma ApplyNegative(n: int64, x: nat)
    requires n <= 0 && x <= 18
    ensures ApplyDecimalsThenRound(n, x, false) <= 0
  {
    hide Exp10, Pow10;
    Exp10Exact(x);
    Pow10Bound(x);
    NegativeQuotient(n, Pow10(x));
  }

  lemma NegativeQuotient(n: int64, m: int64)
    requires n <= 0 && m > 0
    ensures MIN_INT64 <= TruncDiv(n, m) <= 0
  {
    var x: int := n;
    FloorBounds(-x, m);
  }

  /** A pair that a cleanup call may pick, with a lost asset whose original balance fits int64 */
  predicate Pair(assets: Assets, book: Book, neg: string, pos: string) {
    Standard(assets) && IsCurrency(assets, neg) && IsCurrency(assets, pos) &&
    MIN_INT64 < AmountOf(book.sseq, neg) < 0 < AmountOf(book.sseq, pos) &&
    Fits(AmountOf(book.owned, neg) - AmountOf(book.sseq, neg))
  }

  /** The amount, at the smaller exponent, that both records and the owned balance allow */
  predicate Allowed(assets: Assets, book: Book, neg: string, pos: string, amount: int)
    requires neg in assets && pos in assets
  {
    amount * Grain(assets, pos, neg) <= AmountOf(book.owned, pos) &&
    amount * Grain(assets, pos, neg) <= AmountOf(book.sseq, pos) &&
    amount * Grain(assets, neg, pos) <= 0 - AmountOf(book.sseq, neg)
  }

  /** What the program computes before it converts */
  function Computed(assets: Assets, book: Book, neg: string, pos: string): int64
    requires Standard(assets) && neg in assets && pos in assets
  {
    var lost := Negated(AmountOf(book.sseq, neg));
    Least(ApplyDecimalsThenRound(AmountOf(book.owned, pos), assets[pos].decimals - Lower(assets, pos, neg), false),
          ApplyDecimalsThenRound(AmountOf(book.sseq, pos), assets[pos].decimals - Lower(assets, pos, neg), false),
          ApplyDecimalsThenRound(if lost > 0 then lost else 0, assets[neg].decimals - Lower(assets, neg, pos), false))
  }

  lemma FloorFits(n: int64, x: nat, k: int)
    requires n >= 0 && x <= 18
    ensures k * Pow10(x) <= n <==> k <= ApplyDecimalsThenRound(n, x, false)
    ensures ApplyDecimalsThenRound(n, x, false) >= 0
  {
    hide ApplyDecimalsThenRound, Pow10;
    ApplyFloor(n, x);
    FloorIsGreatest(n, Pow10(x), k);
  }

  /** The computed amount is the largest allowed one. */
  lemma ComputedIsLargest(assets: Assets, book: Book, neg: string, pos: string, k: int)
    requires Pair(assets, book, neg, pos) && k > 0
    ensures Allowed(assets, book, neg, pos, k) <==> k <= Computed(assets, book, neg, pos)
  {
    hide ApplyDecimalsThenRound, Pow10;
    FloorFits(AmountOf(book.sseq, pos), assets[pos].decimals - Lower(assets, pos, neg), k);
    FloorFits(-AmountOf(book.sseq, neg), assets[neg].decimals - Lower(assets, neg, pos), k);
    if AmountOf(book.owned, pos) >= 0 {
      FloorFits(AmountOf(book.owned, pos), assets[pos].decimals - Lower(assets, pos, neg), k);
    } else {
      ApplyNegative(AmountOf(book.owned, pos), assets[pos].decimals - Lower(assets, pos, neg));
      ProductLe(0, k, Grain(assets, pos, neg));
    }
  }

  lemma CleanupUnfold(assets: Assets, book: Book, neg: string, pos: string, amount: int)
    requires Pair(assets, book, neg, pos) && amount == Computed(assets, book, neg, pos)
    requires amount > 0 && Allowed(assets, book, neg, pos, amount) && neg != pos
    ensures var loss, gain := amount * Grain(assets, pos, neg), amount * Grain(assets, neg, pos);
      0 < loss <= MAX_INT64 && 0 < gain <= MAX_INT64 &&
      Cleanup(assets, book, neg, pos) == Move(book, Balance(pos, loss), Balance(neg, gain))
  {
    hide ApplyDecimalsThenRound, Pow10, Exp10, AddTo;
    Exp10Exact(assets[pos].decimals - Lower(assets, pos, neg));
    Exp10Exact(assets[neg].decimals - Lower(assets, neg, pos));
    FactorBound(amount, Grain(assets, pos, neg));
    FactorBound(amount, Grain(assets, neg, pos));
  }

  /** One cleanup call, in exact numbers: it converts the largest amount that this pair allows at the
      smaller exponent, and does nothing if that is zero. */
  lemma CleanupMeaning(assets: Assets, book: Book, neg: string, pos: string)
    requires Pair(assets, book, neg, pos)
    ensures var after, amount := Cleanup(assets, book, neg, pos), Computed(assets, book, neg, pos);
      if amount <= 0 then after == book
      else
        Allowed(assets, book, neg, pos, amount) &&
        Moved(book, after, pos, amount * Grain(assets, pos, neg), neg, amount * Grain(assets, neg, pos))
  {
    hide ApplyDecimalsThenRound, Grain, Exp10, Move;
    var amount := Computed(assets, book, neg, pos);
    if amount > 0 {
      hide Computed, Cleanup;
      ComputedIsLargest(assets, book, neg, pos, amount);
      CleanupUnfold(assets, book, neg, pos, amount);
      MoveExact(book, pos, amount * Grain(assets, pos, neg), neg, amount * Grain(assets, neg, pos));
    }
  }

  // ---------------------------------------------------------------------------------------
  // What a call keeps

  /** No record changes sign, and the gained asset is never overdrawn. */
  lemma CleanupKeepsSigns(assets: Assets, book: Book, neg: string, pos: string)
    requires Pair(assets, book, neg, pos)
    ensures var after := Cleanup(assets, book, neg, pos);
      AmountOf(after.sseq, neg) <= 0 <= AmountOf(after.sseq, pos) &&
      (AmountOf(after.owned, pos) >= 0 || after == book)
  {
    hide Cleanup, Computed, Grain;
    CleanupMeaning(assets, book, neg, pos);
  }

  /** The assets that cleanup does not accept, and the one record it cannot negate */
  lemma CleanupRefuses(assets: Assets, book: Book, neg: string, pos: string)
    requires Standard(assets) && AmountOf(book.sseq, pos) > 0
    requires !IsCurrency(assets, neg) || !IsCurrency(assets, pos) || AmountOf(book.sseq, neg) == MIN_INT64
    ensures Cleanup(assets, book, neg, pos) == book
  {
    hide Exp10, ApplyDecimalsThenRound;
    if IsCurrency(assets, neg) && IsCurrency(assets, pos) {
      ApplyNegative(0, assets[neg].decimals - Lower(assets, neg, pos));
    }
  }

  lemma CleanupKeeps(assets: Assets, book: Book, neg: string, pos: string)
    requires Standard(assets) && neg in Negatives(book.sseq) && pos in Positives(book.sseq)
    requires Fits(AmountOf(book.owned, neg) - AmountOf(book.sseq, neg))
    ensures Keeps(assets, book, Cleanup(assets, book, neg, pos))
  {
    hide Cleanup, Computed, Keeps, Grain;
    var after := Cleanup(assets, book, neg, pos);
    if Pair(assets, book, neg, pos) {
      var amount := Computed(assets, book, neg, pos);
      CleanupMeaning(assets, book, neg, pos);
      if amount > 0 {
        GrainWorth(assets, neg, pos, amount);
        MovedKeeps(assets, book, after, pos, amount * Grain(assets, pos, neg), neg, amount * Grain(assets, neg, pos));
      } else {
        SameKeeps(assets, book, after);
      }
    } else {
      CleanupRefuses(assets, book, neg, pos);
      SameKeeps(assets, book, after);
    }
  }

  // ---------------------------------------------------------------------------------------
  // Repeated cleanup

  ghost predicate CleanupStep(assets: Assets, a: Book, b: Book)
    requires Standard(assets)
  {
    if Negatives(a.sseq) == {} || Positives(a.sseq) == {} then SameBook(a, b)
    else exists neg, pos :: neg in Negatives(a.sseq) && pos in Positives(a.sseq) && SameBook(b, Cleanup(assets, a, neg, pos))
  }

  /** Every asset's balance without equivalence fits int64. */
  ghost predicate NativeFits(book: Book) {
    forall id :: Fits(AmountOf(book.owned, id) - AmountOf(book.sseq, id))
  }

  lemma StepKeeps(assets: Assets, a: Book, b: Book)
    requires Standard(assets) && NativeFits(a) && CleanupStep(assets, a, b)
    ensures Keeps(assets, a, b) && NativeFits(b)
  {
    hide Cleanup, Worth;
    if Negatives(a.sseq) == {} || Positives(a.sseq) == {} {
      SameKeeps(assets, a, b);
    } else {
      var neg, pos :| neg in Negatives(a.sseq) && pos in Positives(a.sseq) && SameBook(b, Cleanup(assets, a, neg, pos));
      CleanupKeeps(assets, a, neg, pos);
      SameKeeps(assets, Cleanup(assets, a, neg, pos), b);
      KeepsTransitive(assets, a, Cleanup(assets, a, neg, pos), b);
    }
  }

  function Gained(assets: Assets, sseq: Bals): map<string, int>
    requires Standard(assets)
  {
    map id | id in assets &&
      assets[id].isCurrency :: (if AmountOf(sseq, id) > 0 then AmountOf(sseq, id) else 0) * Weight(assets, id)
  }

  /** Everything still recorded as gained, at 18 decimals */
  ghost function Outstanding(assets: Assets, sseq: Bals): int
    requires Standard(assets)
  {
    Total(Gained(assets, sseq))
  }

  lemma OutstandingNonNegative(assets: Assets, sseq: Bals)
    requires Standard(assets)
    ensures Outstanding(assets, sseq) >= 0
  {
    hide Weight;
    forall id | id in Gained(assets, sseq)
      ensures Gained(assets, sseq)[id] >= 0
    {
      ProductLe(0, if AmountOf(sseq, id) > 0 then AmountOf(sseq, id) else 0, Weight(assets, id));
    }
    TotalNonNegative(Gained(assets, sseq));
  }

  lemma OutstandingSame(assets: Assets, a: Bals, b: Bals)
    requires Standard(assets) && SameAmounts(a, b)
    ensures Outstanding(assets, a) == Outstanding(assets, b)
  {
    assert Gained(assets, a) == Gained(assets, b);
  }

  lemma OutstandingDrops(assets: Assets, a: Book, b: Book, neg: string, pos: string, loss: int, gain: int)
    requires Standard(assets) && IsCurrency(assets, neg) && IsCurrency(assets, pos)
    requires Moved(a, b, pos, loss, neg, gain) && 0 < loss <= AmountOf(a.sseq, pos) &&
      AmountOf(a.sseq, neg) + gain <= 0 < gain
    ensures Outstanding(assets, b.sseq) < Outstanding(assets, a.sseq)
  {
    hide Weight;
    var before, after := Gained(assets, a.sseq), Gained(assets, b.sseq);
    UnitWeight(assets, pos);
    ProductLt(AmountOf(a.sseq, pos) - loss, AmountOf(a.sseq, pos), Weight(assets, pos));
    assert 0 * Weight(assets, neg) == 0;
    TotalTransfer(before, after, pos, neg);
  }

  /** A call that changes anything lowers what is outstanding. */
  lemma StepDrops(assets: Assets, a: Book, b: Book)
    requires Standard(assets) && NativeFits(a) && CleanupStep(assets, a, b) && !SameBook(a, b)
    ensures Outstanding(assets, b.sseq) < Outstanding(assets, a.sseq)
  {
    hide Cleanup, Computed, Grain, Outstanding;
    var neg, pos :| neg in Negatives(a.sseq) && pos in Positives(a.sseq) && SameBook(b, Cleanup(assets, a, neg, pos));
    var after := Cleanup(assets, a, neg, pos);
    OutstandingSame(assets, b.sseq, after.sseq);
    if Pair(assets, a, neg, pos) {
      var amount := Computed(assets, a, neg, pos);
      CleanupMeaning(assets, a, neg, pos);
      FactorBound(if amount > 0 then amount else 0, Grain(assets, pos, neg));
      FactorBound(if amount > 0 then amount else 0, Grain(assets, neg, pos));
      OutstandingDrops(assets, a, after, neg, pos, amount * Grain(assets, pos, neg), amount * Grain(assets, neg, pos));
    } else {
      CleanupRefuses(assets, a, neg, pos);
    }
  }

  ghost predicate CleanupRun(assets: Assets, trace: seq<Book>)
    requires Standard(assets)
  {
    trace != [] && forall i :: 0 <= i < |trace| - 1 ==> CleanupStep(assets, trace[i], trace[i + 1])
  }

  /** From every book there are runs of every length: some call is always possible. */
  lemma {:induction false} RunExists(assets: Assets, start: Book, calls: nat) returns (trace: seq<Book>)
    requires Standard(assets)
    ensures CleanupRun(assets, trace) && trace[0] == start && |trace| == calls + 1
  {
    hide Cleanup;
    if calls == 0 {
      trace := [start];
    } else {
      var shorter := RunExists(assets, start, calls - 1);
      var last := shorter[calls - 1];
      var next := last;
      if Negatives(last.sseq) != {} && Positives(last.sseq) != {} {
        var neg :| neg in Negatives(last.sseq);
        var pos :| pos in Positives(last.sseq);
        next := Cleanup(assets, last, neg, pos);
        assert SameBook(next, Cleanup(assets, last, neg, pos));
      }
      assert CleanupStep(assets, last, next);
      trace := shorter + [next];
      forall i | 0 <= i < |trace| - 1
        ensures CleanupStep(assets, trace[i], trace[i + 1])
      {
        if i < calls - 1 {
          assert CleanupStep(assets, shorter[i], shorter[i + 1]);
        }
      }
    }
  }

  lemma {:induction false} RunKeepsNative(assets: Assets, trace: seq<Book>, i: nat)
    requires Standard(assets) && CleanupRun(assets, trace) && NativeFits(trace[0]) && i < |trace|
    ensures NativeFits(trace[i]) && Keeps(assets, trace[0], trace[i])
  {
    hide CleanupStep, Keeps, NativeFits;
    if i == 0 {
      SameKeeps(assets, trace[0], trace[0]);
    } else {
      RunKeepsNative(assets, trace, i - 1);
      StepKeeps(assets, trace[i - 1], trace[i]);
      KeepsTransitive(assets, trace[0], trace[i - 1], trace[i]);
    }
  }

  /** Repeating cleanup ends: a run in which every call changes something is no longer than what was
      outstanding at its start. */
  lemma {:induction false} CleanupTerminates(assets: Assets, trace: seq<Book>)
    requires Standard(assets) && CleanupRun(assets, trace) && NativeFits(trace[0])
    requires forall i :: 0 <= i < |trace| - 1 ==> !SameBook(trace[i], trace[i + 1])
    ensures |trace| - 1 <= Outstanding(assets, trace[0].sseq)
  {
    var i := 0;
    while i < |trace| - 1
      invariant 0 <= i < |trace|
      invariant i + Outstanding(assets, trace[i].sseq) <= Outstanding(assets, trace[0].sseq)
    {
      RunKeepsNative(assets, trace, i);
      assert CleanupStep(assets, trace[i], trace[i + 1]);
      StepDrops(assets, trace[i], trace[i + 1]);
      i := i + 1;
    }
    OutstandingNonNegative(assets, trace[i].sseq);
  }

  // ---------------------------------------------------------------------------------------
  // Cleanup undoes activation

  /** b is before with the dollars in drawn still moved to the target, and nothing else recorded. */
  ghost predicate Undoing(assets: Assets, before: Book, b: Book, target: string, drawn: map<string, int>) {
    DrawnBook(assets, before, b, target, drawn) && IsCurrency(assets, target) &&
    (forall id :: AmountOf(before.sseq, id) == 0) && AmountOf(before.owned, target) >= 0 &&
    forall id :: id in drawn ==>
      IsCurrency(assets, id) && drawn[id] > 0 && drawn[id] * Unit(assets, id) <= AmountOf(before.owned, id)
  }

  lemma UndoingSigns(assets: Assets, before: Book, b: Book, target: string, drawn: map<string, int>)
    requires Standard(assets) && Undoing(assets, before, b, target, drawn)
    ensures Negatives(b.sseq) == drawn.Keys
    ensures drawn != map[] ==> Positives(b.sseq) == {target}
    ensures drawn == map[] ==> SameBook(b, before)
    ensures forall id :: id in drawn ==> drawn[id] <= Total(drawn)
  {
    hide Unit, Total;
    TotalNonNegative(drawn);
    TotalNone();
    forall id
      ensures id in Negatives(b.sseq) <==> id in drawn
      ensures drawn != map[] ==> (id in Positives(b.sseq) <==> id == target)
      ensures drawn == map[] ==> AmountOf(b.sseq, id) == 0 && AmountOf(b.owned, id) == AmountOf(before.owned, id)
    {
      assert AmountOf(b.sseq, id) == DrawShift(assets, target, drawn, Total(drawn), id);
      if id in drawn {
        FactorBound(drawn[id], Unit(assets, id));
      } else if id == target {
        if drawn != map[] {
          var x :| x in drawn;
          FactorBound(Total(drawn), Unit(assets, target));
        } else {
          assert Total(drawn) * Unit(assets, target) == 0;
        }
      }
    }
  }

  lemma TotalNone()
    ensures Total(map[]) == 0
  {
  }

  /** One call converts back all that was drawn from the asset it picks. */
  lemma UndoAmount(assets: Assets, before: Book, b: Book, target: string, drawn: map<string, int>, neg: string)
    requires Standard(assets) && Undoing(assets, before, b, target, drawn) && neg in drawn
    ensures Pair(assets, b, neg, target)
    ensures Computed(assets, b, neg, target) == drawn[neg] * Pow10(Lower(assets, neg, target))
    ensures Computed(assets, b, neg, target) > 0
  {
    hide Unit, Computed, Pow10, Grain;
    UndoingSigns(assets, before, b, target, drawn);
    var lower, u, v := Pow10(Lower(assets, neg, target)), Grain(assets, target, neg), Grain(assets, neg, target);
    var full := drawn[neg] * lower;
    assert target in Positives(b.sseq) && neg in Negatives(b.sseq);
    GrainWorth(assets, neg, target, full);
    FactorBound(drawn[neg], lower);
    Grouping(drawn[neg], lower, u);
    Grouping(drawn[neg], lower, v);
    ProductLe(drawn[neg], Total(drawn), Unit(assets, target));
    assert Allowed(assets, b, neg, target, full);
    ComputedIsLargest(assets, b, neg, target, full);
    Plus(full, 1, v);
    ComputedIsLargest(assets, b, neg, target, full + 1);
  }

  lemma UndoOne(assets: Assets, before: Book, b: Book, target: string, drawn: map<string, int>, neg: string)
    requires Standard(assets) && Undoing(assets, before, b, target, drawn) && neg in drawn
    ensures Undoing(assets, before, Cleanup(assets, b, neg, target), target, drawn - {neg})
  {
    hide Unit, Computed, Cleanup, Grain, Pow10;
    UndoAmount(assets, before, b, target, drawn, neg);
    var after, amount := Cleanup(assets, b, neg, target), Computed(assets, b, neg, target);
    CleanupMeaning(assets, b, neg, target);
    GrainWorth(assets, neg, target, amount);
    Grouping(drawn[neg], Pow10(Lower(assets, neg, target)), Grain(assets, target, neg));
    Grouping(drawn[neg], Pow10(Lower(assets, neg, target)), Grain(assets, neg, target));
    DrawLess(assets, before, b, after, target, drawn, neg);
  }

  lemma DrawLess(assets: Assets, before: Book, a: Book, b: Book, target: string, drawn: map<string, int>, id: string)
    requires DrawnBook(assets, before, a, target, drawn) && id in drawn
    requires Moved(a, b, target, drawn[id] * Unit(assets, target), id, drawn[id] * Unit(assets, id))
    ensures DrawnBook(assets, before, b, target, drawn - {id})
  {
    hide Unit;
    TotalRemove(drawn, id);
    var less := drawn - {id};
    Plus(Total(less), drawn[id], Unit(assets, target));
    forall x
      ensures DrawShift(assets, target, less, Total(less), x) ==
        DrawShift(assets, target, drawn, Total(drawn), x) +
        Shift(x, target, drawn[id] * Unit(assets, target), id, drawn[id] * Unit(assets, id))
    {
    }
  }

  /** A call from an undoing state, whatever it picks, leaves an undoing state with one source less. */
  lemma UndoStep(assets: Assets, before: Book, a: Book, b: Book, target: string, drawn: map<string,
      int>) returns (neg: string)
    requires Standard(assets) && Undoing(assets, before, a, target, drawn)
    requires drawn != map[] && CleanupStep(assets, a, b)
    ensures neg in drawn && Undoing(assets, before, b, target, drawn - {neg})
  {
    hide Cleanup, Undoing;
    UndoingSigns(assets, before, a, target, drawn);
    var source :| source in drawn;
    assert source in Negatives(a.sseq) && target in Positives(a.sseq);
    var pos;
    neg, pos :| neg in Negatives(a.sseq) && pos in Positives(a.sseq) && SameBook(b, Cleanup(assets, a, neg, pos));
    UndoOne(assets, before, a, target, drawn, neg);
    UndoSame(assets, before, Cleanup(assets, a, neg, pos), b, target, drawn - {neg});
  }

  lemma UndoSame(assets: Assets, before: Book, a: Book, b: Book, target: string, drawn: map<string, int>)
    requires Undoing(assets, before, a, target, drawn) && SameBook(b, a)
    ensures Undoing(assets, before, b, target, drawn)
  {
    hide DrawShift, Unit, Total;
  }

  /** From i calls on, the run is still undoing, with i sources less. */
  lemma {:induction false} UndoRun(assets: Assets, before: Book, trace: seq<Book>, target: string, drawn: map<string,
      int>, i: nat)
    returns (left: map<string, int>)
    requires Standard(assets) && CleanupRun(assets, trace) &&
      Undoing(assets, before, trace[0], target, drawn)
    requires i < |trace| && i <= |drawn|
    ensures |left| == |drawn| - i && Undoing(assets, before, trace[i], target, left)
  {
    hide Undoing, CleanupStep;
    if i == 0 {
      left := drawn;
    } else {
      left := UndoRun(assets, before, trace, target, drawn, i - 1);
      assert CleanupStep(assets, trace[i - 1], trace[i]);
      var neg := UndoStep(assets, before, trace[i - 1], trace[i], target, left);
      assert (left - {neg}).Keys == left.Keys - {neg};
      assert |left.Keys| == |left| && |(left - {neg}).Keys| == |left - {neg}|;
      left := left - {neg};
    }
  }

  /** After activation from a position without conversions, the run starts in an undoing state. */
  lemma ActivateUndoing(assets: Assets, book: Book, after: Book, required: Balance, order: seq<string>)
    returns (drawn: map<string, int>)
    requires Ready(assets, book, required) && Target(assets, required) && Lists(order, Positives(book.owned))
    requires SameBook(after, Activate(assets, book, required, order))
    requires AmountOf(book.owned, required.asset) >= 0 && forall id :: AmountOf(book.sseq, id) == 0
    ensures Undoing(assets, book, after, required.asset, drawn)
  {
    hide Drawn, Total, Unit, Goal, Headroom, ConvertAll, Available, Needed;
    NeedPositive(assets, book, required);
    var target, goal := required.asset, Goal(assets, book, required);
    drawn := Drawn(assets, target, book.owned, goal, order);
    ListingFacts(order, Positives(book.owned));
    GoalMeaning(assets, book, required);
    ConvertAllMeaning(assets, book, required, order);
    DrawnFacts(assets, target, book.owned, goal, order);
    forall id | id in drawn
      ensures IsCurrency(assets, id) && drawn[id] * Unit(assets, id) <= AmountOf(book.owned, id)
    {
      AvailableMeaning(assets, target, book.owned, id);
      ProductLe(drawn[id], Available(assets, target, book.owned, id), Unit(assets, id));
    }
  }

  /** If nothing was converted before, and the target was not owed, then after activation has drawn from
      some number of assets exactly that many cleanup calls, whichever asset each picks, restore every
      amount; fewer do not. */
  lemma CleanupUndoesActivate(assets: Assets, book: Book, required: Balance, order: seq<string>, trace: seq<Book>)
    requires Ready(assets, book, required) && Lists(order, Positives(book.owned))
    requires AmountOf(book.owned, required.asset) >= 0 && forall id :: AmountOf(book.sseq, id) == 0
    requires CleanupRun(assets, trace) && SameBook(trace[0], Activate(assets, book, required, order))
    requires |trace| - 1 == |Negatives(trace[0].sseq)|
    ensures SameBook(trace[|trace| - 1], book)
    ensures forall i :: 0 <= i < |trace| - 1 ==> !SameBook(trace[i], book)
  {
    hide Activate, Headroom, CleanupStep, Undoing;
    var drawn := ActivateUndoing(assets, book, trace[0], required, order);
    UndoingSigns(assets, book, trace[0], required.asset, drawn);
    assert |drawn.Keys| == |drawn|;
    forall i | 0 <= i < |trace|
      ensures SameBook(trace[i], book) <==> i == |trace| - 1
    {
      var left := UndoRun(assets, book, trace, required.asset, drawn, i);
      UndoingSigns(assets, book, trace[i], required.asset, left);
      assert |left| == 0 <==> left == map[];
      if left != map[] {
        var id :| id in left;
        assert id in Negatives(trace[i].sseq);
        assert AmountOf(trace[i].sseq, id) < 0 == AmountOf(book.sseq, id);
      }
      assert |drawn| == |trace| - 1;
    }
  }

  // ---------------------------------------------------------------------------------------
  // When the target was owed

  /** A call never lowers an owned amount below zero, nor one that is below zero already. */
  lemma StepOwned(assets: Assets, a: Book, b: Book, id: string)
    requires Standard(assets) && NativeFits(a) && CleanupStep(assets, a, b)
    ensures AmountOf(b.owned, id) >= 0 || AmountOf(b.owned, id) >= AmountOf(a.owned, id)
  {
    hide Cleanup, Computed, Grain;
    if Negatives(a.sseq) != {} && Positives(a.sseq) != {} {
      var neg, pos :| neg in Negatives(a.sseq) && pos in Positives(a.sseq) && SameBook(b, Cleanup(assets, a, neg, pos));
      if Pair(assets, a, neg, pos) {
        var amount := Computed(assets, a, neg, pos);
        CleanupMeaning(assets, a, neg, pos);
        FactorBound(if amount > 0 then amount else 0, Grain(assets, neg, pos));
      } else {
        CleanupRefuses(assets, a, neg, pos);
      }
    }
  }

  lemma {:induction false} RunOwned(assets: Assets, trace: seq<Book>, id: string, i: nat)
    requires Standard(assets) && CleanupRun(assets, trace) && NativeFits(trace[0]) && i < |trace|
    ensures AmountOf(trace[i].owned, id) >= 0 || AmountOf(trace[i].owned, id) >= AmountOf(trace[0].owned, id)
  {
    hide CleanupStep, NativeFits;
    if i > 0 {
      RunOwned(assets, trace, id, i - 1);
      RunKeepsNative(assets, trace, i - 1);
      assert CleanupStep(assets, trace[i - 1], trace[i]);
      StepOwned(assets, trace[i - 1], trace[i], id);
    }
  }

  /** If the target was owed, and some other currency held a whole dollar, no number of cleanup calls
      restores it. */
  lemma OwedTargetIsNotRestored(assets: Assets, book: Book, required: Balance, order: seq<string>, trace: seq<Book>,
      i: nat)
    requires Ready(assets, book, required) && Lists(order, Positives(book.owned))
    requires AmountOf(book.owned, required.asset) < 0 && forall id :: AmountOf(book.sseq, id) == 0
    requires !NothingToDraw(assets, book, required.asset)
    requires CleanupRun(assets, trace) && SameBook(trace[0], Activate(assets, book, required, order)) && i < |trace|
    ensures !SameBook(trace[i], book)
  {
    hide Activate, Headroom, CleanupStep, Keeps, NothingToDraw;
    var after, target := Activate(assets, book, required, order), required.asset;
    NeedPositive(assets, book, required);
    ActivateDrawsIff(assets, book, required, order);
    ActivateKeeps(assets, book, required, order);
    ActivateRaises(assets, book, required, order);
    NativeFollows(assets, book, after, trace[0]);
    RunOwned(assets, trace, target, i);
    assert AmountOf(trace[0].owned, target) > AmountOf(book.owned, target);
  }

  lemma NativeFollows(assets: Assets, book: Book, after: Book, copy: Book)
    requires Standard(assets) && Keeps(assets, book, after) && SameBook(copy, after) &&
      forall id :: AmountOf(book.sseq, id) == 0
    ensures NativeFits(copy)
  {
    hide Worth;
  }

  /** Activation either changes nothing or records a loss and raises the target. */
  lemma ActivateRaises(assets: Assets, book: Book, required: Balance, order: seq<string>)
    requires Ready(assets, book, required) && Target(assets, required) && Lists(order, Positives(book.owned))
    requires forall id :: AmountOf(book.sseq, id) == 0
    ensures var after := Activate(assets, book, required, order);
      if Negatives(after.sseq) == {} then SameBook(after, book)
      else AmountOf(after.owned, required.asset) > AmountOf(book.owned, required.asset)
  {
    hide Drawn, Total, Unit, Goal, Headroom, ConvertAll, Available, Needed;
    NeedPositive(assets, book, required);
    var target, goal := required.asset, Goal(assets, book, required);
    var drawn := Drawn(assets, target, book.owned, goal, order);
    ListingFacts(order, Positives(book.owned));
    GoalMeaning(assets, book, required);
    ConvertAllMeaning(assets, book, required, order);
    DrawnFacts(assets, target, book.owned, goal, order);
    TotalNonNegative(drawn);
    var after := Activate(assets, book, required, order);
    ProductLe(0, Total(drawn), Unit(assets, target));
    forall id | id in drawn
      ensures id in Negatives(after.sseq)
    {
      FactorBound(drawn[id], Unit(assets, id));
      assert AmountOf(after.sseq, id) < 0;
    }
    if Negatives(after.sseq) != {} {
      var id :| id in Negatives(after.sseq);
      assert AmountOf(after.sseq, id) < 0;
      assert id in drawn;
      FactorBound(Total(drawn), Unit(assets, target));
    } else {
      assert forall id :: id !in drawn;
      assert drawn == map[];
      TotalNone();
      assert Total(drawn) * Unit(assets, target) == 0;
    }
  }

  /** No other currency holds a whole dollar. */
  ghost predicate NothingToDraw(assets: Assets, book: Book, target: string) {
    forall id :: IsCurrency(assets, id) && id != target ==> AmountOf(book.owned, id) < Unit(assets, id)
  }

  lemma NothingAvailable(assets: Assets, book: Book, target: string)
    requires Standard(assets)
    ensures AllAvailable(assets, book, target) >= 0
    ensures AllAvailable(assets, book, target) == 0 <==> NothingToDraw(assets, book, target)
  {
    hide Total, Unit;
    var available := AvailableOf(assets, target, book.owned, Positives(book.owned));
    forall id
      ensures Available(assets, target, book.owned, id) >= 0
      ensures Available(assets, target, book.owned, id) == 0 <==>
              (IsCurrency(assets, id) && id != target ==> AmountOf(book.owned, id) < Unit(assets, id))
    {
      if IsCurrency(assets, id) && AmountOf(book.owned, id) > 0 {
        FloorMeaning(AmountOf(book.owned, id), Unit(assets, id), AmountOf(book.owned, id) / Unit(assets, id));
        FloorIsGreatest(AmountOf(book.owned, id), Unit(assets, id), 1);
      }
    }
    TotalNonNegative(available);
    if NothingToDraw(assets, book, target) {
      TotalOfZeros(available);
    } else {
      var id :| IsCurrency(assets, id) && id != target && AmountOf(book.owned, id) >= Unit(assets, id);
      assert id in available;
    }
  }

  /** Activation records a loss exactly if another currency holds a whole dollar. */
  lemma ActivateDrawsIff(assets: Assets, book: Book, required: Balance, order: seq<string>)
    requires Ready(assets, book, required) && Lists(order, Positives(book.owned))
    requires forall id :: AmountOf(book.sseq, id) == 0
    ensures Negatives(Activate(assets, book, required, order).sseq) == {} <==> NothingToDraw(assets, book, required.asset)
  {
    hide Activate, Headroom, AllAvailable, NothingToDraw, Unit, Goal;
    var target := required.asset;
    NeedPositive(assets, book, required);
    GoalMeaning(assets, book, required);
    ActivateConverts(assets, book, required, order);
    ActivateRaises(assets, book, required, order);
    NothingAvailable(assets, book, target);
    var total := Min(Goal(assets, book, required), AllAvailable(assets, book, target));
    FactorBound(total, Unit(assets, target));
    assert total == 0 ==> total * Unit(assets, target) == 0;
  }

  /** As many cleanup calls as activation drew from assets restore the position exactly when the target
      was not owed to begin with, or no other currency held a whole dollar. */
  lemma CleanupRestoresIff(assets: Assets, book: Book, required: Balance, order: seq<string>, trace: seq<Book>)
    requires Ready(assets, book, required) && Lists(order, Positives(book.owned))
    requires forall id :: AmountOf(book.sseq, id) == 0
    requires CleanupRun(assets, trace) && SameBook(trace[0], Activate(assets, book, required, order))
    requires |trace| - 1 == |Negatives(trace[0].sseq)|
    ensures SameBook(trace[|trace| - 1], book) <==>
      AmountOf(book.owned, required.asset) >= 0 || NothingToDraw(assets, book, required.asset)
  {
    hide Activate, Headroom, CleanupStep, NothingToDraw;
    var after := Activate(assets, book, required, order);
    ActivateDrawsIff(assets, book, required, order);
    SameNegatives(trace[0].sseq, after.sseq);
    if AmountOf(book.owned, required.asset) >= 0 {
      CleanupUndoesActivate(assets, book, required, order, trace);
    } else if !NothingToDraw(assets, book, required.asset) {
      OwedTargetIsNotRestored(assets, book, required, order, trace, |trace| - 1);
    } else {
      NeedPositive(assets, book, required);
      ActivateRaises(assets, book, required, order);
    }
  }

  lemma SameNegatives(a: Bals, b: Bals)
    requires SameAmounts(a, b)
    ensures Negatives(a) == Negatives(b)
  {
    forall id
      ensures id in Negatives(a) <==> id in Negatives(b)
    {
      assert AmountOf(a, id) == AmountOf(b, id);
    }
  }

  // ---------------------------------------------------------------------------------------
  // One position

  function TwoCoins(): Assets {
    map["A" := Asset(0, true), "B" := Asset(0, true)]
  }

  function Holding(have: int64): Book {
    Book(map["A" := have, "B" := 5], map[])
  }

  function Asked(have: int64): Balance
    requires have <= 1000
  {
    Balance("A", if have < 0 then 1 else have + 2)
  }

  lemma HoldingReady(have: int64) returns (order: seq<string>)
    requires -1000 <= have <= 1000
    ensures Ready(TwoCoins(), Holding(have), Asked(have)) && Lists(order, Positives(Holding(have).owned))
    ensures !NothingToDraw(TwoCoins(), Holding(have), "A")
  {
    order := if have > 0 then ["A", "B"] else ["B"];
    var unit := Unit(TwoCoins(), "B");
    assert IsCurrency(TwoCoins(), "B") && AmountOf(Holding(have).owned, "B") >= unit;
  }

  /** A user has 5 B, and some A or a debt in A, and needs a little more A: the calls that convert back
      restore the position exactly if there was no debt. */
  lemma CleanupExample(have: int64) returns (order: seq<string>, trace: seq<Book>)
    requires -1000 <= have <= 1000
    ensures Lists(order, Positives(Holding(have).owned))
    ensures CleanupRun(TwoCoins(), trace)
    ensures trace[0] == Activate(TwoCoins(), Holding(have), Asked(have), order)
    ensures |trace| - 1 == |Negatives(trace[0].sseq)| > 0
    ensures SameBook(trace[|trace| - 1], Holding(have)) <==> have >= 0
  {
    hide Ready, CleanupRun, Activate, NothingToDraw, SameBook, Negatives, Lists;
    order := HoldingReady(have);
    var after := Activate(TwoCoins(), Holding(have), Asked(have), order);
    trace := RunExists(TwoCoins(), after, |Negatives(after.sseq)|);
    SameItself(after);
    ActivateDrawsIff(TwoCoins(), Holding(have), Asked(have), order);
    CleanupRestoresIff(TwoCoins(), Holding(have), Asked(have), order, trace);
  }

  lemma SameItself(book: Book)
    ensures SameBook(book, book)
  {
  }
}
