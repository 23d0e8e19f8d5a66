/** Activating stablecoin equivalence: how much is converted, in any iteration order, and that no
    int64 operation wraps on the way. */
module ActivateProofs {
  import opened Machine
  import opened Integers
  import opened Accounts
  import opened Stablecoin
  import opened Totals
  import opened ConversionProofs

  /** Room in int64 for the requirement, the need and the conversion record, each with one more whole
      unit of the target on top for the rounding up. */
  predicate Headroom(assets: Assets, book: Book, required: Balance)
    requires required.asset in assets
  {
    var unit, need := Unit(assets, required.asset), required.amount - AmountOf(book.owned, required.asset);
    required.amount + unit <= MAX_INT64 && need + unit <= MAX_INT64 &&
    AmountOf(book.sseq, required.asset) + need + unit <= MAX_INT64 &&
    forall id :: id in Positives(book.owned) && IsCurrency(assets, id) ==>
      AmountOf(book.sseq, id) - AmountOf(book.owned, id) >= MIN_INT64
  }

  /** Something is required of a currency, and more than the user has. */
  predicate Ready(assets: Assets, book: Book, required: Balance) {
    Standard(assets) && IsCurrency(assets, required.asset) && Headroom(assets, book, required) &&
    required.amount > 0 && AmountOf(book.owned, required.asset) < required.amount
  }

  lemma NeedPositive(assets: Assets, book: Book, required: Balance)
    requires Ready(assets, book, required)
    ensures required.Amt() == required.amount > 0 && AmountOf(book.owned, required.asset) < required.amount
    ensures Target(assets, required) && Needed(assets, book, required)
  {
  }

  /** The program's own test comes to the same, as long as the amount is an int64; what is above is taken for a
      negative amount, which only a greater debt covers. */
  lemma NeededIff(assets: Assets, book: Book, required: Balance)
    requires IsCurrency(assets, required.asset)
    ensures Needed(assets, book, required) <==>
      var have := AmountOf(book.owned, required.asset);
      if required.amount <= MAX_INT64 then required.amount > 0 && have < required.amount
      else have > required.amount - TWO_64
  {
  }

  /** The goal is the need in whole dollars, rounded up. */
  lemma GoalMeaning(assets: Assets, book: Book, required: Balance)
    requires Ready(assets, book, required)
    ensures Target(assets, required)
    ensures var goal, unit, need := Goal(assets, book, required), Unit(assets, required.asset),
                                    required.amount - AmountOf(book.owned, required.asset);
      goal > 0 && need <= goal * unit < need + unit
  {
    hide ApplyDecimalsThenRound, Pow10;
    NeedPositive(assets, book, required);
    var need := required.amount - AmountOf(book.owned, required.asset);
    ApplyCeiling(need, assets[required.asset].decimals);
    assert 0 * Unit(assets, required.asset) == 0;
  }

  // ---------------------------------------------------------------------------------------
  // What each asset contributes

  /** Whole dollars that an asset could contribute */
  function Available(assets: Assets, target: string, owned: Bals, id: string): int {
    if IsCurrency(assets, id) && id != target &&
      AmountOf(owned, id) > 0 then AmountOf(owned, id) / Unit(assets, id) else 0
  }

  function Min(a: int, b: int): int {
    if a <= b then a else b
  }

  /** Whole dollars taken from each asset when they are asked in this order until the goal is met */
  ghost function Drawn(assets: Assets, target: string, owned: Bals, goal: int, order: seq<string>): map<string, int>
    decreases |order|
  {
    if order == [] then map[]
    else
      var id, before := order[|order| - 1], Drawn(assets, target, owned, goal, order[..|order| - 1]);
      var dollars := Min(Available(assets, target, owned, id), goal - Total(before));
      if dollars > 0 then before[id := dollars] else before
  }

  ghost predicate Distinct(order: seq<string>) {
    forall i, j :: 0 <= i < j < |order| ==> order[i] != order[j]
  }

  lemma AvailableMeaning(assets: Assets, target: string, owned: Bals, id: string)
    ensures var a := Available(assets, target, owned, id);
      a >= 0 && (a > 0 ==> IsCurrency(assets, id) && id != target && a * Unit(assets, id) <= AmountOf(owned, id))
  {
    if IsCurrency(assets, id) && AmountOf(owned, id) > 0 {
      FloorMeaning(AmountOf(owned, id), Unit(assets, id), AmountOf(owned, id) / Unit(assets, id));
    }
  }

  lemma {:induction false} DrawnFacts(assets: Assets, target: string, owned: Bals, goal: int, order: seq<string>)
    requires goal >= 0 && Distinct(order)
    ensures var drawn := Drawn(assets, target, owned, goal, order);
      0 <= Total(drawn) <= goal &&
      forall id :: id in drawn ==> id in order && 0 < drawn[id] <= Available(assets, target, owned, id)
    decreases |order|
  {
    hide Available;
    if order != [] {
      var shorter := order[..|order| - 1];
      DrawnFacts(assets, target, owned, goal, shorter);
      DrawnLast(assets, target, owned, goal, order);
    }
  }

  lemma DrawnLast(assets: Assets, target: string, owned: Bals, goal: int, order: seq<string>)
    requires order != [] && Distinct(order)
    requires var before := Drawn(assets, target, owned, goal, order[..|order| - 1]);
      forall id :: id in before ==> id in order[..|order| - 1]
    ensures var id, before := order[|order| - 1], Drawn(assets, target, owned, goal, order[..|order| - 1]);
      var dollars := Min(Available(assets, target, owned, id), goal - Total(before));
      id !in before &&
      Drawn(assets, target, owned, goal, order) == (if dollars > 0 then before[id := dollars] else before) &&
      Total(Drawn(assets, target, owned, goal, order)) == Total(before) + (if dollars > 0 then dollars else 0)
  {
    hide Available, Total, Drawn;
    var id, before := order[|order| - 1], Drawn(assets, target, owned, goal, order[..|order| - 1]);
    var dollars := Min(Available(assets, target, owned, id), goal - Total(before));
    DrawnStep(assets, target, owned, goal, order);
    assert id !in order[..|order| - 1];
    TotalPut(before, id, dollars);
  }

  lemma DrawnStep(assets: Assets, target: string, owned: Bals, goal: int, order: seq<string>)
    requires order != []
    ensures var id, before := order[|order| - 1], Drawn(assets, target, owned, goal, order[..|order| - 1]);
      var dollars := Min(Available(assets, target, owned, id), goal - Total(before));
      Drawn(assets, target, owned, goal, order) == if dollars > 0 then before[id := dollars] else before
  {
    hide Available, Total;
  }

  lemma DrawnNone(assets: Assets, target: string, owned: Bals, goal: int)
    ensures Drawn(assets, target, owned, goal, []) == map[] && Total(map[]) == 0
  {
  }

  // ---------------------------------------------------------------------------------------
  // The book after drawing

  function DrawShift(assets: Assets, target: string, drawn: map<string, int>, total: int, id: string): int
    requires target in assets && drawn.Keys <= assets.Keys
  {
    if id == target then total * Unit(assets, target)
    else if id in drawn then -(drawn[id] * Unit(assets, id))
    else 0
  }

  /** after is before with the drawn dollars moved to the target, each at its own exponent. */
  ghost predicate DrawnBook(assets: Assets, before: Book, after: Book, target: string, drawn: map<string, int>) {
    target in assets && target !in drawn && drawn.Keys <= assets.Keys &&
    (forall id :: AmountOf(after.owned, id) == AmountOf(before.owned, id) + DrawShift(assets, target, drawn, Total(drawn), id)) &&
    (forall id :: AmountOf(after.sseq, id) == AmountOf(before.sseq, id) + DrawShift(assets, target, drawn, Total(drawn), id))
  }

  lemma DrawNothing(assets: Assets, book: Book, target: string)
    requires target in assets
    ensures DrawnBook(assets, book, book, target, map[])
  {
  }

  /** One more movement extends the drawing. */
  lemma DrawMore(assets: Assets, before: Book, a: Book, b: Book, target: string, drawn: map<string, int>, id: string,
      dollars: int)
    requires DrawnBook(assets, before, a, target, drawn) && id in assets && id != target && id !in drawn
    requires Moved(a, b, id, dollars * Unit(assets, id), target, dollars * Unit(assets, target))
    ensures DrawnBook(assets, before, b, target, drawn[id := dollars])
  {
    hide Unit;
    TotalPut(drawn, id, dollars);
    Plus(Total(drawn), dollars, Unit(assets, target));
    var more := drawn[id := dollars];
    forall x
      ensures DrawShift(assets, target, more, Total(more), x) ==
        DrawShift(assets, target, drawn, Total(drawn), x) +
        Shift(x, id, dollars * Unit(assets, id), target, dollars * Unit(assets, target))
    {
    }
  }

  /** The amounts that one draw moves stay within int64. */
  lemma DrawFits(assets: Assets, book: Book, required: Balance, a: Book, drawn: map<string, int>, id: string,
      dollars: int)
    requires Ready(assets, book, required) && Target(assets, required)
    requires DrawnBook(assets, book, a, required.asset, drawn)
    requires IsCurrency(assets, id) && id != required.asset && id !in drawn && AmountOf(book.owned, id) > 0
    requires 0 < dollars <= Available(assets, required.asset, book.owned, id)
    requires 0 <= Total(drawn) && Total(drawn) + dollars <= Goal(assets, book, required)
    ensures var loss, gain := dollars * Unit(assets, id), dollars * Unit(assets, required.asset);
      0 < loss <= AmountOf(a.owned, id) && 0 < gain <= MAX_INT64 &&
      Fits(AmountOf(a.owned, id) - loss) && Fits(AmountOf(a.owned, required.asset) + gain) &&
      Fits(AmountOf(a.sseq, id) - loss) && Fits(AmountOf(a.sseq, required.asset) + gain)
  {
    hide Goal, Needed, Unit;
    var target := required.asset;
    var unit, goal, total := Unit(assets, target), Goal(assets, book, required), Total(drawn);
    NeedPositive(assets, book, required);
    GoalMeaning(assets, book, required);
    AvailableMeaning(assets, target, book.owned, id);
    ProductLe(dollars, Available(assets, target, book.owned, id), Unit(assets, id));
    FactorBound(dollars, Unit(assets, id));
    FactorBound(dollars, unit);
    Plus(total, dollars, unit);
    ProductLe(total + dollars, goal, unit);
    ProductLe(0, total, unit);
    assert id in Positives(book.owned);
  }

  // ---------------------------------------------------------------------------------------
  // The loop computes the drawing

  /** One iteration, in exact numbers. */
  lemma ConvertMeaning(assets: Assets, book: Book, required: Balance, p: Progress, drawn: map<string, int>, id: string)
    requires Ready(assets, book, required) && Target(assets, required)
    requires DrawnBook(assets, book, p.book, required.asset, drawn) && p.converted == Total(drawn)
    requires id in Positives(book.owned) && id !in drawn && 0 <= Total(drawn) <= Goal(assets, book, required)
    ensures var goal := Goal(assets, book, required);
      var dollars := Min(Available(assets, required.asset, book.owned, id), goal - Total(drawn));
      var next, more := Convert(assets, required, goal, p, id), if dollars > 0 then drawn[id := dollars] else drawn;
      DrawnBook(assets, book, next.book, required.asset, more) && next.converted == Total(more)
  {
    hide Goal, Needed, Headroom, ApplyDecimalsThenRound, Wrap;
    var goal, target := Goal(assets, book, required), required.asset;
    var left := goal - Total(drawn);
    var dollars := Min(Available(assets, target, book.owned, id), left);
    if left > 0 && IsCurrency(assets, id) && id != target {
      ApplyFloor(AmountOf(book.owned, id), assets[id].decimals);
      assert AmountOf(p.book.owned, id) == AmountOf(book.owned, id);
      assert Dollars(assets, p.book.owned, id, left) == dollars;
      if dollars > 0 {
        DrawFits(assets, book, required, p.book, drawn, id, dollars);
        ConvertDraws(assets, required, goal, p, id, dollars);
        DrawMore(assets, book, p.book, Convert(assets, required, goal, p, id).book, target, drawn, id, dollars);
        TotalPut(drawn, id, dollars);
      }
    }
  }

  lemma ConvertDraws(assets: Assets, required: Balance, goal: int64, p: Progress, id: string, dollars: int)
    requires Standard(assets) && Target(assets, required) && IsCurrency(assets, id) && id != required.asset
    requires 0 <= p.converted < goal && dollars > 0 && dollars <= goal - p.converted
    requires Dollars(assets, p.book.owned, id, goal - p.converted) == dollars
    requires var loss, gain := dollars * Unit(assets, id), dollars * Unit(assets, required.asset);
      0 < loss <= AmountOf(p.book.owned, id) && 0 < gain <= MAX_INT64 &&
      Fits(AmountOf(p.book.owned, id) - loss) && Fits(AmountOf(p.book.owned, required.asset) + gain) &&
      Fits(AmountOf(p.book.sseq, id) - loss) && Fits(AmountOf(p.book.sseq, required.asset) + gain)
    ensures var next := Convert(assets, required, goal, p, id);
      next.converted == p.converted + dollars &&
      Moved(p.book, next.book, id, dollars * Unit(assets, id), required.asset, dollars * Unit(assets, required.asset))
  {
    hide Dollars, Pow10, Exp10, Move;
    var loss, gain := dollars * Unit(assets, id), dollars * Unit(assets, required.asset);
    Exp10Exact(assets[id].decimals);
    Exp10Exact(assets[required.asset].decimals);
    MoveExact(p.book, id, loss, required.asset, gain);
    assert NewBalance(id, loss) == Balance(id, loss) &&
      NewBalance(required.asset, gain) == Balance(required.asset, gain);
    assert Balance(id, loss).Amt() == loss && Balance(required.asset, gain).Amt() == gain;
    assert Convert(assets, required, goal, p, id) ==
      Progress(Move(p.book, Balance(id, loss), Balance(required.asset, gain)), p.converted + dollars);
  }

  /** Nothing wraps, no subtraction fails: the whole loop moves exactly the drawn dollars. */
  lemma {:induction false} ConvertAllMeaning(assets: Assets, book: Book, required: Balance, order: seq<string>)
    requires Ready(assets, book, required) && Target(assets, required)
    requires Distinct(order) && forall i :: 0 <= i < |order| ==> order[i] in Positives(book.owned)
    ensures var goal := Goal(assets, book, required);
      var p, drawn := ConvertAll(assets, required, goal, Progress(book, 0), order), Drawn(assets, required.asset, book.owned, goal, order);
      DrawnBook(assets, book, p.book, required.asset, drawn) && p.converted == Total(drawn)
    decreases |order|
  {
    hide Goal, Needed, Headroom, Convert, Available, Positives, DrawnBook, Drawn, Total;
    var goal := Goal(assets, book, required);
    GoalMeaning(assets, book, required);
    DrawnFacts(assets, required.asset, book.owned, goal, order);
    if order == [] {
      DrawNothing(assets, book, required.asset);
      DrawnNone(assets, required.asset, book.owned, goal);
    } else {
      var last := |order| - 1;
      ConvertAllMeaning(assets, book, required, order[..last]);
      DrawnFacts(assets, required.asset, book.owned, goal, order[..last]);
      DrawnLast(assets, required.asset, book.owned, goal, order);
      ConvertMeaning(assets, book, required, ConvertAll(assets, required, goal, Progress(book, 0), order[..last]),
                     Drawn(assets, required.asset, book.owned, goal, order[..last]), order[last]);
    }
  }

  // ---------------------------------------------------------------------------------------
  // Independent of the order, and as much as possible

  ghost function AvailableOf(assets: Assets, target: string, owned: Bals, ids: set<string>): map<string, int> {
    map id | id in ids :: Available(assets, target, owned, id)
  }

  function Elements(order: seq<string>): set<string> {
    set id | id in order
  }

  /** In every order, the total drawn is all that is available, capped by the goal. */
  lemma {:induction false} DrawnTotal(assets: Assets, target: string, owned: Bals, goal: int, order: seq<string>)
    requires goal >= 0 && Distinct(order)
    ensures Total(Drawn(assets, target, owned, goal, order)) == Min(goal, Total(AvailableOf(assets, target, owned, Elements(order))))
    ensures Total(AvailableOf(assets, target, owned, Elements(order))) >= 0
    decreases |order|
  {
    hide Available, Drawn, Total;
    if order == [] {
      assert AvailableOf(assets, target, owned, Elements(order)) == map[];
      DrawnNone(assets, target, owned, goal);
    } else {
      var shorter, id := order[..|order| - 1], order[|order| - 1];
      DrawnTotal(assets, target, owned, goal, shorter);
      DrawnFacts(assets, target, owned, goal, shorter);
      DrawnLast(assets, target, owned, goal, order);
      AvailableMeaning(assets, target, owned, id);
      AvailableLast(assets, target, owned, order);
    }
  }

  lemma AvailableLast(assets: Assets, target: string, owned: Bals, order: seq<string>)
    requires order != [] && Distinct(order)
    ensures var shorter, id := order[..|order| - 1], order[|order| - 1];
      Total(AvailableOf(assets, target, owned, Elements(order))) ==
        Total(AvailableOf(assets, target, owned, Elements(shorter))) + Available(assets, target, owned, id)
  {
    hide Available, Total;
    var shorter, id := order[..|order| - 1], order[|order| - 1];
    var before := AvailableOf(assets, target, owned, Elements(shorter));
    assert order == shorter + [id];
    assert AvailableOf(assets, target, owned, Elements(order)) == before[id := Available(assets, target, owned, id)];
    TotalPut(before, id, Available(assets, target, owned, id));
  }

  /** While the goal is not reached, every asset gives all its whole dollars. */
  lemma {:induction false} DrawnFully(assets: Assets, target: string, owned: Bals, goal: int, order: seq<string>,
      id: string)
    requires goal >= 0 && Distinct(order) && id in order
    requires Total(Drawn(assets, target, owned, goal, order)) < goal
    ensures var drawn := Drawn(assets, target, owned, goal, order);
      (if id in drawn then drawn[id] else 0) == Available(assets, target, owned, id)
    decreases |order|
  {
    hide Available;
    var shorter, last := order[..|order| - 1], order[|order| - 1];
    assert order == shorter + [last];
    DrawnFacts(assets, target, owned, goal, shorter);
    DrawnLast(assets, target, owned, goal, order);
    AvailableMeaning(assets, target, owned, last);
    if id != last {
      DrawnFully(assets, target, owned, goal, shorter, id);
    }
  }

  // ---------------------------------------------------------------------------------------
  // Main results

  /** Dollars that the user's other currencies hold, in whole dollars each */
  ghost function AllAvailable(assets: Assets, book: Book, target: string): int {
    Total(AvailableOf(assets, target, book.owned, Positives(book.owned)))
  }

  lemma ListingFacts(order: seq<string>, s: set<string>)
    requires Lists(order, s)
    ensures Distinct(order) && Elements(order) == s && forall i :: 0 <= i < |order| ==> order[i] in s
  {
    assert forall id :: id in Elements(order) <==> id in s;
  }

  /** Whatever the iteration order, activation moves min(goal, available) whole dollars to the target:
      never past the requirement by a whole unit, and short of it only when no other currency has a
      whole dollar left. */
  lemma ActivateConverts(assets: Assets, book: Book, required: Balance, order: seq<string>)
    requires Ready(assets, book, required) && Target(assets, required) && Lists(order, Positives(book.owned))
    ensures var target, after := required.asset, Activate(assets, book, required, order);
      var total, unit := Min(Goal(assets, book, required), AllAvailable(assets, book, target)), Unit(assets, target);
      AmountOf(after.owned, target) == AmountOf(book.owned, target) + total * unit &&
      AmountOf(after.sseq, target) == AmountOf(book.sseq, target) + total * unit &&
      AmountOf(after.owned, target) < required.amount + unit &&
      (AmountOf(after.owned, target) < required.amount ==>
         forall id :: IsCurrency(assets, id) && id != target ==> AmountOf(after.owned, id) < Unit(assets, id))
  {
    hide Goal, Needed, Headroom, ConvertAll, Available, Unit, Drawn, Total;
    var target, goal := required.asset, Goal(assets, book, required);
    var drawn := Drawn(assets, target, book.owned, goal, order);
    NeedPositive(assets, book, required);
    ListingFacts(order, Positives(book.owned));
    GoalMeaning(assets, book, required);
    ConvertAllMeaning(assets, book, required, order);
    DrawnTotal(assets, target, book.owned, goal, order);
    DrawnFacts(assets, target, book.owned, goal, order);
    ProductLe(Total(drawn), goal, Unit(assets, target));
    var after := Activate(assets, book, required, order);
    if AmountOf(after.owned, target) < required.amount {
      assert Total(drawn) < goal;
      forall id | IsCurrency(assets, id) && id != target
        ensures AmountOf(after.owned, id) < Unit(assets, id)
      {
        LeftAfter(assets, book, after, target, goal, order, id);
      }
    }
  }

  /** What activation is for: afterwards the user has what is required, or no whole dollar of any other
      currency. */
  lemma ActivateCovers(assets: Assets, book: Book, required: Balance, order: seq<string>)
    requires Standard(assets) && IsCurrency(assets, required.asset) && Headroom(assets, book, required)
    requires required.amount > 0 && Lists(order, Positives(book.owned))
    ensures var target, after := required.asset, Activate(assets, book, required, order);
      AmountOf(after.owned, target) >= required.amount ||
      forall id :: IsCurrency(assets, id) && id != target ==> AmountOf(after.owned, id) < Unit(assets, id)
  {
    hide Unit, Available, Total;
    if AmountOf(book.owned, required.asset) < required.amount {
      hide Activate, Needed;
      NeedPositive(assets, book, required);
      ActivateConverts(assets, book, required, order);
    } else {
      ActivateUnchanged(assets, book, required, order);
    }
  }

  /** Nothing happens if nothing is required, the user has it already, or it is no currency. */
  lemma ActivateUnchanged(assets: Assets, book: Book, required: Balance, order: seq<string>)
    requires Standard(assets) && required.amount <= MAX_INT64 && Lists(order, Positives(book.owned))
    requires required.amount == 0 || AmountOf(book.owned, required.asset) >= required.amount ||
             !IsCurrency(assets, required.asset)
    ensures Activate(assets, book, required, order) == book
  {
    if IsCurrency(assets, required.asset) {
      NeededIff(assets, book, required);
    }
  }

  function CeilingOf(need: int, unit: int): int
    requires unit > 0
  {
    (need + unit - 1) / unit
  }

  /** How much: the missing whole dollars, rounded up, or all whole dollars of the other currencies if they are
      fewer; to the last unit, in the owned balance and in the record. */
  lemma ActivateExactly(assets: Assets, book: Book, required: Balance, order: seq<string>)
    requires Standard(assets) && IsCurrency(assets, required.asset) && Headroom(assets, book, required)
    requires 0 < required.amount && AmountOf(book.owned, required.asset) < required.amount
    requires Lists(order, Positives(book.owned))
    ensures var target, after := required.asset, Activate(assets, book, required, order);
      var missing := CeilingOf(required.amount - AmountOf(book.owned, target), Unit(assets, target));
      var total := Min(missing, AllAvailable(assets, book, target));
      AmountOf(after.owned, target) == AmountOf(book.owned, target) + total * Unit(assets, target) &&
      AmountOf(after.sseq, target) == AmountOf(book.sseq, target) + total * Unit(assets, target)
  {
    hide Activate, Unit, AllAvailable, Goal, Needed;
    NeedPositive(assets, book, required);
    GoalMeaning(assets, book, required);
    ActivateConverts(assets, book, required, order);
    CeilingMeaning(required.amount - AmountOf(book.owned, required.asset), Unit(assets, required.asset),
                   Goal(assets, book, required));
  }

  lemma CeilingMeaning(need: int, unit: int, goal: int)
    requires need > 0 && unit > 0 && need <= goal * unit < need + unit
    ensures goal == CeilingOf(need, unit)
  {
    FloorMeaning(need + unit - 1, unit, goal);
  }

  lemma LeftAfter(assets: Assets, book: Book, after: Book, target: string, goal: int, order: seq<string>, id: string)
    requires Standard(assets) && IsCurrency(assets, id) && id != target && goal >= 0
    requires Lists(order, Positives(book.owned)) && Distinct(order)
    requires DrawnBook(assets, book, after, target, Drawn(assets, target, book.owned, goal, order))
    requires Total(Drawn(assets, target, book.owned, goal, order)) < goal
    ensures AmountOf(after.owned, id) < Unit(assets, id)
  {
    hide Drawn, Total, Unit;
    var drawn := Drawn(assets, target, book.owned, goal, order);
    DrawnFacts(assets, target, book.owned, goal, order);
    if id in Positives(book.owned) {
      DrawnFully(assets, target, book.owned, goal, order, id);
      FloorMeaning(AmountOf(book.owned, id), Unit(assets, id), AmountOf(book.owned, id) / Unit(assets, id));
    }
  }

  lemma EqualWorth(assets: Assets, dollars: int, from: string, to: string)
    requires Standard(assets) && from in assets && to in assets
    ensures (dollars * Unit(assets, from)) * Weight(assets, from) == (dollars * Unit(assets, to)) * Weight(assets, to)
  {
    hide Unit, Weight;
    UnitWeight(assets, from);
    UnitWeight(assets, to);
    Grouping(dollars, Unit(assets, from), Weight(assets, from));
    Grouping(dollars, Unit(assets, to), Weight(assets, to));
  }

  lemma Grouping(a: int, b: int, c: int)
    ensures (a * b) * c == a * (b * c)
  {
  }

  /** One iteration keeps native balances, other assets and both totals. */
  lemma ConvertKeeps(assets: Assets, book: Book, required: Balance, p: Progress, drawn: map<string, int>, id: string)
    requires Ready(assets, book, required) && Target(assets, required)
    requires DrawnBook(assets, book, p.book, required.asset, drawn) && p.converted == Total(drawn)
    requires id in Positives(book.owned) && id !in drawn && 0 <= Total(drawn) <= Goal(assets, book, required)
    ensures Keeps(assets, p.book, Convert(assets, required, Goal(assets, book, required), p, id).book)
  {
    hide Goal, Needed, Headroom, ApplyDecimalsThenRound, Wrap, Keeps, Total;
    var goal, target := Goal(assets, book, required), required.asset;
    var left := goal - Total(drawn);
    var dollars := Min(Available(assets, target, book.owned, id), left);
    SameKeeps(assets, p.book, p.book);
    if left > 0 && IsCurrency(assets, id) && id != target {
      ApplyFloor(AmountOf(book.owned, id), assets[id].decimals);
      assert AmountOf(p.book.owned, id) == AmountOf(book.owned, id);
      assert Dollars(assets, p.book.owned, id, left) == dollars;
      if dollars > 0 {
        DrawFits(assets, book, required, p.book, drawn, id, dollars);
        ConvertDraws(assets, required, goal, p, id, dollars);
        EqualWorth(assets, dollars, id, target);
        MovedKeeps(assets, p.book, Convert(assets, required, goal, p, id).book, id, dollars * Unit(assets, id),
                   target, dollars * Unit(assets, target));
      }
    }
  }

  lemma {:induction false} ConvertAllKeeps(assets: Assets, book: Book, required: Balance, order: seq<string>)
    requires Ready(assets, book, required) && Target(assets, required)
    requires Distinct(order) && forall i :: 0 <= i < |order| ==> order[i] in Positives(book.owned)
    ensures Keeps(assets, book, ConvertAll(assets, required, Goal(assets, book, required), Progress(book, 0), order).book)
    decreases |order|
  {
    hide Goal, Needed, Headroom, Convert, Available, Positives, DrawnBook, Drawn, Total, Keeps;
    var goal := Goal(assets, book, required);
    GoalMeaning(assets, book, required);
    if order == [] {
      SameKeeps(assets, book, book);
    } else {
      var last := |order| - 1;
      var before := ConvertAll(assets, required, goal, Progress(book, 0), order[..last]);
      ConvertAllKeeps(assets, book, required, order[..last]);
      ConvertAllMeaning(assets, book, required, order[..last]);
      DrawnFacts(assets, required.asset, book.owned, goal, order[..last]);
      DrawnLast(assets, required.asset, book.owned, goal, order);
      ConvertKeeps(assets, book, required, before, Drawn(assets, required.asset, book.owned, goal, order[..last]), order[last]);
      KeepsTransitive(assets, book, before.book, Convert(assets, required, goal, before, order[last]).book);
    }
  }

  lemma NeededReady(assets: Assets, book: Book, required: Balance)
    requires Standard(assets) && Needed(assets, book, required) && Headroom(assets, book, required)
    ensures Ready(assets, book, required)
  {
    NeededIff(assets, book, required);
  }

  /** Activation as a whole keeps them. */
  lemma ActivateKeeps(assets: Assets, book: Book, required: Balance, order: seq<string>)
    requires Standard(assets) && Lists(order, Positives(book.owned))
    requires Needed(assets, book, required) ==> Headroom(assets, book, required)
    ensures Keeps(assets, book, Activate(assets, book, required, order))
  {
    hide Keeps, Headroom;
    if Needed(assets, book, required) {
      NeededReady(assets, book, required);
      ListingFacts(order, Positives(book.owned));
      ConvertAllKeeps(assets, book, required, order);
    } else {
      SameKeeps(assets, book, book);
    }
  }

  /** No owned amount ends lower than it was, except amounts that stay non-negative. */
  lemma ActivateOwned(assets: Assets, book: Book, required: Balance, order: seq<string>)
    requires Standard(assets) && Lists(order, Positives(book.owned))
    requires Needed(assets, book, required) ==> Headroom(assets, book, required)
    ensures forall id :: var after := Activate(assets, book, required, order);
      AmountOf(after.owned, id) >= AmountOf(book.owned, id) || AmountOf(after.owned, id) >= 0
  {
    hide Headroom, Goal, Drawn, Total, ConvertAll, Unit;
    if Needed(assets, book, required) {
      NeededReady(assets, book, required);
      var target, goal := required.asset, Goal(assets, book, required);
      var drawn := Drawn(assets, target, book.owned, goal, order);
      ListingFacts(order, Positives(book.owned));
      GoalMeaning(assets, book, required);
      ConvertAllMeaning(assets, book, required, order);
      DrawnFacts(assets, target, book.owned, goal, order);
      ProductLe(0, Total(drawn), Unit(assets, target));
      forall id | id in drawn
        ensures drawn[id] * Unit(assets, id) <= AmountOf(book.owned, id)
      {
        AvailableMeaning(assets, target, book.owned, id);
        ProductLe(drawn[id], Available(assets, target, book.owned, id), Unit(assets, id));
      }
    }
  }
}
