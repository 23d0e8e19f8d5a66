/** What activation and cleanup keep even where int64 arithmetic wraps: for every registry, every amount and
    every run in which no division panics. */
module OverflowProofs {
  import opened Machine
  import opened Accounts
  import opened Stablecoin
  import opened ConversionProofs

  lemma CongruentSum(x: int, y: int, x': int, y': int)
    requires Congruent(x, y) && Congruent(x', y')
    ensures Congruent(x - x', y - y') && Congruent(x + x', y + y')
  {
    var k :| x == y + TWO_64 * k;
    var l :| x' == y' + TWO_64 * l;
    assert x - x' == y - y' + TWO_64 * (k - l) && x + x' == y + y' + TWO_64 * (k + l);
  }

  lemma CongruentSelf(x: int)
    ensures Congruent(x, x)
  {
    assert x == x + TWO_64 * 0;
  }

  lemma CongruentTransitive(x: int, y: int, z: int)
    requires Congruent(x, y) && Congruent(y, z)
    ensures Congruent(x, z)
  {
    var k :| x == y + TWO_64 * k;
    var l :| y == z + TWO_64 * l;
    assert x == z + TWO_64 * (k + l);
  }

  function Native(book: Book, id: string): int {
    AmountOf(book.owned, id) - AmountOf(book.sseq, id)
  }

  /** Every asset's balance without equivalence is the same, as far as the machine can tell. */
  ghost predicate SameNative(a: Book, b: Book) {
    forall id :: Congruent(Native(b, id), Native(a, id))
  }

  /** No owned amount falls, unless it stays at zero or more; `except` may also rise. */
  ghost predicate NotOverdrawn(a: Book, b: Book, except: string) {
    forall id :: id != except ==>
      AmountOf(b.owned, id) == AmountOf(a.owned, id) || 0 <= AmountOf(b.owned, id) <= AmountOf(a.owned, id)
  }

  ghost predicate Safe(a: Book, b: Book, except: string) {
    SameNative(a, b) && NotOverdrawn(a, b, except)
  }

  lemma SafeSelf(a: Book, except: string)
    ensures Safe(a, a, except)
  {
    hide Congruent;
    forall id
      ensures Congruent(Native(a, id), Native(a, id))
    {
      CongruentSelf(Native(a, id));
    }
  }

  lemma NativeTransitive(a: Book, b: Book, c: Book)
    requires SameNative(a, b) && SameNative(b, c)
    ensures SameNative(a, c)
  {
    hide Congruent, Native;
    forall id
      ensures Congruent(Native(c, id), Native(a, id))
    {
      CongruentTransitive(Native(c, id), Native(b, id), Native(a, id));
    }
  }

  lemma SafeTransitive(a: Book, b: Book, c: Book, except: string)
    requires Safe(a, b, except) && Safe(b, c, except)
    ensures Safe(a, c, except)
  {
    hide SameNative;
    NativeTransitive(a, b, c);
  }

  /** Adding the same amount to both sides changes nothing about their difference. */
  lemma AddNative(book: Book, id: string, amount: int64)
    ensures SameNative(book, Book(AddTo(book.owned, id, amount), AddTo(book.sseq, id, amount)))
  {
    hide Congruent, Wrap;
    var after := Book(AddTo(book.owned, id, amount), AddTo(book.sseq, id, amount));
    forall x
      ensures Congruent(Native(after, x), Native(book, x))
    {
      if x == id != "" {
        var owned, sseq := AmountOf(book.owned, id) + amount, AmountOf(book.sseq, id) + amount;
        WrapCongruent(owned);
        WrapCongruent(sseq);
        CongruentSum(Wrap(owned), owned, Wrap(sseq), sseq);
      } else {
        CongruentSelf(Native(book, x));
      }
    }
  }

  /** A movement that the owned balance covers is safe. */
  lemma MoveSafe(book: Book, loss: Balance, gain: Balance)
    requires loss.Amt() >= 0 && HasAtLeast(book.owned, loss.asset, loss.Amt())
    ensures Safe(book, Move(book, loss, gain), gain.asset)
  {
    hide SameNative;
    var taken := Book(SubFrom(book.owned, loss.asset, loss.Amt()), SubFrom(book.sseq, loss.asset, loss.Amt()));
    AddNative(book, loss.asset, Negated(loss.Amt()));
    AddNative(taken, gain.asset, gain.Amt());
    NativeTransitive(book, taken, Move(book, loss, gain));
  }

  lemma ConvertSafe(assets: Assets, required: Balance, goal: int64, p: Progress, id: string)
    requires Target(assets, required) && (p.converted < goal ==> Divides(assets, id))
    ensures Safe(p.book, Convert(assets, required, goal, p, id).book, required.asset)
  {
    hide Safe, Move, Dollars, Exp10, Wrap, HasAtLeast;
    SafeSelf(p.book, required.asset);
    if p.converted < goal && IsCurrency(assets, id) && id != required.asset {
      var dollars := Dollars(assets, p.book.owned, id, Wrap(goal - p.converted));
      var gain := NewBalance(required.asset, Wrap(dollars * Exp10(assets[required.asset].decimals)));
      var loss := NewBalance(id, Wrap(dollars * Exp10(assets[id].decimals)));
      if dollars > 0 && loss.Amt() >= 0 && HasAtLeast(p.book.owned, loss.asset, loss.Amt()) {
        MoveSafe(p.book, loss, gain);
      }
    }
  }

  lemma {:induction false} ConvertAllSafe(assets: Assets, required: Balance, goal: int64, p: Progress, order: seq<string>)
    requires Target(assets, required) && (p.converted < goal ==> AllDivide(assets, order))
    ensures Safe(p.book, ConvertAll(assets, required, goal, p, order).book, required.asset)
    decreases |order|
  {
    hide Safe, Convert;
    if order == [] {
      SafeSelf(p.book, required.asset);
    } else {
      var last := |order| - 1;
      var before := ConvertAll(assets, required, goal, p, order[..last]);
      ConvertAllSafe(assets, required, goal, p, order[..last]);
      ConvertSafe(assets, required, goal, before, order[last]);
      SafeTransitive(p.book, before.book, Convert(assets, required, goal, before, order[last]).book, required.asset);
    }
  }

  /** Activation, whatever the exponents, amounts and order */
  lemma ActivateSafe(assets: Assets, book: Book, required: Balance, order: seq<string>)
    requires Activatable(assets, book, required) && Lists(order, Positives(book.owned))
    ensures Safe(book, Activate(assets, book, required, order), required.asset)
  {
    hide Safe, ConvertAll, Goal, Needed;
    SafeSelf(book, required.asset);
    if Needed(assets, book, required) {
      TargetOf(assets, book, required);
      ConvertAllSafe(assets, required, Goal(assets, book, required), Progress(book, 0), order);
    }
  }

  lemma TargetOf(assets: Assets, book: Book, required: Balance)
    requires Activatable(assets, book, required) && Needed(assets, book, required)
    ensures Target(assets, required)
  {
  }

  /** Cleanup, whatever the exponents, amounts and the assets it picks */
  lemma CleanupSafe(assets: Assets, book: Book, neg: string, pos: string)
    requires Comparable(assets, neg, pos)
    ensures Safe(book, Cleanup(assets, book, neg, pos), neg)
  {
    hide Safe, ApplyDecimalsThenRound, Exp10, Wrap, HasAtLeast, AddTo, Negated;
    SafeSelf(book, neg);
    var after := Cleanup(assets, book, neg, pos);
    if after != book {
      var loss, gain := CleanupMoves(assets, book, neg, pos);
      MovePlain(book, neg, pos, loss, gain);
    }
  }

  lemma CleanupMoves(assets: Assets, book: Book, neg: string, pos: string) returns (loss: int64, gain: int64)
    requires Comparable(assets, neg, pos) && Cleanup(assets, book, neg, pos) != book
    ensures loss >= 0 && HasAtLeast(book.owned, pos, loss)
    ensures Cleanup(assets, book, neg, pos) ==
      Book(AddTo(SubFrom(book.owned, pos, loss), neg, gain), AddTo(SubFrom(book.sseq, pos, loss), neg, gain))
  {
    hide ApplyDecimalsThenRound, Exp10, Wrap, HasAtLeast, AddTo, Negated, Least;
    var minimum := if assets[pos].decimals < assets[neg].decimals then assets[pos].decimals else assets[neg].decimals;
    var lost := Negated(AmountOf(book.sseq, neg));
    var amount := Least(
      ApplyDecimalsThenRound(AmountOf(book.owned, pos), assets[pos].decimals - minimum, false),
      ApplyDecimalsThenRound(AmountOf(book.sseq, pos), assets[pos].decimals - minimum, false),
      ApplyDecimalsThenRound(if lost > 0 then lost else 0, assets[neg].decimals - minimum, false));
    loss := Wrap(amount * Exp10(assets[pos].decimals - minimum));
    gain := Wrap(amount * Exp10(assets[neg].decimals - minimum));
  }

  lemma MovePlain(book: Book, neg: string, pos: string, loss: int64, gain: int64)
    requires loss >= 0 && HasAtLeast(book.owned, pos, loss)
    ensures Safe(book,
      Book(AddTo(SubFrom(book.owned, pos, loss), neg, gain), AddTo(SubFrom(book.sseq, pos, loss), neg, gain)), neg)
  {
    hide SameNative;
    var taken := Book(SubFrom(book.owned, pos, loss), SubFrom(book.sseq, pos, loss));
    AddNative(book, pos, Negated(loss));
    AddNative(taken, neg, gain);
    NativeTransitive(book, taken, Book(AddTo(taken.owned, neg, gain), AddTo(taken.sseq, neg, gain)));
  }

  /** One call of either operation that does not panic, with any request, order or pick */
  ghost predicate AnyStep(assets: Assets, a: Book, b: Book) {
    (exists required, order :: Activates(assets, a, b, required, order)) || (exists neg, pos :: Cleans(assets, a, b, neg, pos))
  }

  ghost predicate Activates(assets: Assets, a: Book, b: Book, required: Balance, order: seq<string>) {
    Activatable(assets, a, required) && Lists(order, Positives(a.owned)) && b == Activate(assets, a, required, order)
  }

  ghost predicate Cleans(assets: Assets, a: Book, b: Book, neg: string, pos: string) {
    Comparable(assets, neg, pos) && b == Cleanup(assets, a, neg, pos)
  }

  /** Over every run, balances without equivalence are constant modulo 2^64. */
  lemma {:induction false} RunSameNative(assets: Assets, trace: seq<Book>, i: nat)
    requires i < |trace| && forall k :: 0 <= k < |trace| - 1 ==> AnyStep(assets, trace[k], trace[k + 1])
    ensures SameNative(trace[0], trace[i])
  {
    hide AnyStep, SameNative;
    if i == 0 {
      SafeSelf(trace[0], "");
    } else {
      RunSameNative(assets, trace, i - 1);
      assert AnyStep(assets, trace[i - 1], trace[i]);
      StepSameNative(assets, trace[i - 1], trace[i]);
      NativeTransitive(trace[0], trace[i - 1], trace[i]);
    }
  }

  lemma StepSameNative(assets: Assets, a: Book, b: Book)
    requires AnyStep(assets, a, b)
    ensures SameNative(a, b)
  {
    hide SameNative, Activate, Cleanup, Activatable;
    if exists required, order :: Activates(assets, a, b, required, order) {
      var required, order :| Activates(assets, a, b, required, order);
      ActivateSafe(assets, a, required, order);
    } else {
      var neg, pos :| Cleans(assets, a, b, neg, pos);
      CleanupSafe(assets, a, neg, pos);
    }
  }
}
