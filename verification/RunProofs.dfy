/** Every run of activations and cleanups. */
module RunProofs {
  import opened Machine
  import opened Accounts
  import opened Positions
  import opened Stablecoin
  import opened ConversionProofs
  import opened ActivateProofs
  import opened CleanupProofs
  import Totals

  /** No asset is owed beyond `debt`, with or without equivalence, and balances without equivalence fit
      int64. */
  ghost predicate Bounded(book: Book, debt: nat) {
    forall id :: AmountOf(book.owned, id) + debt >= 0 &&
      0 <= AmountOf(book.owned, id) - AmountOf(book.sseq, id) + debt <= MAX_INT64 + debt
  }

  /** A requirement that leaves room for the debt and for one whole unit of its asset */
  predicate Affordable(assets: Assets, required: Balance, debt: nat) {
    required.asset in assets ==> required.amount + Unit(assets, required.asset) + debt <= MAX_INT64
  }

  ghost predicate ActivateStep(assets: Assets, debt: nat, a: Book, b: Book)
    requires Standard(assets)
  {
    exists required, order :: Activated(assets, debt, a, b, required, order)
  }

  ghost predicate Activated(assets: Assets, debt: nat, a: Book, b: Book, required: Balance, order: seq<string>)
    requires Standard(assets)
  {
    Affordable(assets, required, debt) && Lists(order, Positives(a.owned)) &&
    SameBook(b, Activate(assets, a, required, order))
  }

  lemma BoundedHeadroom(assets: Assets, book: Book, debt: nat, required: Balance)
    requires Standard(assets) && Bounded(book, debt) && Affordable(assets, required, debt) && required.asset in assets
    ensures Headroom(assets, book, required)
  {
    hide Unit;
    assert AmountOf(book.owned, required.asset) - AmountOf(book.sseq, required.asset) + debt >= 0;
  }

  lemma BoundedNative(book: Book, debt: nat)
    requires Bounded(book, debt) && debt <= MAX_INT64
    ensures NativeFits(book)
  {
  }

  lemma BoundedFollows(assets: Assets, a: Book, b: Book, debt: nat)
    requires Standard(assets) && Bounded(a, debt) && Keeps(assets, a, b)
    requires forall id :: AmountOf(b.owned, id) >= AmountOf(a.owned, id) || AmountOf(b.owned, id) >= 0
    ensures Bounded(b, debt)
  {
    hide Worth;
    forall id
      ensures AmountOf(b.owned, id) + debt >= 0 &&
        0 <= AmountOf(b.owned, id) - AmountOf(b.sseq, id) + debt <= MAX_INT64 + debt
    {
      assert AmountOf(a.owned, id) + debt >= 0;
    }
  }

  lemma ActivateStepKeeps(assets: Assets, debt: nat, a: Book, b: Book)
    requires Standard(assets) && Bounded(a, debt) && ActivateStep(assets, debt, a, b)
    ensures Keeps(assets, a, b) && Bounded(b, debt)
  {
    hide Activate, Keeps, Bounded, Headroom, Unit;
    var required, order :| Activated(assets, debt, a, b, required, order);
    if Needed(assets, a, required) {
      BoundedHeadroom(assets, a, debt, required);
    }
    var after := Activate(assets, a, required, order);
    ActivateKeeps(assets, a, required, order);
    ActivateOwned(assets, a, required, order);
    SameKeeps(assets, after, b);
    KeepsTransitive(assets, a, after, b);
    BoundedFollows(assets, a, b, debt);
  }

  lemma CleanupStepKeeps(assets: Assets, debt: nat, a: Book, b: Book)
    requires Standard(assets) && debt <= MAX_INT64 && Bounded(a, debt) && CleanupStep(assets, a, b)
    ensures Keeps(assets, a, b) && Bounded(b, debt)
  {
    hide CleanupStep, Keeps, Bounded;
    BoundedNative(a, debt);
    StepKeeps(assets, a, b);
    forall id
      ensures AmountOf(b.owned, id) >= AmountOf(a.owned, id) || AmountOf(b.owned, id) >= 0
    {
      StepOwned(assets, a, b, id);
    }
    BoundedFollows(assets, a, b, debt);
  }

  ghost predicate Run(assets: Assets, debt: nat, trace: seq<Book>)
    requires Standard(assets)
  {
    trace != [] && forall i :: 0 <= i < |trace| - 1 ==>
      ActivateStep(assets, debt, trace[i], trace[i + 1]) || CleanupStep(assets, trace[i], trace[i + 1])
  }

  /** However activations and cleanups follow each other, each asset's balance without equivalence is
      constant, other assets are untouched, and both totals over all currencies are preserved. */
  lemma {:induction false} RunKeeps(assets: Assets, debt: nat, trace: seq<Book>, i: nat)
    requires Standard(assets) && debt <= MAX_INT64 && Run(assets, debt, trace) && i < |trace|
    requires Bounded(trace[0], debt)
    ensures Keeps(assets, trace[0], trace[i]) && Bounded(trace[i], debt)
  {
    hide CleanupStep, ActivateStep, Keeps, Bounded;
    if i == 0 {
      SameKeeps(assets, trace[0], trace[0]);
    } else {
      RunKeeps(assets, debt, trace, i - 1);
      assert ActivateStep(assets, debt, trace[i - 1], trace[i]) || CleanupStep(assets, trace[i - 1], trace[i]);
      if CleanupStep(assets, trace[i - 1], trace[i]) {
        CleanupStepKeeps(assets, debt, trace[i - 1], trace[i]);
      } else {
        ActivateStepKeeps(assets, debt, trace[i - 1], trace[i]);
      }
      KeepsTransitive(assets, trace[0], trace[i - 1], trace[i]);
    }
  }

  /** Gains and losses on record always cancel out, as the documentation of SSEQ says, if nothing was
      recorded at the start. */
  lemma RunBalanced(assets: Assets, debt: nat, trace: seq<Book>, i: nat)
    requires Standard(assets) && debt <= MAX_INT64 && Run(assets, debt, trace) && i < |trace|
    requires Bounded(trace[0], debt) && forall id :: AmountOf(trace[0].sseq, id) == 0
    ensures Worth(assets, trace[i].sseq) == 0
    ensures forall id :: AmountOf(trace[i].owned, id) == AmountOf(trace[0].owned, id) + AmountOf(trace[i].sseq, id)
  {
    hide Worth, Bounded, ActivateStep, CleanupStep;
    RunKeeps(assets, debt, trace, i);
    WorthNothing(assets, trace[0].sseq);
  }

  lemma WorthNothing(assets: Assets, b: Bals)
    requires Standard(assets) && forall id :: AmountOf(b, id) == 0
    ensures Worth(assets, b) == 0
  {
    WorthSame(assets, b, map[]);
    Totals.TotalOfZeros(Values(assets, map[]));
  }

  /** The position that an operation returns carries the amounts of the position it changed. */
  lemma CopyIsSame(position: Position, copy: Position)
    requires position.Ready() && copy.IsCopyOf(position)
    ensures SameBook(BookOf(copy), BookOf(position))
  {
    SameAmountsNonZero(position.Owned.Bals, copy.Owned.Bals);
    SameAmountsNonZero(position.SSEQ.Bals, copy.SSEQ.Bals);
  }
}
