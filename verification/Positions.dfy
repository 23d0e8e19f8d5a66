/** The balances of a user (ledger/types/position.go). */
module Positions {
  import opened Machine
  import opened Text
  import opened AssetID
  import opened Accounts
  import opened Codec
  import opened Ledger

  class Position {
    var UserID: string
    var Owned: Balances?
    var Locked: Balances?
    var Supplied: Balances?
    var SSEQ: Balances?
    var Inactive: Balances?
    var InterestSources: Balances?
    var NativeAsset: string
    var LastUpdated: int64
    var Sequence: uint64
    var original: string
    var originalSequence: uint64

    /** No balances are nil, as Init guarantees. */
    ghost predicate Ready()
      reads this
    {
      Owned != null && Locked != null && Supplied != null && SSEQ != null && Inactive != null && InterestSources != null
    }

    ghost predicate Blank()
      reads this
    {
      Owned == null && Locked == null && Supplied == null && SSEQ == null && Inactive == null && InterestSources == null
    }

    ghost predicate Marshals()
      requires Ready()
      reads this, Owned, Locked, Supplied, SSEQ, Inactive, InterestSources
    {
      AllValid(Owned.Bals) && AllValid(Locked.Bals) && AllValid(Supplied.Bals) &&
      AllValid(SSEQ.Bals) && AllValid(Inactive.Bals) && AllValid(InterestSources.Bals)
    }

    /** Nothing but what is remembered of the original */
    ghost predicate Unset()
      reads this
    {
      Blank() && UserID == "" && NativeAsset == "" && LastUpdated == 0 && Sequence == 0
    }

    ghost predicate SameOriginal(p: Position)
      reads this, p
    {
      original == p.original && originalSequence == p.originalSequence
    }

    /** Everything p holds, without its zero entries */
    ghost predicate IsCopyOf(p: Position)
      requires p.Ready()
      reads this, Owned, Locked, Supplied, SSEQ, Inactive, InterestSources
      reads p, p.Owned, p.Locked, p.Supplied, p.SSEQ, p.Inactive, p.InterestSources
    {
      Ready() &&
      Owned.Bals == NonZero(p.Owned.Bals) && Locked.Bals == NonZero(p.Locked.Bals) &&
      Supplied.Bals == NonZero(p.Supplied.Bals) && SSEQ.Bals == NonZero(p.SSEQ.Bals) &&
      Inactive.Bals == NonZero(p.Inactive.Bals) && InterestSources.Bals == NonZero(p.InterestSources.Bals) &&
      UserID == p.UserID && NativeAsset == p.NativeAsset && LastUpdated == p.LastUpdated && Sequence == p.Sequence
    }

    constructor (userID: string, owned: Balances?, locked: Balances?, supplied: Balances?, sseq: Balances?,
        inactive: Balances?, sources: Balances?, nativeAsset: string, lastUpdated: int64, sequence: uint64,
        original: string, originalSequence: uint64)
      ensures UserID == userID && Owned == owned && Locked == locked && Supplied == supplied && SSEQ == sseq
      ensures Inactive == inactive && InterestSources == sources && NativeAsset == nativeAsset
      ensures LastUpdated == lastUpdated && Sequence == sequence
      ensures this.original == original && this.originalSequence == originalSequence
    {
      UserID, NativeAsset, LastUpdated, Sequence := userID, nativeAsset, lastUpdated, sequence;
      Owned, Locked, Supplied, SSEQ, Inactive, InterestSources := owned, locked, supplied, sseq, inactive, sources;
      this.original, this.originalSequence := original, originalSequence;
    }

    /** A copy by way of JSON: complete, or unset if any of the balances cannot be marshalled. The original
        that the position is compared with is copied in any case. */
    method Copy(gate: string -> bool) returns (position: Position)
      requires Ready() && AcceptsFlatObjects(gate)
      ensures fresh(position)
      ensures if Marshals() then position.IsCopyOf(this) else position.Unset()
      ensures position.SameOriginal(this)
    {
      hide Valid, AcceptsFlatObjects, Print, NonZero, AllValid;
      var owned, ok0 := Owned.MarshalJSON();
      var locked, ok1 := Locked.MarshalJSON();
      var supplied, ok2 := Supplied.MarshalJSON();
      var sseq, ok3 := SSEQ.MarshalJSON();
      var inactive, ok4 := Inactive.MarshalJSON();
      var sources, ok5 := InterestSources.MarshalJSON();
      if ok0 && ok1 && ok2 && ok3 && ok4 && ok5 {
        var owned' := Decoded(owned, gate, Owned.Bals);
        var locked' := Decoded(locked, gate, Locked.Bals);
        var supplied' := Decoded(supplied, gate, Supplied.Bals);
        var sseq' := Decoded(sseq, gate, SSEQ.Bals);
        var inactive' := Decoded(inactive, gate, Inactive.Bals);
        var sources' := Decoded(sources, gate, InterestSources.Bals);
        position := new Position(UserID, owned', locked', supplied', sseq', inactive', sources', NativeAsset,
          LastUpdated, Sequence, original, originalSequence);
      } else {
        position := new Position("", null, null, null, null, null, null, "", 0, 0, original, originalSequence);
      }
    }
  }

  /** New balances, filled from the text that b was printed as. */
  method Decoded(data: string, gate: string -> bool, ghost b: Bals) returns (result: Balances)
    requires AllValid(b) && AcceptsFlatObjects(gate) && data == Print(b)
    ensures fresh(result) && result.Bals == NonZero(b)
  {
    RoundTrip(b, gate);
    result := new Balances(map[]);
    var ok := result.UnmarshalJSON(data, gate);
  }

  lemma PairOfOne()
    ensures !Valid("A-A")
  {
    SplitFirst("A", "A", '-');
    SplitFree("A", '-');
    assert "A" + ['-'] + "A" == "A-A";
    assert "A"[0] == 'A' && COUPON_PREFIX[0] == 'C' && SNAPSHOT_PREFIX[0] == 'S';
  }

  /** A position that owns one unit of a pair of an asset with itself has no copy. */
  method InvalidIsNotCopied(gate: string -> bool) returns (position: Position, copy: Position)
    requires AcceptsFlatObjects(gate)
    ensures position.Ready() && position.Owned.Bals == map["A-A" := 1] && copy.Unset()
  {
    hide Valid, AcceptsFlatObjects;
    PairOfOne();
    var owned := new Balances(map["A-A" := 1]);
    var none := new Balances(map[]);
    position := new Position("", owned, none, none, none, none, none, "", 0, 0, "", 0);
    copy := position.Copy(gate);
  }
}
