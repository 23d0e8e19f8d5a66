/** The Balances object of ledger/types: a map that is only replaced by UnmarshalJSON; every other
    operation works on a copy. */
module Ledger {
  import opened Machine
  import opened Text
  import opened AssetID
  import opened Accounts
  import opened Codec

  class Balances {
    var Bals: Bals

    constructor (bals: Bals)
      ensures Bals == bals
    {
      Bals := bals;
    }

    method Copy() returns (result: Balances)
      ensures fresh(result) && result.Bals == Bals
    {
      result := new Balances(map[]);
      var remaining := Bals.Keys;
      while remaining != {}
        invariant remaining <= Bals.Keys && fresh(result)
        invariant result.Bals == map id | id in Bals && id !in remaining :: Bals[id]
      {
        var k :| k in remaining;
        result.Bals := result.Bals[k := Bals[k]];
        remaining := remaining - {k};
      }
    }

    method AddAmount(assetID: string, amount: int64) returns (result: Balances)
      ensures fresh(result) && result.Bals == AddTo(Bals, assetID, amount)
    {
      result := Copy();
      if assetID != "" {
        result.Bals := result.Bals[assetID := Wrap(AmountOf(result.Bals, assetID) + amount)];
      }
    }

    method SubAmount(assetID: string, amount: int64) returns (result: Balances)
      ensures fresh(result) && result.Bals == SubFrom(Bals, assetID, amount)
    {
      result := AddAmount(assetID, Negated(amount));
    }

    /** Refuses negative amounts and anything the balance does not cover. */
    method SafeSub(assetID: string, amount: int64) returns (result: Balances, ok: bool)
      ensures ok <==> amount >= 0 && HasAtLeast(Bals, assetID, amount)
      ensures ok <==> amount == 0 || 0 < amount <= AmountOf(Bals, assetID)
      ensures ok ==> fresh(result) && result.Bals == SubFrom(Bals, assetID, amount)
      ensures !ok ==> result == this
    {
      if amount < 0 || !HasAtLeast(Bals, assetID, amount) {
        return this, false;
      }
      result := SubAmount(assetID, amount);
      ok := true;
    }

    method Positive() returns (result: Balances)
      ensures fresh(result) && result.Bals == map id | id in Bals && Bals[id] > 0 :: Bals[id]
    {
      result := new Balances(map[]);
      var remaining := Bals.Keys;
      while remaining != {}
        invariant remaining <= Bals.Keys && fresh(result)
        invariant result.Bals == map id | id in Bals && id !in remaining && Bals[id] > 0 :: Bals[id]
      {
        var k :| k in remaining;
        if Bals[k] > 0 {
          result.Bals := result.Bals[k := Bals[k]];
        }
        remaining := remaining - {k};
      }
    }

    /** Only the negative balances, as positive amounts (except that MinInt64 stays itself). */
    method Negative() returns (result: Balances)
      ensures fresh(result) && result.Bals == map id | id in Bals && Bals[id] < 0 :: Negated(Bals[id])
    {
      result := new Balances(map[]);
      var remaining := Bals.Keys;
      while remaining != {}
        invariant remaining <= Bals.Keys && fresh(result)
        invariant result.Bals == map id | id in Bals && id !in remaining && Bals[id] < 0 :: Negated(Bals[id])
      {
        var k :| k in remaining;
        if Bals[k] < 0 {
          result.Bals := result.Bals[k := Negated(Bals[k])];
        }
        remaining := remaining - {k};
      }
    }

    method AssetIDs() returns (result: seq<string>)
      ensures Lists(result, NonZero(Bals).Keys)
    {
      result := [];
      var remaining := Bals.Keys;
      while remaining != {}
        invariant remaining <= Bals.Keys
        invariant Lists(result, set id | id in Bals && id !in remaining && Bals[id] != 0)
      {
        var k :| k in remaining;
        if Bals[k] != 0 {
          result := result + [k];
        }
        remaining := remaining - {k};
      }
      assert NonZero(Bals).Keys == set id | id in Bals && id !in remaining && Bals[id] != 0;
    }

    method PositiveAssets() returns (result: seq<string>)
      ensures Lists(result, Positives(Bals))
    {
      result := [];
      var remaining := Bals.Keys;
      while remaining != {}
        invariant remaining <= Bals.Keys
        invariant Lists(result, set id | id in Bals && id !in remaining && Bals[id] > 0)
      {
        var k :| k in remaining;
        if Bals[k] > 0 {
          result := result + [k];
        }
        remaining := remaining - {k};
      }
      assert Positives(Bals) == set id | id in Bals && id !in remaining && Bals[id] > 0;
    }

    method SelectPositive(assetID: string) returns (result: Balance)
      ensures result == Balance(assetID, if AmountOf(Bals, assetID) > 0 then AmountOf(Bals, assetID) else 0)
    {
      result := if assetID == "" then Balance("", 0) else NewBalance(assetID, 0);
      var amt := AmountOf(Bals, assetID);
      if amt > 0 {
        result := result.(amount := amt);
      }
    }

    /** Validate(allowNegative): every ID valid, and no negative amount unless allowed. */
    method Validate(allowNegative: bool) returns (ok: bool)
      ensures ok <==> AllValid(Bals) && (allowNegative || forall id :: id in Bals ==> Bals[id] >= 0)
    {
      var remaining := Bals.Keys;
      while remaining != {}
        invariant remaining <= Bals.Keys
        invariant forall id :: id in Bals && id !in remaining ==> Valid(id) && (allowNegative || Bals[id] >= 0)
      {
        var k :| k in remaining;
        if k == "" || !Valid(k) || (!allowNegative && Bals[k] < 0) {
          return false;
        }
        remaining := remaining - {k};
      }
      ok := true;
    }

    // -------------------------------------------------------------------------------------
    // JSON

    method MarshalJSON() returns (data: string, ok: bool)
      ensures ok <==> AllValid(Bals)
      ensures ok ==> data == Print(Bals)
      ensures ok ==> exists ids :: Lists(ids, NonZero(Bals).Keys) && Ascending(ids) && data == Render(ids, Bals)
      ensures !ok ==> data == ""
    {
      hide Valid, Less, Before, Member, Insert, Join, Sorted;
      ok := Validate(true);
      if !ok {
        return "", false;
      }
      var ids := AssetIDs();
      ids := SortIDs(ids);
      AlphabeticalIsSorted(ids, NonZero(Bals).Keys);
      var contents := "";
      JoinNone(Bals);
      for i := 0 to |ids|
        invariant contents == Join(Members(ids[..i], Bals), ',') + (if 0 < i < |ids| then "," else "")
      {
        JoinLast(ids[..i], ids[i], Bals);
        assert ids[..i] + [ids[i]] == ids[..i + 1];
        contents := contents + Member(ids[i], AmountOf(Bals, ids[i]));
        if i + 1 < |ids| {
          contents := contents + ",";
        }
      }
      assert ids[..|ids|] == ids;
      data := "{" + contents + "}";
    }

    /** Overwrites the balances, even on error: then the entries before the first bad line remain. */
    method UnmarshalJSON(data: string, gate: string -> bool) returns (ok: bool)
      modifies this
      ensures Parsed(Bals, ok) == Parse(data, gate)
    {
      Bals := map[];
      if !gate(data) {
        return false;
      }
      var s := Filter(data, Kept);
      if s != "" {
        var lines := Split(s, ',');
        for i := 0 to |lines|
          invariant AllValid(Bals)
          invariant ParseLines(lines, map[]) == ParseLines(lines[i..], Bals)
        {
          assert lines[i..][1..] == lines[i + 1..];
          var split := Split(lines[i], ':');
          if |split| != 2 || !Valid(split[0]) || split[0] in Bals {
            return false;
          }
          var amount := ParseInt(split[1]);
          if amount.None? {
            return false;
          }
          Bals := Bals[split[0] := amount.value];
        }
      }
      ok := Validate(true);
    }

    // -------------------------------------------------------------------------------------
    // Subtracting down to zero

    method SubBalToZero(sub: Balance) returns (result: Balances, surplus: Balance)
      requires sub.asset == "" ==> sub.amount == 0
      ensures fresh(result) && surplus.asset == sub.asset
      ensures SubtractedToZero(Bals, sub.asset, sub.Amt(), result.Bals)
      ensures surplus.Amt() == TakeToZero(AmountOf(Bals, sub.asset), sub.Amt()).1
    {
      hide Wrap, ToUint64;
      WrapFacts(AmountOf(Bals, sub.asset), sub.Amt());
      result := Copy();
      var have := AmountOf(Bals, sub.asset);
      if have <= 0 {
        return result, sub;
      }
      var naive := Wrap(have - sub.Amt());
      if naive < 0 {
        result := SubAmount(sub.asset, have);
        surplus := NewBalance(sub.asset, ToUint64(Negated(naive)));
      } else {
        result := SubAmount(sub.asset, sub.Amt());
        surplus := NewBalance(sub.asset, 0);
      }
    }

    /** In whatever order the entries are taken, each asset ends as TakeToZero says. */
    method SubToZero(subs: Balances) returns (result: Balances, surplus: Balances)
      ensures fresh(result) && fresh(surplus)
      ensures SubbedToZero(Bals, subs.Bals, result.Bals, surplus.Bals)
    {
      hide TakeToZero, NonZero, SubtractedToZero, Wrap, ToUint64;
      result := Copy();
      surplus := new Balances(map[]);
      var ids := subs.AssetIDs();
      TakenNone(Bals, subs.Bals);
      for i := 0 to |ids|
        invariant fresh(result) && fresh(surplus)
        invariant Taken(Bals, subs.Bals, ids[..i], result.Bals, surplus.Bals)
      {
        var id := ids[i];
        var was, had := result.Bals, surplus.Bals;
        var s;
        AsUnsigned(AmountOf(subs.Bals, id));
        result, s := result.SubBalToZero(NewBalance(id, ToUint64(AmountOf(subs.Bals, id))));
        surplus := surplus.AddAmount(s.asset, s.Amt());
        assert ids[..i + 1] == ids[..i] + [id] && id !in ids[..i];
        TakenNext(Bals, subs.Bals, ids[..i], id, was, had, result.Bals, surplus.Bals, s.Amt());
      }
      assert ids[..|ids|] == ids;
      TakenAll(Bals, subs.Bals, ids, result.Bals, surplus.Bals);
    }
  }

  /** after is before with the amount of one asset taken to zero; the empty ID is never touched. */
  ghost predicate SubtractedToZero(before: Bals, asset: string, amount: int64, after: Bals) {
    forall id :: AmountOf(after, id) ==
      (if id == asset && id != "" then TakeToZero(AmountOf(before, id), amount).0 else AmountOf(before, id))
  }

  /** left and surplus once the given assets of subs have been taken from b */
  ghost predicate Taken(b: Bals, subs: Bals, ids: seq<string>, left: Bals, surplus: Bals) {
    (forall id :: AmountOf(left, id) ==
      (if id in ids && id != "" then TakeToZero(AmountOf(b, id), AmountOf(subs, id)).0 else AmountOf(b, id))) &&
    (forall id :: AmountOf(surplus, id) ==
      (if id in ids && id != "" then TakeToZero(AmountOf(b, id), AmountOf(subs, id)).1 else 0))
  }

  lemma WrapFacts(have: int64, sub: int64)
    ensures Wrap(have + Negated(have)) == 0
    ensures Wrap(ToUint64(Negated(Wrap(have - sub)))) == Negated(Wrap(have - sub))
    ensures Wrap(have - sub) < 0 ==> ToUint64(Negated(Wrap(have - sub))) > 0
    ensures sub == 0 ==> Wrap(have - sub) == have && Wrap(have + Negated(sub)) == have
    ensures Wrap(0) == 0
  {
    AsUnsigned(Negated(Wrap(have - sub)));
    NegatedFacts(have);
    NegatedFacts(Wrap(have - sub));
    hide ToUint64;
  }

  lemma NegatedFacts(x: int64)
    ensures Wrap(x + Negated(x)) == 0
    ensures x != 0 ==> Negated(x) != 0
  {
  }

  lemma AsUnsigned(x: int64)
    ensures Wrap(ToUint64(x)) == x && (x != 0 ==> ToUint64(x) > 0)
    ensures NewBalance("", ToUint64(x)).Amt() == 0
  {
  }

  lemma TakenNone(b: Bals, subs: Bals)
    ensures Taken(b, subs, [], b, map[])
  {
  }

  lemma TakenNext(b: Bals, subs: Bals, ids: seq<string>, id: string, left: Bals, surplus: Bals,
                  left': Bals, surplus': Bals, extra: int64)
    requires Taken(b, subs, ids, left, surplus) && id !in ids
    requires SubtractedToZero(left, id, if id == "" then 0 else AmountOf(subs, id), left')
    requires surplus' == AddTo(surplus, id, extra)
    requires id != "" ==> extra == TakeToZero(AmountOf(b, id), AmountOf(subs, id)).1
    ensures Taken(b, subs, ids + [id], left', surplus')
  {
    hide TakeToZero;
    forall x
      ensures AmountOf(left', x) ==
        (if x in ids + [id] && x != "" then TakeToZero(AmountOf(b, x), AmountOf(subs, x)).0 else AmountOf(b, x))
      ensures AmountOf(surplus', x) ==
        (if x in ids + [id] && x != "" then TakeToZero(AmountOf(b, x), AmountOf(subs, x)).1 else 0)
    {
    }
  }

  lemma TakenAll(b: Bals, subs: Bals, ids: seq<string>, left: Bals, surplus: Bals)
    requires Taken(b, subs, ids, left, surplus) && Lists(ids, NonZero(subs).Keys)
    ensures forall id :: id != "" ==>
      AmountOf(left, id) == TakeToZero(AmountOf(b, id), AmountOf(subs, id)).0 &&
      AmountOf(surplus, id) == TakeToZero(AmountOf(b, id), AmountOf(subs, id)).1
    ensures AmountOf(left, "") == AmountOf(b, "") && AmountOf(surplus, "") == 0
  {
    forall id | id != ""
      ensures AmountOf(left, id) == TakeToZero(AmountOf(b, id), AmountOf(subs, id)).0
      ensures AmountOf(surplus, id) == TakeToZero(AmountOf(b, id), AmountOf(subs, id)).1
    {
      if id !in ids {
        assert AmountOf(subs, id) == 0;
      }
    }
  }

  /** sort.Slice by ID: insertion into a sorted prefix. */
  method SortIDs(ids: seq<string>) returns (sorted: seq<string>)
    requires forall i, j :: 0 <= i < j < |ids| ==> ids[i] != ids[j]
    ensures StrictlySorted(sorted) && Ascending(sorted)
    ensures forall id :: id in sorted <==> id in ids
  {
    hide Before, Less;
    sorted := [];
    for i := 0 to |ids|
      invariant StrictlySorted(sorted)
      invariant forall id :: id in sorted <==> id in ids[..i]
    {
      assert ids[..i + 1] == ids[..i] + [ids[i]];
      InsertSorted(ids[i], sorted);
      sorted := Insert(ids[i], sorted);
    }
    assert ids[..|ids|] == ids;
    SortedAscends(sorted);
  }

  lemma AlphabeticalIsSorted(ids: seq<string>, s: set<string>)
    requires StrictlySorted(ids) && forall id :: id in ids <==> id in s
    ensures ids == Sorted(s) && Lists(ids, s)
  {
    SortedLists(s);
    ListsMembers(ids, s);
    SortedUnique(ids, Sorted(s));
  }

  lemma JoinNone(b: Bals)
    ensures Join(Members([], b), ',') == ""
  {
  }

  lemma {:induction false} JoinLast(ids: seq<string>, id: string, b: Bals)
    ensures Join(Members(ids + [id], b), ',') ==
      Join(Members(ids, b), ',') + (if ids == [] then "" else ",") + Member(id, AmountOf(b, id))
  {
    var last := Member(id, AmountOf(b, id));
    assert Members(ids + [id], b) == Members(ids, b) + [last];
    JoinAppend(Members(ids, b), last);
  }

  lemma {:induction false} JoinAppend(parts: seq<string>, last: string)
    ensures Join(parts + [last], ',') == Join(parts, ',') + (if parts == [] then "" else ",") + last
  {
    if parts != [] {
      assert (parts + [last])[1..] == parts[1..] + [last];
      JoinAppend(parts[1..], last);
    }
  }
}
