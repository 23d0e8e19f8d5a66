/** The asset IDs of ledger/types/assetID.go. */
module AssetID {
  import opened Text

  const COUPON_PREFIX: string := "Coupon_"
  const SNAPSHOT_PREFIX: string := "Snapshot_"

  predicate IsWordChar(c: char) {
    'A' <= c <= 'Z' || 'a' <= c <= 'z' || '0' <= c <= '9' || c == '_'
  }

  predicate IsIdChar(c: char) {
    IsWordChar(c) || c == '-'
  }

  predicate Reserved(s: string) {
    HasPrefix(s, COUPON_PREFIX) || HasPrefix(s, SNAPSHOT_PREFIX)
  }

  /** The checks after the hyphen of an ID that has one. */
  predicate ValidPair(first: string, second: string) {
    if HasPrefix(second, COUPON_PREFIX) then ParseInt(second[|COUPON_PREFIX|..]).Some?
    else if HasPrefix(second, SNAPSHOT_PREFIX) then ParseInt(second[|SNAPSHOT_PREFIX|..]).Some?
    else first != second
  }

  /** ValidAssetID, check by check. */
  predicate Valid(id: string) {
    if Reserved(id) then false
    else if id == "" || id != Filter(id, IsIdChar) || HasPrefix(id, "-") || HasSuffix(id, "-") || Count(id, '-') > 1 then false
    else
      var split := Split(id, '-');
      |split| == 2 ==> ValidPair(split[0], split[1])
  }

  // ---------------------------------------------------------------------------------------

  predicate Documented(c: char) {
    'a' <= c <= 'z' || 'A' <= c <= 'Z' || '0' <= c <= '9' || c == '_'
  }

  /** A word: one or more letters, digits and underscores. */
  predicate Word(s: string) {
    s != "" && forall i :: 0 <= i < |s| ==> Documented(s[i])
  }

  /** A period or date: digits that denote an int64. */
  predicate Period(s: string) {
    s != "" && (forall i :: 0 <= i < |s| ==> '0' <= s[i] <= '9') && NatOf(s) <= 0x7fff_ffff_ffff_ffff
  }

  /** What may follow the hyphen after first: a coupon period, a snapshot, or another asset. */
  ghost predicate Follows(first: string, second: string) {
    Word(second) &&
    if "Coupon_" <= second then Period(second[7..])
    else if "Snapshot_" <= second then Period(second[9..])
    else second != first
  }

  ghost predicate Paired(id: string, first: string, second: string) {
    id == first + "-" + second && Word(first) && Follows(first, second)
  }

  /** The documented grammar: a word, or two words around one hyphen; coupons and snapshots never come first. */
  ghost predicate Grammar(id: string) {
    !("Coupon_" <= id) && !("Snapshot_" <= id) && (Word(id) || exists first, second :: Paired(id, first, second))
  }

  /** The checks accept exactly the grammar. */
  lemma ValidIffGrammar(id: string)
    ensures Valid(id) <==> Grammar(id)
  {
    hide Valid;
    if Valid(id) {
      ValidIsGrammar(id);
    }
    if Grammar(id) {
      if Word(id) {
        WordIsValid(id);
      } else {
        var first, second :| Paired(id, first, second);
        PairIsValid(first, second);
      }
    }
  }

  lemma WordCharacters(s: string)
    ensures Word(s) <==> s != "" && forall i :: 0 <= i < |s| ==> IsWordChar(s[i])
  {
  }

  lemma {:induction false} NoHyphen(s: string)
    requires Word(s)
    ensures Free(s, '-') && Split(s, '-') == [s] && Count(s, '-') == 0
  {
    SplitFree(s, '-');
    JoinSplit(s, '-');
  }

  lemma WordIsValid(id: string)
    requires Word(id) && !("Coupon_" <= id) && !("Snapshot_" <= id)
    ensures Valid(id)
  {
    hide Split, Filter, Count;
    NoHyphen(id);
    FilterAll(id, IsIdChar);
    assert Documented(id[0]) && Documented(id[|id| - 1]);
    assert id[|id| - 1..] == [id[|id| - 1]];
  }

  /** The text of a period is what ParseInt accepts, among words. */
  lemma PeriodParses(s: string)
    requires forall i :: 0 <= i < |s| ==> Documented(s[i])
    ensures ParseInt(s).Some? <==> Period(s)
  {
  }

  /** Two words, the first of which does not start like a coupon or snapshot, are accepted exactly if the second
      may follow the first. */
  lemma PairIsValid(first: string, second: string)
    requires Word(first) && Word(second) && !("Coupon_" <= first + "-" + second) && !("Snapshot_" <= first + "-" + second)
    ensures Valid(first + "-" + second) <==> Follows(first, second)
  {
    hide Filter, Count, Split, ParseInt, Period;
    var id := first + "-" + second;
    NoHyphen(first);
    NoHyphen(second);
    SplitFirst(first, second, '-');
    assert id == first + ['-'] + second;
    JoinSplit(id, '-');
    FilterAll(id, IsIdChar);
    assert id[0] == first[0] && id[|id| - 1] == second[|second| - 1];
    assert id[|id| - 1..] == [id[|id| - 1]];
    if "Coupon_" <= second {
      PeriodParses(second[7..]);
    } else if "Snapshot_" <= second {
      PeriodParses(second[9..]);
    }
  }

  lemma ValidIsGrammar(id: string)
    requires Valid(id)
    ensures Grammar(id)
  {
    hide ParseInt, Period, Follows, ValidPair, Split, Filter, Count;
    FilterAll(id, IsIdChar);
    JoinSplit(id, '-');
    var split := Split(id, '-');
    if |split| == 1 {
      assert split[0] == id;
      assert forall i :: 0 <= i < |id| ==> id[i] in id;
    } else {
      assert split[1..] == [split[1]];
      var first, second := split[0], split[1];
      assert id == first + "-" + second;
      assert first == "" ==> HasPrefix(id, "-");
      assert second == "" ==> HasSuffix(id, "-");
      forall i | 0 <= i < |first|
        ensures Documented(first[i])
      {
        assert first[i] == id[i] && first[i] in first;
      }
      forall i | 0 <= i < |second|
        ensures Documented(second[i])
      {
        assert second[i] == id[|first| + 1 + i] && second[i] in second;
      }
      PairIsValid(first, second);
      assert Paired(id, first, second);
    }
  }

  lemma FirstAndLast(id: string, c: char)
    requires id != "" && (id[0] == '-' || id[|id| - 1] == '-' || (c in id && !IsIdChar(c)))
    ensures !Valid(id)
  {
    hide Split, Filter, Count;
    FilterAll(id, IsIdChar);
    assert id[|id| - 1..] == [id[|id| - 1]];
  }

  lemma Hyphens(a: string, b: string, c: string)
    requires Word(a) && Word(b)
    ensures !Valid(a + "-" + (b + "-" + c))
  {
    hide Split, Filter, Count, ValidPair, Reserved;
    var id := a + "-" + (b + "-" + c);
    NoHyphen(a);
    NoHyphen(b);
    SplitFirst(a, b + "-" + c, '-');
    SplitFirst(b, c, '-');
    assert id == a + ['-'] + (b + "-" + c) && b + "-" + c == b + ['-'] + c;
    assert |Split(c, '-')| >= 1;
    JoinSplit(id, '-');
  }

  lemma Period123()
    ensures Period("123")
  {
    assert "123"[..2] == "12" && "12"[..1] == "1" && "1"[..0] == "";
  }

  lemma TestedPairs()
    ensures Valid("Bond_A-USD") && Valid("Bond_A-Coupon_123") && Valid("Bond_A-Snapshot_123") && !Valid("A-A")
  {
    hide Valid, NatOf;
    hide Period;
    var bond, coupon, snapshot := "Bond_A", "Coupon_123", "Snapshot_123";
    assert coupon[7..] == "123" && snapshot[9..] == "123";
    assert bond + "-" + "USD" == "Bond_A-USD" && bond + "-" + coupon == "Bond_A-Coupon_123";
    assert bond + "-" + snapshot == "Bond_A-Snapshot_123" && "A" + "-" + "A" == "A-A";
    Period123();
    OtherInitial(bond, "USD");
    OtherInitial(bond, coupon);
    OtherInitial(bond, snapshot);
    OtherInitial("A", "A");
    assert "USD"[0] == 'U' && coupon[0] == 'C' && snapshot[0] == 'S' && "Coupon_"[0] == 'C' && "Snapshot_"[0] == 'S';
  }

  /** First words that do not start with the letters of the two prefixes */
  lemma OtherInitial(first: string, second: string)
    requires Word(first) && Word(second) && first[0] != 'C' && first[0] != 'S'
    ensures Valid(first + "-" + second) <==> Follows(first, second)
  {
    hide Valid, Follows;
    assert "Coupon_"[0] == 'C' && "Snapshot_"[0] == 'S' && (first + "-" + second)[0] == first[0];
    PairIsValid(first, second);
  }

  lemma TestedRefusals()
    ensures !Valid("") && !Valid("A&B Co.") && !Valid("-abc") && !Valid("abc-") && !Valid("Bond_A-USD-Bond_B")
  {
    hide Split, Filter, Count, ValidPair;
    assert "A&B Co."[1] == '&' && "-abc"[0] == '-' && "abc-"[3] == '-';
    FirstAndLast("A&B Co.", '&');
    FirstAndLast("-abc", '-');
    FirstAndLast("abc-", '-');
    Hyphens("Bond_A", "USD", "Bond_B");
    assert "Bond_A" + "-" + ("USD" + "-" + "Bond_B") == "Bond_A-USD-Bond_B";
  }

  lemma TestedWords()
    ensures Valid("Bond_A") && Valid("USD")
  {
    hide Valid;
    assert "Bond_A"[0] == 'B' && "USD"[0] == 'U' && "Coupon_"[0] == 'C' && "Snapshot_"[0] == 'S';
    WordIsValid("Bond_A");
    WordIsValid("USD");
  }

  lemma ReservedIsInvalid(prefix: string, rest: string)
    requires prefix in ["Coupon_", "Snapshot_"]
    ensures !Valid(prefix + rest)
  {
    hide Filter, Split, Count, ValidPair;
    assert prefix <= prefix + rest;
  }

  /** The IDs of the repository's own tests: first the valid ones, then those that are not. */
  lemma TestedIDs()
    ensures Valid("Bond_A") && Valid("USD") && Valid("Bond_A-USD")
    ensures Valid("Bond_A-Coupon_123") && Valid("Bond_A-Snapshot_123")
    ensures !Valid("") && !Valid("A&B Co.") && !Valid("-abc") && !Valid("abc-") && !Valid("Bond_A-USD-Bond_B")
    ensures !Valid("Coupon_123-Bond_B") && !Valid("Snapshot_123-Bond_B") && !Valid("A-A")
  {
    hide Valid;
    TestedWords();
    TestedPairs();
    TestedRefusals();
    ReservedIsInvalid("Coupon_", "123-Bond_B");
    ReservedIsInvalid("Snapshot_", "123-Bond_B");
    assert "Coupon_" + "123-Bond_B" == "Coupon_123-Bond_B" && "Snapshot_" + "123-Bond_B" == "Snapshot_123-Bond_B";
  }

  /** What the codec needs: a valid ID is not empty, and consists of ID characters, so of none of the
      characters that structure the encoding. */
  lemma ValidCharacters(id: string)
    requires Valid(id)
    ensures id != "" && (forall i :: 0 <= i < |id| ==> IsIdChar(id[i])) && Free(id, ',') && Free(id, ':')
  {
    FilterAll(id, IsIdChar);
  }
}
