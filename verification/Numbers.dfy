/** What the parser of ledger/types/balances_json.go makes of JSON numbers in general: it reads the digits
    of a number across its decimal point. */
module Numbers {
  import opened Machine
  import opened Text
  import opened AssetID
  import opened Accounts
  import opened Codec

  /** A number of section 6 of RFC 8259; fraction and exponent are empty if it has none. */
  datatype Number = Number(negative: bool, whole: string, fraction: string, exponent: string)

  predicate Proper(n: Number) {
    JsonWhole(n.whole) && AllDigits(n.fraction) && (n.exponent != "" ==> Exponent(n.exponent))
  }

  predicate Exponent(s: string) {
    |s| > 1 && s[0] in "eE" &&
    var digits := if s[1] in "+-" then s[2..] else s[1..];
    digits != "" && AllDigits(digits)
  }

  function Sign(n: Number): string {
    if n.negative then "-" else ""
  }

  function Point(n: Number): string {
    if n.fraction == "" then "" else "." + n.fraction
  }

  function Written(n: Number): string {
    Sign(n) + n.whole + Point(n) + n.exponent
  }

  function Texts(numbers: seq<Number>): (r: seq<string>)
    ensures |r| == |numbers|
  {
    seq(|numbers|, i requires 0 <= i < |numbers| => Written(numbers[i]))
  }

  lemma TenTimes(x: int, y: int)
    ensures x * (10 * y) == 10 * (x * y)
  {
  }

  lemma NoDigits()
    ensures NatOf("") == 0 && Ten(0) == 1
  {
  }

  lemma LastDigit(s: string)
    requires s != "" && AllDigits(s)
    ensures AllDigits(s[..|s| - 1]) && Ten(|s|) == 10 * Ten(|s| - 1)
    ensures NatOf(s) == 10 * NatOf(s[..|s| - 1]) + (s[|s| - 1] as int - '0' as int)
  {
  }

  lemma {:induction false} DigitsJoin(a: string, b: string)
    requires AllDigits(a) && AllDigits(b)
    ensures AllDigits(a + b) && NatOf(a + b) == NatOf(a) * Ten(|b|) + NatOf(b)
  {
    hide NatOf, Ten;
    if b == "" {
      assert a + b == a;
      NoDigits();
    } else {
      var init := b[..|b| - 1];
      assert (a + b)[..|a + b| - 1] == a + init;
      DigitsJoin(a, init);
      LastDigit(a + b);
      LastDigit(b);
      TenTimes(NatOf(a), Ten(|init|));
    }
  }

  /** The number that a text without exponent denotes */
  function Value(n: Number): real
    requires Proper(n)
  {
    TenPositive(|n.fraction|);
    var size := NatOf(n.whole) as real + NatOf(n.fraction) as real / Ten(|n.fraction|) as real;
    if n.negative then 0.0 - size else size
  }

  /** The number that its digits denote without the point */
  function Digits(n: Number): int
    requires Proper(n)
  {
    var size := NatOf(n.whole + n.fraction);
    if n.negative then 0 - size else size
  }

  lemma {:induction false} TenPositive(k: nat)
    ensures Ten(k) >= 1 && (k > 0 ==> Ten(k) >= 10)
  {
    if k > 0 {
      TenPositive(k - 1);
    }
  }

  lemma Shift(whole: nat, rest: nat, ten: nat)
    requires ten >= 1
    ensures (whole * ten + rest) as real == (whole as real + rest as real / ten as real) * ten as real
  {
    var w, r, t := whole as real, rest as real, ten as real;
    assert (whole * ten) as real == w * t;
    assert r / t * t == r;
  }

  /** Leaving out the point multiplies by a power of ten. */
  lemma DigitsMeaning(n: Number)
    requires Proper(n)
    ensures Digits(n) as real == Value(n) * Ten(|n.fraction|) as real
  {
    hide NatOf, Ten, AllDigits, Exponent;
    TenPositive(|n.fraction|);
    DigitsJoin(n.whole, n.fraction);
    Shift(NatOf(n.whole), NatOf(n.fraction), Ten(|n.fraction|));
    var size := NatOf(n.whole) as real + NatOf(n.fraction) as real / Ten(|n.fraction|) as real;
    Opposite(size, Ten(|n.fraction|) as real);
  }

  lemma Opposite(x: real, t: real)
    ensures (0.0 - x) * t == 0.0 - x * t
  {
  }

  lemma Unscaled(v: real, t: real)
    requires t >= 1.0
    ensures v * t == v <==> t == 1.0 || v == 0.0
    ensures v * t == 0.0 <==> v == 0.0
  {
    if v > 0.0 && t > 1.0 {
      assert v * t > v;
    }
    if v < 0.0 && t > 1.0 {
      assert v * t < v;
    }
  }

  /** So it keeps exactly the numbers without a fraction, and zero. */
  lemma DigitsKeepValueIff(n: Number)
    requires Proper(n)
    ensures Digits(n) as real == Value(n) <==> n.fraction == "" || Digits(n) == 0
  {
    hide Digits, Value, Proper, Ten;
    var k := |n.fraction|;
    DigitsMeaning(n);
    TenPositive(k);
    NoDigits();
    Unscaled(Value(n), Ten(k) as real);
  }

  predicate Storable(n: Number)
    requires Proper(n)
  {
    n.exponent == "" && Fits(Digits(n))
  }

  // ---------------------------------------------------------------------------------------

  lemma KeepsDigits(s: string)
    requires AllDigits(s)
    ensures Filter(s, Kept) == s
  {
    FilterAll(s, Kept);
  }

  /** Of the number, the parser keeps all but the point and a plus in the exponent. */
  lemma KeptWritten(n: Number)
    requires Proper(n)
    ensures Filter(Written(n), Kept) == Sign(n) + (n.whole + n.fraction) + Filter(n.exponent, Kept)
  {
    hide Filter;
    FilterConcat(Sign(n) + n.whole + Point(n), n.exponent, Kept);
    FilterConcat(Sign(n) + n.whole, Point(n), Kept);
    FilterConcat(Sign(n), n.whole, Kept);
    KeepsDigits(n.whole);
    KeepsDigits(n.fraction);
    FilterAll(Sign(n), Kept);
    if n.fraction == "" {
      KeepsDigits(Point(n));
    } else {
      FilterDrop('.', n.fraction);
    }
    assert Sign(n) + (n.whole + n.fraction) == Sign(n) + n.whole + n.fraction;
  }

  lemma {:induction false} FilteredFrom(s: string, c: char)
    requires c in Filter(s, Kept)
    ensures c in s
  {
    if s != "" && c != s[0] {
      FilteredFrom(s[1..], c);
    }
  }

  lemma KeptExponent(s: string)
    requires Exponent(s)
    ensures Filter(s, Kept) != "" && !IsDigit(Filter(s, Kept)[0])
    ensures Free(Filter(s, Kept), ':') && Free(Filter(s, Kept), ',')
  {
    forall c | c in s
      ensures c != ':' && c != ','
    {
      var i :| 0 <= i < |s| && s[i] == c;
      var digits := if s[1] in "+-" then s[2..] else s[1..];
      assert i >= 2 ==> s[i] == digits[if s[1] in "+-" then i - 2 else i - 1];
      assert i == 1 && s[1] !in "+-" ==> s[1] == digits[0];
    }
    if ':' in Filter(s, Kept) {
      FilteredFrom(s, ':');
    }
    if ',' in Filter(s, Kept) {
      FilteredFrom(s, ',');
    }
  }

  /** The kept text is read as an integer exactly if the number is storable. */
  lemma ReadNumber(n: Number)
    requires Proper(n)
    ensures var kept := Filter(Written(n), Kept);
      Free(kept, ':') && Free(kept, ',') && (ParseInt(kept).Some? <==> Storable(n)) &&
      (Storable(n) ==> ParseInt(kept).value == Digits(n))
  {
    hide Filter, Written, NatOf;
    KeptWritten(n);
    var kept, digits := Filter(Written(n), Kept), n.whole + n.fraction;
    DigitsJoin(n.whole, n.fraction);
    if n.exponent == "" {
      KeepsDigits(n.exponent);
      assert kept == Sign(n) + digits;
      assert n.negative ==> kept[1..] == digits;
      assert !n.negative ==> kept == digits && IsDigit(kept[0]);
    } else {
      var tail := Filter(n.exponent, Kept);
      KeptExponent(n.exponent);
      assert kept[|Sign(n) + digits|] == tail[0];
      assert n.negative ==> kept[1..] == digits + tail && kept[1..][|digits|] == tail[0];
      assert !n.negative ==> IsDigit(kept[0]);
    }
  }

  lemma {:induction false} LeadingDigit(s: string)
    requires s != "" && AllDigits(s) && s[0] != '0'
    ensures NatOf(s) >= Ten(|s| - 1)
  {
    if |s| > 1 {
      LeadingDigit(s[..|s| - 1]);
    }
  }

  lemma {:induction false} TenGrows(j: nat, k: nat)
    requires j <= k
    ensures Ten(j) <= Ten(k)
  {
    if j < k {
      TenGrows(j, k - 1);
    }
  }

  lemma WholeIsShort(n: Number)
    requires Proper(n) && Storable(n)
    ensures |n.whole| <= 20
  {
    hide NatOf, Ten, AllDigits;
    DigitsJoin(n.whole, n.fraction);
    TenPositive(|n.fraction|);
    NotSmaller(NatOf(n.whole), Ten(|n.fraction|));
    if |n.whole| > 20 {
      LeadingDigit(n.whole);
      TenGrows(19, |n.whole| - 1);
      TenValues();
    }
  }

  lemma NotSmaller(a: nat, b: nat)
    requires b >= 1
    ensures a <= a * b
  {
  }

  /** What fits into an int64 is short enough for a float64. */
  lemma StorableIsShort(n: Number)
    requires Proper(n) && Storable(n)
    ensures JsonDecimal(Written(n))
  {
    hide NatOf, Ten, AllDigits;
    WholeIsShort(n);
    assert n.fraction != "" ==> Point(n)[1..] == n.fraction;
    assert Written(n) == Sign(n) + n.whole + Point(n);
    assert Decimal(Written(n), Sign(n), n.whole, Point(n));
  }

  /** An object of numbers is parsed exactly if none has an exponent and all their digits fit into an int64,
      and then every asset has the number that its digits denote. */
  lemma ParseNumbers(ids: seq<string>, numbers: seq<Number>, gate: string -> bool)
    requires AcceptsFlatObjects(gate) && |ids| == |numbers| && Addable(ids, map[])
    requires forall i :: 0 <= i < |numbers| ==> Proper(numbers[i])
    ensures var p := Parse(Object(ids, Texts(numbers)), gate);
      (p.ok <==> forall i :: 0 <= i < |numbers| ==> Storable(numbers[i])) &&
      (p.ok ==> (forall id :: id in p.bals <==> id in ids) &&
                forall i :: 0 <= i < |ids| ==> p.bals[ids[i]] == Digits(numbers[i]))
  {
    hide Proper, Storable, Written, Valid, Free, ParseInt, JsonDecimal, PlainKey;
    var texts := Texts(numbers);
    forall i | 0 <= i < |numbers|
      ensures var kept := Stripped(texts)[i];
        Free(kept, ':') && Free(kept, ',') && (ParseInt(kept).Some? <==> Storable(numbers[i])) &&
        (Storable(numbers[i]) ==> ParseInt(kept).value == Digits(numbers[i]))
      ensures Storable(numbers[i]) ==> JsonDecimal(texts[i])
      ensures PlainKey(ids[i])
    {
      ReadNumber(numbers[i]);
      ValidIsPlainKey(ids[i]);
      if Storable(numbers[i]) {
        StorableIsShort(numbers[i]);
      }
    }
    if gate(Object(ids, texts)) {
      hide Parse, Object;
      ParseObject(ids, texts, gate);
    }
  }

  /** Amounts are numbers as they are printed only if they have no decimal point: an object of numbers is read
      as it stands exactly if every number is storable, and has no fraction or is zero. */
  lemma NumbersReadIff(ids: seq<string>, numbers: seq<Number>, gate: string -> bool)
    requires AcceptsFlatObjects(gate) && |ids| == |numbers| && Addable(ids, map[])
    requires forall i :: 0 <= i < |numbers| ==> Proper(numbers[i])
    ensures var p := Parse(Object(ids, Texts(numbers)), gate);
      (p.ok && forall i :: 0 <= i < |ids| ==> ids[i] in p.bals && p.bals[ids[i]] as real == Value(numbers[i])) <==>
      forall i :: 0 <= i < |numbers| ==> Storable(numbers[i]) && (numbers[i].fraction == "" || Digits(numbers[i]) == 0)
  {
    hide Proper, Storable, Parse, Object, Digits, Value, AcceptsFlatObjects, Addable;
    ParseNumbers(ids, numbers, gate);
    forall i | 0 <= i < |numbers|
      ensures Digits(numbers[i]) as real == Value(numbers[i]) <==> numbers[i].fraction == "" || Digits(numbers[i]) == 0
    {
      DigitsKeepValueIff(numbers[i]);
    }
    assert forall i :: 0 <= i < |ids| ==> ids[i] in ids;
  }

  lemma UsdyIsValid()
    ensures Valid("USDY")
  {
    var id := "USDY";
    WordIsValid(id);
    assert id[0] == 'U' && COUPON_PREFIX[0] == 'C' && SNAPSHOT_PREFIX[0] == 'S';
  }

  // ---------------------------------------------------------------------------------------
  // Keys

  /** Keys are read as they stand exactly if they are valid IDs. */
  lemma KeysReadIff(keys: seq<string>, numbers: seq<Number>, gate: string -> bool)
    requires AcceptsFlatObjects(gate) && |keys| == |numbers| && forall i, j :: 0 <= i < j < |keys| ==> keys[i] != keys[j]
    requires forall i :: 0 <= i < |keys| ==> PlainKey(keys[i]) && Proper(numbers[i]) && Storable(numbers[i])
    ensures var p := Parse(Object(keys, Texts(numbers)), gate);
      (p.ok && forall i :: 0 <= i < |keys| ==> keys[i] in p.bals) <==> forall i :: 0 <= i < |keys| ==> Valid(keys[i])
  {
    hide Valid, Object, Proper, Storable, AcceptsFlatObjects, PlainKey;
    var data := Object(keys, Texts(numbers));
    if forall i :: 0 <= i < |keys| ==> Valid(keys[i]) {
      hide Parse;
      ParseNumbers(keys, numbers, gate);
      assert forall i :: 0 <= i < |keys| ==> keys[i] in keys;
    }
    ParsedValid(Split(Filter(data, Kept), ','), map[]);
  }

  lemma UdyIsStripped()
    ensures Filter("U$DY", Kept) == "UDY" && Valid("UDY")
  {
    hide Valid;
    assert "U$DY"[1..] == "$DY" && "$DY"[1..] == "DY" && "DY"[1..] == "Y" && "Y"[1..] == "";
    assert Filter("DY", Kept) == "DY";
    assert "UDY"[0] == 'U' && "Coupon_"[0] == 'C' && "Snapshot_"[0] == 'S';
    WordIsValid("UDY");
  }

  /** An entry for the invalid ID U$DY is stored as one for UDY. */
  lemma KeyIsChanged(gate: string -> bool)
    requires AcceptsFlatObjects(gate)
    ensures var p := Parse(Object(["U$DY"], ["1"]), gate); p.ok && "UDY" in p.bals && p.bals["UDY"] == 1
  {
    hide Valid, Parse, Object, NatOf, Filter;
    var id, n := "UDY", Number(false, "1", "", "");
    UdyIsStripped();
    assert Stripped(["U$DY"]) == [id];
    assert "1" == "" + "1" + "" && Decimal("1", "", "1", "");
    KeysAreStripped(["U$DY"], ["1"], gate);
    assert Written(n) == "1";
    assert Texts([n]) == ["1"];
    DigitsOf1(n);
    ParseNumbers([id], [n], gate);
    assert [id][0] in [id];
    assert Digits([n][0]) == 1;
  }

  lemma DigitsOf1(n: Number)
    requires n == Number(false, "1", "", "")
    ensures Proper(n) && Storable(n) && Digits(n) == 1
  {
    assert "1" + "" == "1" && "1"[..0] == "";
  }

  lemma DigitsOf1213()
    ensures AllDigits("1213") && NatOf("1213") == 1213
  {
    assert "1213"[..3] == "121" && "121"[..2] == "12" && "12"[..1] == "1" && "1"[..0] == "";
  }

  /** 12.13 is stored as 1213. */
  lemma PointIsLost(gate: string -> bool)
    requires AcceptsFlatObjects(gate)
    ensures var p := Parse("{\"USDY\":12.13}", gate); p.ok && "USDY" in p.bals && p.bals["USDY"] == 1213
  {
    hide Valid, Parse, AcceptsFlatObjects, NatOf;
    var n, ids := Number(false, "12", "13", ""), ["USDY"];
    UsdyIsValid();
    DigitsOf1213();
    assert "12" + "13" == "1213";
    assert Written(n) == "12.13";
    assert Texts([n]) == ["12.13"];
    assert "\"" + "USDY" + "\":" + "12.13" == "\"USDY\":12.13";
    assert Entries(ids, ["12.13"]) == ["\"USDY\":12.13"];
    assert Object(ids, ["12.13"]) == "{\"USDY\":12.13}";
    ParseNumbers(ids, [n], gate);
    assert ids[0] in ids && Digits([n][0]) == 1213;
  }
}
