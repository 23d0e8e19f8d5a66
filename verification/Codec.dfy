/** The JSON form of Balances (ledger/types/balances_json.go): what the printer writes, what the
    parser reads, and that the two are inverse. */
module Codec {
  import opened Machine
  import opened Text
  import opened AssetID
  import opened Accounts

  // ---------------------------------------------------------------------------------------
  // Printing

  predicate AllValid(b: Bals) {
    forall id :: id in b ==> Valid(id)
  }

  predicate StrictlySorted(ids: seq<string>) {
    forall i, j :: 0 <= i < j < |ids| ==> Less(ids[i], ids[j])
  }

  function Insert(id: string, ids: seq<string>): seq<string> {
    if ids == [] || Less(id, ids[0]) then [id] + ids else [ids[0]] + Insert(id, ids[1..])
  }

  /** The IDs of s in alphabetical order. */
  ghost function Sorted(s: set<string>): seq<string>
    decreases |s|
  {
    if s == {} then [] else var id :| id in s; Insert(id, Sorted(s - {id}))
  }

  lemma {:induction false} InsertSorted(id: string, ids: seq<string>)
    requires StrictlySorted(ids) && id !in ids
    ensures StrictlySorted(Insert(id, ids))
    ensures forall x :: x in Insert(id, ids) <==> x == id || x in ids
  {
    if ids == [] {
    } else if Less(id, ids[0]) {
      forall i | 0 <= i < |ids|
        ensures Less(id, ids[i])
      {
        if i > 0 {
          LessTransitive(id, ids[0], ids[i]);
        }
      }
    } else {
      var rest := ids[1..];
      assert ids == [ids[0]] + rest;
      InsertSorted(id, rest);
      LessTrichotomy(id, ids[0]);
      var longer := Insert(id, rest);
      forall i | 0 <= i < |longer|
        ensures Less(ids[0], longer[i])
      {
        assert longer[i] in longer;
        if longer[i] != id {
          var k :| 0 <= k < |rest| && rest[k] == longer[i];
          assert ids[k + 1] == rest[k];
        }
      }
    }
  }

  lemma ListsMembers(ids: seq<string>, s: set<string>)
    requires StrictlySorted(ids) && forall x :: x in ids <==> x in s
    ensures Lists(ids, s)
  {
    SortedDistinct(ids);
    forall i | 0 <= i < |ids|
      ensures ids[i] in s
    {
      assert ids[i] in ids;
    }
  }

  lemma {:induction false} SortedLists(s: set<string>)
    ensures StrictlySorted(Sorted(s)) && Lists(Sorted(s), s)
    decreases |s|
  {
    if s != {} {
      var id :| id in s && Sorted(s) == Insert(id, Sorted(s - {id}));
      SortedLists(s - {id});
      InsertSorted(id, Sorted(s - {id}));
      ListsMembers(Sorted(s), s);
    }
  }

  lemma SortedDistinct(ids: seq<string>)
    requires StrictlySorted(ids)
    ensures forall i, j :: 0 <= i < j < |ids| ==> ids[i] != ids[j]
  {
    forall i, j | 0 <= i < j < |ids|
      ensures ids[i] != ids[j]
    {
      LessTrichotomy(ids[i], ids[j]);
    }
  }

  /** There is only one alphabetical listing of a set. */
  lemma {:induction false} SortedUnique(a: seq<string>, b: seq<string>)
    requires StrictlySorted(a) && StrictlySorted(b) && forall x :: x in a <==> x in b
    ensures a == b
  {
    assert a != [] ==> a[0] in a;
    assert b != [] ==> b[0] in b;
    if a != [] && b != [] {
      LeastFirst(a, b);
      forall x
        ensures x in a[1..] <==> x in b[1..]
      {
        TailMembers(a, x);
        TailMembers(b, x);
      }
      SortedUnique(a[1..], b[1..]);
      assert a == [a[0]] + a[1..] && b == [b[0]] + b[1..];
    }
  }

  lemma LeastFirst(a: seq<string>, b: seq<string>)
    requires StrictlySorted(a) && StrictlySorted(b) && (forall x :: x in a <==> x in b) && a != [] && b != []
    ensures a[0] == b[0]
  {
    assert a[0] in b && b[0] in a;
    var i :| 0 <= i < |b| && b[i] == a[0];
    var j :| 0 <= j < |a| && a[j] == b[0];
    LessTrichotomy(a[0], b[0]);
  }

  lemma TailMembers(a: seq<string>, x: string)
    requires StrictlySorted(a) && a != []
    ensures x in a[1..] <==> x in a && x != a[0]
  {
    SortedDistinct(a);
    assert a == [a[0]] + a[1..];
    if x in a[1..] {
      var i :| 0 <= i < |a[1..]| && a[1..][i] == x;
      assert a[i + 1] == x;
    }
  }

  function Entry(id: string, text: string): string {
    "\"" + id + "\":" + text
  }

  function Member(id: string, amount: int64): string {
    Entry(id, FormatInt(amount))
  }

  function Members(ids: seq<string>, b: Bals): seq<string> {
    seq(|ids|, i requires 0 <= i < |ids| => Member(ids[i], AmountOf(b, ids[i])))
  }

  function Render(ids: seq<string>, b: Bals): string {
    "{" + Join(Members(ids, b), ',') + "}"
  }

  /** MarshalJSON of balances that pass validation. */
  ghost function Print(b: Bals): string {
    Render(Sorted(NonZero(b).Keys), b)
  }

  // ---------------------------------------------------------------------------------------
  // Parsing

  predicate Kept(c: char) {
    IsIdChar(c) || c == ':' || c == ','
  }

  datatype Parsed = Parsed(bals: Bals, ok: bool)

  /** The lines of an encoding added to b one by one, up to the first line in error. */
  function ParseLines(lines: seq<string>, b: Bals): Parsed
    decreases |lines|
  {
    if lines == [] then Parsed(b, true)
    else
      var parts := Split(lines[0], ':');
      if |parts| != 2 || !Valid(parts[0]) || parts[0] in b then Parsed(b, false)
      else
        match ParseInt(parts[1])
        case None => Parsed(b, false)
        case Some(amount) => ParseLines(lines[1..], b[parts[0] := amount])
  }

  /** UnmarshalJSON: gate says whether the data decodes as a JSON object of numbers. */
  function Parse(data: string, gate: string -> bool): Parsed {
    if !gate(data) then Parsed(map[], false)
    else
      var s := Filter(data, Kept);
      if s == "" then Parsed(map[], true) else ParseLines(Split(s, ','), map[])
  }

  // ---------------------------------------------------------------------------------------
  // The JSON gate

  /** A string literal of section 7 of RFC 8259 that needs no escapes. */
  predicate PlainKey(s: string) {
    forall i :: 0 <= i < |s| ==> s[i] != '\"' && s[i] != '\\' && ' ' <= s[i] <= '~'
  }

  predicate JsonWhole(s: string) {
    s != "" && AllDigits(s) && (s[0] == '0' ==> |s| == 1)
  }

  /** A number of section 6 of RFC 8259 without an exponent, and short enough for a float64. */
  ghost predicate JsonDecimal(s: string) {
    exists sign, whole, fraction :: Decimal(s, sign, whole, fraction)
  }

  predicate Decimal(s: string, sign: string, whole: string, fraction: string) {
    s == sign + whole + fraction && sign in ["", "-"] && JsonWhole(whole) && |whole| <= 300 &&
    (fraction != "" ==> |fraction| > 1 && fraction[0] == '.' && AllDigits(fraction[1..]))
  }

  function Entries(ids: seq<string>, texts: seq<string>): seq<string>
    requires |ids| == |texts|
  {
    seq(|ids|, i requires 0 <= i < |ids| => Entry(ids[i], texts[i]))
  }

  /** A flat object of section 4 of RFC 8259, without insignificant whitespace. */
  function Object(ids: seq<string>, texts: seq<string>): string
    requires |ids| == |texts|
  {
    "{" + Join(Entries(ids, texts), ',') + "}"
  }

  /** The decoder behind the gate accepts at least the objects with such keys and numbers. */
  ghost predicate AcceptsFlatObjects(gate: string -> bool) {
    forall keys, numbers ::
      |keys| == |numbers| && (forall i :: 0 <= i < |keys| ==> PlainKey(keys[i]) && JsonDecimal(numbers[i])) ==>
        gate(Object(keys, numbers))
  }

  lemma IntIsJson(n: int64)
    ensures JsonDecimal(FormatInt(n))
  {
    var m: int := n;
    var a := if m < 0 then -m else m;
    NatRoundTrip(a);
    assert a < Ten(19) by {
      TenValues();
    }
    NatLength(a, 19);
    assert Decimal(FormatInt(n), if m < 0 then "-" else "", FormatNat(a), "");
  }

  lemma TenValues()
    ensures Ten(19) == 10_000_000_000_000_000_000
  {
    assert Ten(5) == 100_000;
    assert Ten(10) == 10_000_000_000;
    assert Ten(15) == 1_000_000_000_000_000;
  }

  lemma ValidIsPlainKey(id: string)
    requires Valid(id)
    ensures PlainKey(id)
  {
    ValidCharacters(id);
  }

  function Amounts(ids: seq<string>, b: Bals): seq<string> {
    seq(|ids|, i requires 0 <= i < |ids| => FormatInt(AmountOf(b, ids[i])))
  }

  /** Whatever order the IDs come in, the printed text is a JSON object of numbers. */
  lemma RenderIsFlat(ids: seq<string>, b: Bals, gate: string -> bool)
    requires AcceptsFlatObjects(gate) && forall i :: 0 <= i < |ids| ==> Valid(ids[i])
    ensures Render(ids, b) == Object(ids, Amounts(ids, b)) && gate(Render(ids, b))
  {
    hide Valid, FormatInt, PlainKey, JsonDecimal;
    var numbers := Amounts(ids, b);
    forall i | 0 <= i < |ids|
      ensures PlainKey(ids[i]) && JsonDecimal(numbers[i])
    {
      ValidIsPlainKey(ids[i]);
      IntIsJson(AmountOf(b, ids[i]));
    }
    assert Members(ids, b) == Entries(ids, numbers);
  }

  // ---------------------------------------------------------------------------------------
  // What remains of an object

  function Line(id: string, text: string): string {
    id + ":" + text
  }

  function Lines(ids: seq<string>, texts: seq<string>): seq<string>
    requires |ids| == |texts|
  {
    seq(|ids|, i requires 0 <= i < |ids| => Line(ids[i], texts[i]))
  }

  function Stripped(texts: seq<string>): (r: seq<string>)
    ensures |r| == |texts|
  {
    seq(|texts|, i requires 0 <= i < |texts| => Filter(texts[i], Kept))
  }

  lemma FilterDrop(c: char, s: string)
    requires !Kept(c)
    ensures Filter([c] + s, Kept) == Filter(s, Kept)
  {
    assert ([c] + s)[1..] == s;
  }

  lemma FilterEntry(key: string, text: string)
    ensures Filter(Entry(key, text), Kept) == Line(Filter(key, Kept), Filter(text, Kept))
  {
    FilterAll(":", Kept);
    FilterConcat(":", text, Kept);
    FilterDrop('\"', key + (['\"'] + (":" + text)));
    FilterConcat(key, ['\"'] + (":" + text), Kept);
    FilterDrop('\"', ":" + text);
    assert Entry(key, text) == ['\"'] + (key + (['\"'] + (":" + text)));
  }

  lemma {:induction false} FilterEntries(keys: seq<string>, texts: seq<string>)
    requires |keys| == |texts|
    ensures Filter(Join(Entries(keys, texts), ','), Kept) == Join(Lines(Stripped(keys), Stripped(texts)), ',')
  {
    if keys != [] {
      hide Entry, Line, Filter;
      FilterEntry(keys[0], texts[0]);
      if |keys| > 1 {
        var rest, others := keys[1..], texts[1..];
        assert Entries(keys, texts)[1..] == Entries(rest, others);
        assert Lines(Stripped(keys), Stripped(texts))[1..] == Lines(Stripped(rest), Stripped(others));
        FilterEntries(rest, others);
        FilterConcat(Entries(keys, texts)[0] + ",", Join(Entries(rest, others), ','), Kept);
        FilterConcat(Entries(keys, texts)[0], ",", Kept);
        FilterAll(",", Kept);
      }
    }
  }

  lemma FilterObject(keys: seq<string>, texts: seq<string>)
    requires |keys| == |texts|
    ensures Filter(Object(keys, texts), Kept) == Join(Lines(Stripped(keys), Stripped(texts)), ',')
  {
    var contents := Join(Entries(keys, texts), ',');
    FilterEntries(keys, texts);
    FilterConcat("{" + contents, "}", Kept);
    FilterConcat("{", contents, Kept);
    assert Filter("{", Kept) == "" && Filter("}", Kept) == "";
  }

  lemma ValidIsStripped(ids: seq<string>)
    requires forall i :: 0 <= i < |ids| ==> Valid(ids[i])
    ensures Stripped(ids) == ids
  {
    hide Valid;
    forall i | 0 <= i < |ids|
      ensures Filter(ids[i], Kept) == ids[i]
    {
      ValidCharacters(ids[i]);
      FilterAll(ids[i], Kept);
    }
  }

  lemma LineParts(id: string, text: string)
    requires Valid(id) && Free(text, ':') && Free(text, ',')
    ensures Free(Line(id, text), ',') && Split(Line(id, text), ':') == [id, text] && Line(id, text) != ""
  {
    ValidCharacters(id);
    SplitFirst(id, text, ':');
    SplitFree(text, ':');
    assert Line(id, text) == id + [':'] + text;
  }

  lemma SplitLines(ids: seq<string>, texts: seq<string>)
    requires |ids| == |texts| > 0 && forall i :: 0 <= i < |ids| ==> Valid(ids[i])
    requires forall i :: 0 <= i < |texts| ==> Free(texts[i], ':') && Free(texts[i], ',')
    ensures Split(Join(Lines(ids, texts), ','), ',') == Lines(ids, texts)
    ensures Join(Lines(ids, texts), ',') != ""
  {
    hide Valid, Line, Free;
    var lines := Lines(ids, texts);
    forall i | 0 <= i < |ids|
      ensures Free(lines[i], ',')
    {
      LineParts(ids[i], texts[i]);
    }
    LineParts(ids[0], texts[0]);
    SplitJoin(lines, ',');
  }

  /** Every text is the number of its ID in p, and p holds nothing else but b. */
  ghost predicate Holds(p: Bals, ids: seq<string>, texts: seq<string>, b: Bals)
    requires |ids| == |texts|
  {
    (forall i :: 0 <= i < |ids| ==> ids[i] in p && ParseInt(texts[i]) == Some(p[ids[i]])) &&
    (forall id :: id !in ids ==> (id in p <==> id in b) && (id in b ==> p[id] == b[id]))
  }

  /** Valid and distinct IDs that are not yet in b */
  ghost predicate Addable(ids: seq<string>, b: Bals) {
    (forall i :: 0 <= i < |ids| ==> Valid(ids[i]) && ids[i] !in b) &&
    (forall i, j :: 0 <= i < j < |ids| ==> ids[i] != ids[j])
  }

  lemma AddableTail(ids: seq<string>, b: Bals, amount: int64)
    requires Addable(ids, b) && ids != []
    ensures Addable(ids[1..], b[ids[0] := amount])
  {
    hide Valid;
    var rest := ids[1..];
    forall i | 0 <= i < |rest|
      ensures Valid(rest[i]) && rest[i] !in b[ids[0] := amount]
    {
      assert rest[i] == ids[i + 1] != ids[0];
    }
  }

  lemma HoldsLonger(p: Bals, ids: seq<string>, texts: seq<string>, b: Bals, amount: int64)
    requires |ids| == |texts| > 0 && Addable(ids, b) && ParseInt(texts[0]) == Some(amount)
    requires Holds(p, ids[1..], texts[1..], b[ids[0] := amount])
    ensures Holds(p, ids, texts, b)
  {
    hide Valid, ParseInt;
    assert ids == [ids[0]] + ids[1..];
    assert ids[0] !in ids[1..] by {
      assert forall i :: 0 <= i < |ids[1..]| ==> ids[1..][i] == ids[i + 1];
    }
    forall i | 0 <= i < |ids|
      ensures ids[i] in p && ParseInt(texts[i]) == Some(p[ids[i]])
    {
      if i > 0 {
        assert ids[i] == ids[1..][i - 1] && texts[i] == texts[1..][i - 1];
      }
    }
  }

  /** The lines of distinct IDs are added to b, unless one does not hold an int64. */
  lemma {:induction false} ParseTexts(ids: seq<string>, texts: seq<string>, b: Bals)
    requires |ids| == |texts| && Addable(ids, b)
    requires forall i :: 0 <= i < |texts| ==> Free(texts[i], ':') && Free(texts[i], ',')
    ensures var p := ParseLines(Lines(ids, texts), b);
      (p.ok <==> forall i :: 0 <= i < |texts| ==> ParseInt(texts[i]).Some?) && (p.ok ==> Holds(p.bals, ids, texts, b))
    decreases |ids|
  {
    hide Valid, Line, Split, ParseInt, Free;
    if ids != [] {
      var lines := Lines(ids, texts);
      LineParts(ids[0], texts[0]);
      assert lines[1..] == Lines(ids[1..], texts[1..]);
      if ParseInt(texts[0]).Some? {
        var amount := ParseInt(texts[0]).value;
        AddableTail(ids, b, amount);
        ParseTexts(ids[1..], texts[1..], b[ids[0] := amount]);
        assert forall i :: 0 < i < |texts| ==> texts[i] == texts[1..][i - 1];
        if ParseLines(lines, b).ok {
          HoldsLonger(ParseLines(lines, b).bals, ids, texts, b, amount);
        }
      }
    }
  }

  /** What the scan of lines takes: an ID that is valid and new, a colon, and an int64 */
  ghost predicate GoodLine(line: string, held: Bals) {
    exists id, text :: line == Line(id, text) && Valid(id) && id !in held && Free(text, ':') && ParseInt(text).Some?
  }

  lemma SplitLine(id: string, text: string)
    requires Valid(id) && Free(text, ':')
    ensures Split(Line(id, text), ':') == [id, text]
  {
    ValidCharacters(id);
    SplitFirst(id, text, ':');
    SplitFree(text, ':');
    assert Line(id, text) == id + [':'] + text;
  }

  lemma BadLine(line: string, b: Bals)
    requires var parts := Split(line, ':');
      |parts| != 2 || !Valid(parts[0]) || parts[0] in b || ParseInt(parts[1]).None?
    ensures !GoodLine(line, b)
  {
    hide Valid, ParseInt, Line, Split, Free;
    if GoodLine(line, b) {
      var id, text :| line == Line(id, text) && Valid(id) && id !in b && Free(text, ':') && ParseInt(text).Some?;
      SplitLine(id, text);
    }
  }

  /** The parser takes lines up to the first that is not good, and keeps exactly what they say, also on error. */
  lemma {:induction false} ParseLinesMeaning(lines: seq<string>, b: Bals) returns (ids: seq<string>, texts: seq<string>)
    ensures |ids| == |texts| <= |lines| && lines[..|ids|] == Lines(ids, texts) && Addable(ids, b)
    ensures var p := ParseLines(lines, b);
      Holds(p.bals, ids, texts, b) && (p.ok <==> |ids| == |lines|) && (!p.ok ==> !GoodLine(lines[|ids|], p.bals))
    decreases |lines|
  {
    hide Valid, ParseInt, Line, Split, Free, GoodLine;
    ids, texts := [], [];
    if lines != [] {
      var parts := Split(lines[0], ':');
      if |parts| != 2 || !Valid(parts[0]) || parts[0] in b || ParseInt(parts[1]).None? {
        BadLine(lines[0], b);
      } else {
        var id, amount := parts[0], ParseInt(parts[1]).value;
        PartsOf(lines[0]);
        ids, texts := ParseLinesMeaning(lines[1..], b[id := amount]);
        ids, texts := AddFirst(lines, ids, texts, b, id, parts[1], amount);
      }
    }
  }

  lemma PartsOf(line: string)
    requires |Split(line, ':')| == 2
    ensures line == Line(Split(line, ':')[0], Split(line, ':')[1])
  {
    JoinSplit(line, ':');
    assert Split(line, ':')[1..] == [Split(line, ':')[1]];
  }

  lemma LinesFirst(lines: seq<string>, ids: seq<string>, texts: seq<string>, id: string, text: string)
    requires lines != [] && |ids| == |texts| < |lines| && lines[1..][..|ids|] == Lines(ids, texts)
    requires lines[0] == Line(id, text)
    ensures lines[..1 + |ids|] == Lines([id] + ids, [text] + texts)
  {
    hide Line;
    assert lines[..1 + |ids|] == [lines[0]] + lines[1..][..|ids|];
  }

  lemma AddableFirst(ids: seq<string>, b: Bals, id: string, amount: int64)
    requires Addable(ids, b[id := amount]) && Valid(id) && id !in b
    ensures Addable([id] + ids, b)
  {
    hide Valid;
    assert forall i :: 0 <= i < |ids| ==> ids[i] != id;
  }

  lemma AddFirst(lines: seq<string>, ids: seq<string>, texts: seq<string>, b: Bals, id: string, text: string, amount: int64)
    returns (ids': seq<string>, texts': seq<string>)
    requires lines != [] && |ids| == |texts| < |lines| && lines[1..][..|ids|] == Lines(ids, texts)
    requires Addable(ids, b[id := amount]) && Valid(id) && id !in b
    requires lines[0] == Line(id, text) && ParseInt(text) == Some(amount)
    ensures ids' == [id] + ids && texts' == [text] + texts
    ensures lines[..|ids'|] == Lines(ids', texts') && Addable(ids', b)
    ensures forall p :: Holds(p, ids, texts, b[id := amount]) ==> Holds(p, ids', texts', b)
  {
    hide Valid, ParseInt, Line, Holds, Lines;
    ids', texts' := [id] + ids, [text] + texts;
    LinesFirst(lines, ids, texts, id, text);
    AddableFirst(ids, b, id, amount);
    assert ids'[1..] == ids && texts'[1..] == texts;
    forall p | Holds(p, ids, texts, b[id := amount])
      ensures Holds(p, ids', texts', b)
    {
      HoldsLonger(p, ids', texts', b, amount);
    }
  }

  /** What an accepted object parses to depends on its texts only as far as they are kept. */
  lemma ParseObject(ids: seq<string>, texts: seq<string>, gate: string -> bool)
    requires |ids| == |texts| && Addable(ids, map[]) && gate(Object(ids, texts))
    requires forall i :: 0 <= i < |texts| ==> Free(Stripped(texts)[i], ':') && Free(Stripped(texts)[i], ',')
    ensures var p, kept := Parse(Object(ids, texts), gate), Stripped(texts);
      (p.ok <==> forall i :: 0 <= i < |texts| ==> ParseInt(kept[i]).Some?) && (p.ok ==> Holds(p.bals, ids, kept, map[]))
  {
    hide Valid, ParseInt, Free, Object, Split, Holds, Line;
    FilterObject(ids, texts);
    ValidIsStripped(ids);
    if ids != [] {
      SplitLines(ids, Stripped(texts));
    }
    ParseTexts(ids, Stripped(texts), map[]);
  }

  // ---------------------------------------------------------------------------------------
  // Round trip

  lemma KeepsInt(n: int64)
    ensures Filter(FormatInt(n), Kept) == FormatInt(n)
    ensures Free(FormatInt(n), ':') && Free(FormatInt(n), ',')
  {
    IntRoundTrip(n);
    FilterAll(FormatInt(n), Kept);
  }

  lemma HoldsAll(p: Bals, ids: seq<string>, b: Bals)
    requires Lists(ids, NonZero(b).Keys) && Holds(p, ids, Amounts(ids, b), map[])
    ensures p == NonZero(b)
  {
    hide ParseInt, FormatInt;
    forall id
      ensures id in p <==> id in NonZero(b)
      ensures id in p ==> p[id] == NonZero(b)[id]
    {
      if id in ids {
        var i :| 0 <= i < |ids| && ids[i] == id;
        IntRoundTrip(AmountOf(b, id));
      }
    }
  }

  lemma ParseRender(ids: seq<string>, b: Bals, gate: string -> bool)
    requires AllValid(b) && AcceptsFlatObjects(gate) && Lists(ids, NonZero(b).Keys)
    ensures Parse(Render(ids, b), gate) == Parsed(NonZero(b), true)
  {
    hide Valid, ParseInt, FormatInt, Parse, Free, Holds, AcceptsFlatObjects;
    RenderIsFlat(ids, b, gate);
    var texts := Amounts(ids, b);
    forall i | 0 <= i < |ids|
      ensures Stripped(texts)[i] == texts[i] && Free(texts[i], ':') && Free(texts[i], ',')
      ensures ParseInt(texts[i]).Some?
    {
      KeepsInt(AmountOf(b, ids[i]));
      IntRoundTrip(AmountOf(b, ids[i]));
    }
    assert Stripped(texts) == texts;
    ParseObject(ids, texts, gate);
    HoldsAll(Parse(Render(ids, b), gate).bals, ids, b);
  }

  /** Parsing what was printed succeeds and yields exactly the non-zero entries. */
  lemma RoundTrip(b: Bals, gate: string -> bool)
    requires AllValid(b) && AcceptsFlatObjects(gate)
    ensures Parse(Print(b), gate) == Parsed(NonZero(b), true)
  {
    SortedLists(NonZero(b).Keys);
    ParseRender(Sorted(NonZero(b).Keys), b, gate);
  }

  // ---------------------------------------------------------------------------------------
  // Order, and what the printer writes

  /** In the order of a dictionary, none twice */
  ghost predicate Ascending(ids: seq<string>) {
    forall i, j :: 0 <= i < j < |ids| ==> Before(ids[i], ids[j])
  }

  lemma SortedAscends(ids: seq<string>)
    ensures StrictlySorted(ids) <==> Ascending(ids)
  {
    hide Less, Before;
    forall i, j | 0 <= i < j < |ids|
      ensures Less(ids[i], ids[j]) <==> Before(ids[i], ids[j])
    {
      LessIsBefore(ids[i], ids[j]);
    }
  }

  /** The printed text lists exactly the entries that are not zero, in the order of a dictionary. */
  lemma PrintAscends(b: Bals) returns (ids: seq<string>)
    ensures Lists(ids, NonZero(b).Keys) && Ascending(ids) && Print(b) == Object(ids, Amounts(ids, b))
  {
    hide Less, Before, FormatInt;
    ids := Sorted(NonZero(b).Keys);
    SortedLists(NonZero(b).Keys);
    SortedAscends(ids);
    assert Members(ids, b) == Entries(ids, Amounts(ids, b));
  }

  lemma PrintExample()
    ensures Print(map["B" := -20, "A" := 1, "C" := 0]) == "{\"A\":1,\"B\":-20}"
  {
    var b: Bals := map["B" := -20, "A" := 1, "C" := 0];
    assert NonZero(b).Keys == {"A", "B"};
    hide Less;
    TwoSorted({"A", "B"});
    assert AmountOf(b, "A") == 1 && AmountOf(b, "B") == -20;
    TwoMembers(b);
    hide *;
    assert Print(b) == "{" + "\"A\":1,\"B\":-20" + "}";
  }

  lemma TwoSorted(s: set<string>)
    requires s == {"A", "B"}
    ensures Sorted(s) == ["A", "B"]
  {
    hide Sorted;
    SortedLists(s);
    assert Less("A", "B");
    SortedUnique(Sorted(s), ["A", "B"]);
  }

  lemma TwoMembers(b: Bals)
    requires AmountOf(b, "A") == 1 && AmountOf(b, "B") == -20
    ensures Join(Members(["A", "B"], b), ',') == "\"A\":1,\"B\":-20"
  {
    hide FormatInt;
    TwoNumbers();
    assert Member("A", 1) == "\"A\":1" && Member("B", -20) == "\"B\":-20";
    assert Members(["A", "B"], b) == ["\"A\":1", "\"B\":-20"];
    assert ["\"A\":1", "\"B\":-20"][1..] == ["\"B\":-20"];
    assert Join(["\"B\":-20"], ',') == "\"B\":-20";
  }

  lemma TwoNumbers()
    ensures FormatInt(1) == "1" && FormatInt(-20) == "-20"
  {
  }

  // ---------------------------------------------------------------------------------------
  // What the parser disregards

  /** The characters that a comment beside the parser says it keeps */
  predicate Significant(c: char) {
    Documented(c) || c == '-' || c == ':' || c == ','
  }

  lemma {:induction false} FilterTwice(s: string)
    ensures Filter(Filter(s, Significant), Kept) == Filter(s, Kept)
  {
    if s != "" {
      FilterTwice(s[1..]);
      var rest := Filter(s[1..], Significant);
      assert ([s[0]] + rest)[1..] == rest;
    }
  }

  /** Two texts that the gate accepts, and that differ only in other characters (whitespace above all), parse
      alike. */
  lemma OthersDoNotMatter(a: string, b: string, gate: string -> bool)
    requires gate(a) && gate(b) && Filter(a, Significant) == Filter(b, Significant)
    ensures Parse(a, gate) == Parse(b, gate)
  {
    FilterTwice(a);
    FilterTwice(b);
  }

  /** One such character more, anywhere */
  lemma InsertedDoesNotMatter(a: string, c: char, b: string, gate: string -> bool)
    requires !Significant(c) && gate(a + b) && gate(a + [c] + b)
    ensures Parse(a + [c] + b, gate) == Parse(a + b, gate)
  {
    hide Parse, Significant;
    FilterConcat(a + [c], b, Significant);
    FilterConcat(a, [c], Significant);
    FilterConcat(a, b, Significant);
    assert [c][1..] == "";
    OthersDoNotMatter(a + [c] + b, a + b, gate);
  }

  lemma {:induction false} FilterAgain(s: string)
    ensures Filter(Filter(s, Kept), Kept) == Filter(s, Kept)
    ensures forall i :: 0 <= i < |Filter(s, Kept)| ==> Kept(Filter(s, Kept)[i])
  {
    if s != "" {
      FilterAgain(s[1..]);
      var rest := Filter(s[1..], Kept);
      assert ([s[0]] + rest)[1..] == rest;
    }
  }

  /** Other characters in keys are skipped as well. */
  lemma KeysAreStripped(keys: seq<string>, numbers: seq<string>, gate: string -> bool)
    requires AcceptsFlatObjects(gate) && |keys| == |numbers|
    requires forall i :: 0 <= i < |keys| ==> PlainKey(keys[i]) && JsonDecimal(numbers[i])
    ensures Parse(Object(keys, numbers), gate) == Parse(Object(Stripped(keys), numbers), gate)
  {
    hide JsonDecimal, Object, ParseLines, Filter;
    forall i | 0 <= i < |keys|
      ensures PlainKey(Stripped(keys)[i]) && Filter(Stripped(keys)[i], Kept) == Stripped(keys)[i]
    {
      FilterAgain(keys[i]);
    }
    FilterObject(keys, numbers);
    FilterObject(Stripped(keys), numbers);
    assert Stripped(Stripped(keys)) == Stripped(keys);
  }

  // ---------------------------------------------------------------------------------------
  // Canonical form

  /** Two balances print alike exactly when they agree on the amount of every asset. */
  lemma PrintCanonical(a: Bals, b: Bals, gate: string -> bool)
    requires AllValid(a) && AllValid(b) && AcceptsFlatObjects(gate)
    ensures Print(a) == Print(b) <==> SameAmounts(a, b)
  {
    SameAmountsNonZero(a, b);
    if Print(a) == Print(b) {
      RoundTrip(a, gate);
      RoundTrip(b, gate);
    }
    if SameAmounts(a, b) {
      var ids := Sorted(NonZero(a).Keys);
      assert Members(ids, a) == Members(ids, b);
    }
  }

  /** Printing what was parsed back reproduces the text. */
  lemma Reprint(b: Bals, gate: string -> bool)
    requires AllValid(b) && AcceptsFlatObjects(gate)
    ensures Print(Parse(Print(b), gate).bals) == Print(b)
  {
    RoundTrip(b, gate);
    SameAmountsNonZero(b, NonZero(b));
    PrintCanonical(b, NonZero(b), gate);
  }

  /** Whatever the input, the parser only ever holds valid IDs, each once. */
  lemma {:induction false} ParsedValid(lines: seq<string>, b: Bals)
    requires AllValid(b)
    ensures AllValid(ParseLines(lines, b).bals)
    ensures ParseLines(lines, b).ok ==> |ParseLines(lines, b).bals| == |b| + |lines|
    decreases |lines|
  {
    if lines != [] {
      var parts := Split(lines[0], ':');
      if |parts| == 2 && Valid(parts[0]) && parts[0] !in b && ParseInt(parts[1]).Some? {
        var next := b[parts[0] := ParseInt(parts[1]).value];
        assert next.Keys == b.Keys + {parts[0]};
        assert |next| == |next.Keys| && |b| == |b.Keys|;
        ParsedValid(lines[1..], next);
      }
    }
  }
}
