/** How a migration file is cut into statements (migration/parser.go). */
module MigrationParser {
  import opened Text

  predicate IsSpace(c: char) {
    '\t' <= c <= '\r' || c == ' ' || c == '\U{85}' || c == '\U{A0}' || c == '\U{1680}' || '\U{2000}' <= c <= '\U{200A}' ||
    c == '\U{2028}' || c == '\U{2029}' || c == '\U{202F}' || c == '\U{205F}' || c == '\U{3000}'
  }

  /** strings.TrimSpace leaves nothing. */
  predicate Blank(line: string) {
    forall i :: 0 <= i < |line| ==> IsSpace(line[i])
  }

  /** ASCII letters only: no other letter maps to one that the markers contain. */
  function ToLower(s: string): string {
    seq(|s|, i requires 0 <= i < |s| => if 'A' <= s[i] <= 'Z' then ((s[i] as int) + 32) as char else s[i])
  }

  predicate IsStatementStart(line: string) {
    HasPrefix(ToLower(line), "--") && Contains(ToLower(line), "+start")
  }

  predicate IsStatementEnd(line: string) {
    HasPrefix(line, "--") && Contains(line, "+end")
  }

  /** Whether the line is a comment, and whether a comment stays open after it. */
  function CheckComment(line: string, multiline: bool): (bool, bool) {
    if (multiline && !Contains(line, "/*") && !Contains(line, "*/")) ||
       (!multiline && Contains(line, "/*") && !Contains(line, "*/")) then (true, true)
    else if multiline && Contains(line, "*/") then (true, false)
    else if HasPrefix(line, "--") || HasPrefix(line, "/*") then (true, false)
    else (false, false)
  }

  /** The variables of the scan: statements so far, the one being built, an open comment. */
  datatype Scan = Scan(statements: seq<string>, builder: string, multiline: bool)

  function AddAndReset(s: Scan): Scan {
    Scan(s.statements + [s.builder], "", false)
  }

  function Feed(s: Scan, line: string): Scan {
    if Blank(line) then s
    else if IsStatementStart(line) then if s.builder != "" then AddAndReset(s) else s
    else if IsStatementEnd(line) then AddAndReset(s)
    else
      var (isComment, multiline) := CheckComment(line, s.multiline);
      if isComment then s.(multiline := multiline)
      else Scan(s.statements, s.builder + line, multiline)
  }

  function FeedAll(s: Scan, lines: seq<string>): Scan
    decreases |lines|
  {
    if lines == [] then s else FeedAll(Feed(s, lines[0]), lines[1..])
  }

  function Finish(s: Scan): seq<string> {
    if s.builder != "" then s.statements + [s.builder] else s.statements
  }

  function Parse(lines: seq<string>): seq<string> {
    Finish(FeedAll(Scan([], "", false), lines))
  }

  method ParseMigrationFile(lines: seq<string>) returns (statements: seq<string>)
    ensures statements == Parse(lines)
  {
    hide Blank, IsStatementStart, IsStatementEnd, CheckComment;
    statements := [];
    var builder := "";
    var multiline := false;
    for i := 0 to |lines|
      invariant FeedAll(Scan([], "", false), lines) == FeedAll(Scan(statements, builder, multiline), lines[i..])
    {
      var line := lines[i];
      assert lines[i..][1..] == lines[i + 1..];
      if Blank(line) {
        continue;
      }
      if IsStatementStart(line) {
        if |builder| > 0 {
          statements, builder, multiline := statements + [builder], "", false;
        }
        continue;
      }
      if IsStatementEnd(line) {
        statements, builder, multiline := statements + [builder], "", false;
        continue;
      }
      var (comment, open) := CheckComment(line, multiline);
      multiline := open;
      if comment {
        continue;
      }
      builder := builder + line;
    }
    if |builder| > 0 {
      statements := statements + [builder];
    }
  }

  // ---------------------------------------------------------------------------------------
  // Documents

  /** What may stand between markers. */
  datatype Item =
    | Code(line: string)
    | Comment(line: string)
    | BlockComment(first: string, middle: seq<string>, last: string)
    | Empty(line: string)

  predicate Marker(line: string) {
    IsStatementStart(line) || IsStatementEnd(line)
  }

  /** A line that opens a comment that it does not close */
  predicate Opens(line: string) {
    Contains(line, "/*") && !Contains(line, "*/")
  }

  predicate Proper(item: Item) {
    match item
    case Code(line) => !Blank(line) && !HasPrefix(line, "--") && !HasPrefix(line, "/*") && !Opens(line)
    case Comment(line) => (HasPrefix(line, "--") || HasPrefix(line, "/*")) && !Marker(line) && !Opens(line)
    case BlockComment(first, middle, last) =>
      Opens(first) && !Marker(first) && Contains(last, "*/") && !Marker(last) &&
      forall i :: 0 <= i < |middle| ==> !Marker(middle[i]) && !Contains(middle[i], "/*") && !Contains(middle[i], "*/")
    case Empty(line) => Blank(line)
  }

  function ItemLines(item: Item): seq<string> {
    match item
    case Code(line) => [line]
    case Comment(line) => [line]
    case BlockComment(first, middle, last) => [first] + middle + [last]
    case Empty(line) => [line]
  }

  function ItemCode(item: Item): string {
    if item.Code? then item.line else ""
  }

  function Lines(items: seq<Item>): seq<string> {
    if items == [] then [] else ItemLines(items[0]) + Lines(items[1..])
  }

  function CodeOf(items: seq<Item>): string {
    if items == [] then "" else ItemCode(items[0]) + CodeOf(items[1..])
  }

  /** The end of a block: no marker, or a marker in any case. */
  datatype End = NoEnd | EndMarker(line: string)

  predicate ProperEnd(end: End) {
    end.EndMarker? ==>
      HasPrefix(end.line, "--") && Contains(ToLower(end.line), "+end") && !IsStatementStart(end.line) &&
        (IsStatementEnd(end.line) || !Opens(end.line))
  }

  /** A start marker in any case, the statement with its comments, the end, and what follows it up to the
      next start marker. */
  datatype Block = Block(start: string, body: seq<Item>, end: End, gap: seq<Item>)

  predicate ProperBlock(block: Block) {
    IsStatementStart(block.start) && ProperEnd(block.end) &&
    (forall i :: 0 <= i < |block.body| ==> Proper(block.body[i])) &&
    (forall i :: 0 <= i < |block.gap| ==> Proper(block.gap[i]))
  }

  function EndLines(end: End): seq<string> {
    match end
    case NoEnd => []
    case EndMarker(line) => [line]
  }

  function BlockLines(block: Block): seq<string> {
    [block.start] + (Lines(block.body) + (EndLines(block.end) + Lines(block.gap)))
  }

  function AllLines(blocks: seq<Block>): seq<string> {
    if blocks == [] then [] else BlockLines(blocks[0]) + AllLines(blocks[1..])
  }

  /** Whatever stands before the first start marker, and the blocks */
  datatype Document = Document(prelude: seq<Item>, blocks: seq<Block>)

  predicate ProperDocument(document: Document) {
    (forall i :: 0 <= i < |document.prelude| ==> Proper(document.prelude[i])) &&
    (forall i :: 0 <= i < |document.blocks| ==> ProperBlock(document.blocks[i]))
  }

  function DocumentLines(document: Document): seq<string> {
    Lines(document.prelude) + AllLines(document.blocks)
  }

  /** The end marker is spelled in lower case, the only spelling that the scan takes for one. */
  predicate EndsExactly(block: Block) {
    block.end.EndMarker? && IsStatementEnd(block.end.line)
  }

  function NotEmpty(statement: string): seq<string> {
    if statement != "" then [statement] else []
  }

  /** An exact end divides the code of a block into two statements, of which the first may be empty. Any
      other end divides nothing, and without code there is no statement. */
  function Emission(block: Block): seq<string> {
    var body, gap := CodeOf(block.body), CodeOf(block.gap);
    if EndsExactly(block) then [body] + NotEmpty(gap) else NotEmpty(body + gap)
  }

  function AllEmitted(blocks: seq<Block>): seq<string> {
    if blocks == [] then []
    else Emission(blocks[0]) + AllEmitted(blocks[1..])
  }

  function Emitted(document: Document): seq<string> {
    NotEmpty(CodeOf(document.prelude)) + AllEmitted(document.blocks)
  }

  // ---------------------------------------------------------------------------------------

  lemma {:induction false} FeedConcat(s: Scan, a: seq<string>, b: seq<string>)
    ensures FeedAll(s, a + b) == FeedAll(FeedAll(s, a), b)
    decreases |a|
  {
    hide Feed;
    if a == [] {
      assert a + b == b;
    } else {
      assert (a + b)[1..] == a[1..] + b;
      FeedConcat(Feed(s, a[0]), a[1..], b);
    }
  }

  lemma FeedOne(s: Scan, line: string)
    ensures FeedAll(s, [line]) == Feed(s, line)
  {
    hide Feed;
    assert FeedAll(Feed(s, line), [line][1..]) == Feed(s, line);
  }

  lemma LoweringKeepsDashes(line: string)
    ensures HasPrefix(ToLower(line), "--") <==> HasPrefix(line, "--")
  {
    var lower := ToLower(line);
    if HasPrefix(lower, "--") {
      assert lower[0] == lower[..2][0] && lower[1] == lower[..2][1];
      assert line[..2] == "--";
    }
    if HasPrefix(line, "--") {
      assert line[0] == line[..2][0] && line[1] == line[..2][1];
      assert lower[..2] == "--";
    }
  }

  lemma CodeIsNoMarker(line: string)
    requires !HasPrefix(line, "--")
    ensures !Marker(line)
  {
    LoweringKeepsDashes(line);
  }

  lemma {:induction false} FeedMiddle(s: Scan, middle: seq<string>)
    requires s.multiline
    requires forall i :: 0 <= i < |middle| ==> !Marker(middle[i]) && !Contains(middle[i], "/*") && !Contains(middle[i], "*/")
    ensures FeedAll(s, middle) == s
    decreases |middle|
  {
    hide Blank, Contains, IsStatementStart, IsStatementEnd;
    if middle != [] {
      assert Feed(s, middle[0]) == s;
      FeedMiddle(s, middle[1..]);
    }
  }

  lemma {:induction false} BlankHasNo(line: string, sub: string)
    requires Blank(line) && sub != "" && !IsSpace(sub[0])
    ensures !Contains(line, sub)
  {
    if line != "" {
      BlankHasNo(line[1..], sub);
    }
  }

  /** Outside comments, an item adds its code and leaves no comment open. */
  lemma FeedItem(s: Scan, item: Item)
    requires !s.multiline && Proper(item)
    ensures FeedAll(s, ItemLines(item)) == s.(builder := s.builder + ItemCode(item))
  {
    hide Contains, IsStatementStart, IsStatementEnd, Blank;
    match item
    case Code(line) =>
      FeedOne(s, line);
      CodeIsNoMarker(line);
    case Comment(line) =>
      FeedOne(s, line);
    case Empty(line) =>
      FeedOne(s, line);
    case BlockComment(first, middle, last) =>
      var open := s.(multiline := true);
      NotBlank(first, last);
      FeedConcat(s, [first] + middle, [last]);
      FeedConcat(s, [first], middle);
      FeedOne(s, first);
      FeedMiddle(open, middle);
      FeedOne(open, last);
  }

  lemma NotBlank(first: string, last: string)
    requires Contains(first, "/*") && Contains(last, "*/")
    ensures !Blank(first) && !Blank(last)
  {
    if Blank(first) {
      BlankHasNo(first, "/*");
    }
    if Blank(last) {
      BlankHasNo(last, "*/");
    }
  }

  lemma ItemsUnfold(items: seq<Item>)
    requires items != []
    ensures Lines(items) == ItemLines(items[0]) + Lines(items[1..])
    ensures CodeOf(items) == ItemCode(items[0]) + CodeOf(items[1..])
  {
  }

  lemma {:induction false} FeedItems(s: Scan, items: seq<Item>)
    requires !s.multiline && forall i :: 0 <= i < |items| ==> Proper(items[i])
    ensures FeedAll(s, Lines(items)) == s.(builder := s.builder + CodeOf(items))
    decreases |items|
  {
    hide Proper, Feed, ItemLines, ItemCode;
    if items == [] {
      assert s.builder + "" == s.builder;
    } else {
      hide FeedAll, Lines, CodeOf;
      ItemsUnfold(items);
      var next := s.(builder := s.builder + ItemCode(items[0]));
      FeedConcat(s, ItemLines(items[0]), Lines(items[1..]));
      FeedItem(s, items[0]);
      FeedItems(next, items[1..]);
      assert next.builder + CodeOf(items[1..]) == s.builder + CodeOf(items);
    }
  }

  lemma FeedEnd(s: Scan, end: End)
    requires !s.multiline && ProperEnd(end)
    ensures FeedAll(s, EndLines(end)) == if end.EndMarker? && IsStatementEnd(end.line) then AddAndReset(s) else s
  {
    hide Contains, IsStatementStart, Blank;
    if end.EndMarker? {
      FeedOne(s, end.line);
      DashesAreNotBlank(end.line);
    }
  }

  lemma DashesAreNotBlank(line: string)
    requires HasPrefix(line, "--")
    ensures !Blank(line)
  {
    assert line[0] == '-';
  }

  /** The scan after a block: what was pending is flushed, then the block's code is pending; if the block ends
      exactly, only what follows its end is. */
  function AfterBlock(s: Scan, block: Block): Scan {
    var flushed := if s.builder != "" then AddAndReset(s) else s;
    var filled := flushed.(builder := CodeOf(block.body));
    var ended := if EndsExactly(block) then AddAndReset(filled) else filled;
    ended.(builder := ended.builder + CodeOf(block.gap))
  }

  lemma FeedBlock(s: Scan, block: Block)
    requires !s.multiline && ProperBlock(block)
    ensures FeedAll(s, BlockLines(block)) == AfterBlock(s, block) && !AfterBlock(s, block).multiline
  {
    hide Proper, ProperEnd, FeedAll, Blank, IsStatementStart, IsStatementEnd, CheckComment;
    var flushed := if s.builder != "" then AddAndReset(s) else s;
    var filled := flushed.(builder := CodeOf(block.body));
    var ended := if EndsExactly(block) then AddAndReset(filled) else filled;
    FeedConcat(s, [block.start], Lines(block.body) + (EndLines(block.end) + Lines(block.gap)));
    FeedOne(s, block.start);
    StartIsNotBlank(block.start);
    FeedConcat(flushed, Lines(block.body), EndLines(block.end) + Lines(block.gap));
    FeedItems(flushed, block.body);
    FeedConcat(filled, EndLines(block.end), Lines(block.gap));
    FeedEnd(filled, block.end);
    FeedItems(ended, block.gap);
    assert "" + CodeOf(block.body) == CodeOf(block.body);
  }

  lemma AfterBlockEmits(s: Scan, block: Block)
    ensures Finish(AfterBlock(s, block)) == Finish(s) + Emission(block)
  {
    hide CodeOf, EndsExactly;
    assert "" + CodeOf(block.gap) == CodeOf(block.gap);
  }

  lemma StartIsNotBlank(line: string)
    requires IsStatementStart(line)
    ensures !Blank(line)
  {
    LoweringKeepsDashes(line);
    assert line[0] == '-';
  }

  lemma {:induction false} FeedBlocks(s: Scan, blocks: seq<Block>)
    requires !s.multiline && forall i :: 0 <= i < |blocks| ==> ProperBlock(blocks[i])
    ensures Finish(FeedAll(s, AllLines(blocks))) == Finish(s) + AllEmitted(blocks)
    decreases |blocks|
  {
    hide ProperBlock, BlockLines, AfterBlock, Emission, Finish;
    if blocks == [] {
      assert Finish(s) + [] == Finish(s);
    } else {
      hide FeedAll;
      var block, rest := blocks[0], blocks[1..];
      FeedConcat(s, BlockLines(block), AllLines(rest));
      FeedBlock(s, block);
      FeedBlocks(AfterBlock(s, block), rest);
      AfterBlockEmits(s, block);
      assert Finish(s) + Emission(block) + AllEmitted(rest) == Finish(s) + (Emission(block) + AllEmitted(rest));
    }
  }

  /** Every document parses to its code, without comments and blank lines, divided at start markers and
      at exact ends. */
  lemma ParseDocument(document: Document)
    requires ProperDocument(document)
    ensures Parse(DocumentLines(document)) == Emitted(document)
  {
    hide Proper, ProperBlock, FeedAll, Lines, AllLines, AllEmitted, CodeOf;
    var s, code := Scan([], "", false), CodeOf(document.prelude);
    FeedConcat(s, Lines(document.prelude), AllLines(document.blocks));
    FeedItems(s, document.prelude);
    assert "" + code == code;
    FeedBlocks(s.(builder := code), document.blocks);
  }

  // ---------------------------------------------------------------------------------------
  // Lines outside documents of this form

  /** Lines of spaces and tabs are skipped everywhere. */
  lemma BlankLine(s: Scan, line: string)
    requires forall i :: 0 <= i < |line| ==> line[i] == ' ' || line[i] == '\t' || line[i] == '\r'
    ensures Feed(s, line) == s
  {
  }

  lemma VisibleIsNotBlank(line: string, i: nat)
    requires i < |line| && '!' <= line[i] <= '~'
    ensures !Blank(line)
  {
  }

  /** A comment that is still open when a marker comes: an end closes it; a start closes it exactly if code is
      pending, and the comment goes on otherwise. */
  lemma UnclosedComment(s: Scan, first: string, middle: seq<string>, marker: string)
    requires !s.multiline && Opens(first) && !Marker(first) && Marker(marker)
    requires forall i :: 0 <= i < |middle| ==> !Marker(middle[i]) && !Contains(middle[i], "/*") && !Contains(middle[i], "*/")
    ensures FeedAll(s, [first] + middle + [marker]) ==
      if IsStatementStart(marker) && s.builder == "" then Scan(s.statements, "", true)
      else Scan(s.statements + [s.builder], "", false)
  {
    hide Contains, IsStatementStart, IsStatementEnd, Blank;
    var open := s.(multiline := true);
    OpeningIsNotBlank(first);
    MarkerIsNotBlank(marker);
    FeedConcat(s, [first] + middle, [marker]);
    FeedConcat(s, [first], middle);
    FeedOne(s, first);
    FeedMiddle(open, middle);
    FeedOne(open, marker);
  }

  lemma OpeningIsNotBlank(first: string)
    requires Contains(first, "/*")
    ensures !Blank(first)
  {
    if Blank(first) {
      BlankHasNo(first, "/*");
    }
  }

  lemma MarkerIsNotBlank(line: string)
    requires Marker(line)
    ensures !Blank(line)
  {
    LoweringKeepsDashes(line);
    assert line[0] == '-';
  }

  /** Comments do not nest: a second opening ends the first, and its line is code unless it starts like a
      comment. */
  lemma CommentsDoNotNest(s: Scan, line: string)
    requires s.multiline && Opens(line) && !Marker(line)
    ensures Feed(s, line) ==
      if "--" <= line || "/*" <= line then Scan(s.statements, s.builder, false)
      else Scan(s.statements, s.builder + line, false)
  {
    OpeningIsNotBlank(line);
  }

  // ---------------------------------------------------------------------------------------
  // The spelling of start markers

  predicate SameLetter(c: char, d: char) {
    c == d || ('a' <= c <= 'z' && c as int - d as int == 32) || ('A' <= c <= 'Z' && d as int - c as int == 32)
  }

  /** a and b differ at most in the case of letters. */
  predicate SameLetters(a: string, b: string) {
    |a| == |b| && forall i :: 0 <= i < |a| ==> SameLetter(a[i], b[i])
  }

  ghost predicate SpeltAt(line: string, word: string, i: nat) {
    i + |word| <= |line| && SameLetters(line[i..i + |word|], word)
  }

  /** Start markers may be written in any case: a line is one exactly if it starts with two dashes and holds,
      somewhere, "+start" but for the case of letters. */
  lemma StartMeaning(line: string)
    ensures IsStatementStart(line) <==> "--" <= line && exists i :: SpeltAt(line, "+start", i)
  {
    LoweringKeepsDashes(line);
    ContainsMeaning(ToLower(line), "+start");
    forall i: nat
      ensures StandsAt(ToLower(line), "+start", i) <==> SpeltAt(line, "+start", i)
    {
      if i + 6 <= |line| {
        LoweredPart(line[i..i + 6], "+start");
        assert ToLower(line)[i..i + 6] == ToLower(line[i..i + 6]);
      }
    }
  }

  lemma LoweredPart(a: string, b: string)
    requires forall i :: 0 <= i < |b| ==> !('A' <= b[i] <= 'Z')
    ensures ToLower(a) == b <==> SameLetters(a, b)
  {
    if ToLower(a) == b {
      assert forall i :: 0 <= i < |a| ==> ToLower(a)[i] == b[i];
    }
  }

  // ---------------------------------------------------------------------------------------
  // The spelling of end markers

  /** One statement, and nothing after its end */
  predicate Whole(block: Block) {
    CodeOf(block.body) != "" && CodeOf(block.gap) == ""
  }

  /** The blocks differ only in their markers, and more of those in a are exact ends. */
  predicate Remarked(a: Block, b: Block) {
    a.body == b.body && a.gap == b.gap && (EndsExactly(b) ==> EndsExactly(a))
  }

  lemma EmissionRemarked(a: Block, b: Block)
    requires Remarked(a, b)
    ensures |Emission(b)| <= |Emission(a)|
    ensures |Emission(b)| == |Emission(a)| ==> Emission(b) == Emission(a)
    ensures Emission(b) == Emission(a) <==> (EndsExactly(a) && !EndsExactly(b) ==> Whole(a))
  {
    hide EndsExactly, CodeOf;
    assert CodeOf(a.body) + "" == CodeOf(a.body);
  }

  /** Which blocks the difference in markers must not hurt */
  predicate Unhurt(more: seq<Block>, fewer: seq<Block>)
    requires |more| == |fewer|
  {
    forall i :: 0 <= i < |more| ==> (EndsExactly(more[i]) && !EndsExactly(fewer[i]) ==> Whole(more[i]))
  }

  lemma UnhurtTail(more: seq<Block>, fewer: seq<Block>)
    requires |more| == |fewer| > 0
    ensures Unhurt(more, fewer) <==>
      (EndsExactly(more[0]) && !EndsExactly(fewer[0]) ==> Whole(more[0])) && Unhurt(more[1..], fewer[1..])
  {
    hide EndsExactly, Whole;
    if Unhurt(more, fewer) {
      assert forall i :: 0 <= i < |more[1..]| ==> more[1..][i] == more[i + 1] && fewer[1..][i] == fewer[i + 1];
    }
    if (EndsExactly(more[0]) && !EndsExactly(fewer[0]) ==> Whole(more[0])) && Unhurt(more[1..], fewer[1..]) {
      forall i | 0 <= i < |more|
        ensures EndsExactly(more[i]) && !EndsExactly(fewer[i]) ==> Whole(more[i])
      {
        if i > 0 {
          assert more[i] == more[1..][i - 1] && fewer[i] == fewer[1..][i - 1];
        }
      }
    }
  }

  lemma {:induction false} EmittedRemarked(more: seq<Block>, fewer: seq<Block>)
    requires |more| == |fewer| && forall i :: 0 <= i < |more| ==> Remarked(more[i], fewer[i])
    ensures |AllEmitted(fewer)| <= |AllEmitted(more)|
    ensures AllEmitted(more) == AllEmitted(fewer) <==> Unhurt(more, fewer)
  {
    if more != [] {
      hide Remarked, Emission, Unhurt;
      EmittedRemarked(more[1..], fewer[1..]);
      UnhurtTail(more, fewer);
      EmissionRemarked(more[0], fewer[0]);
      if Emission(more[0]) == Emission(fewer[0]) {
        Cancel(Emission(more[0]), AllEmitted(more[1..]), AllEmitted(fewer[1..]));
      }
    }
  }

  lemma Cancel(h: seq<string>, a: seq<string>, b: seq<string>)
    ensures h + a == h + b <==> a == b
  {
    assert a == (h + a)[|h|..] && b == (h + b)[|h|..];
  }

  /** If two documents differ only in their markers, and all exact ends of b are exact in a, they parse alike
      exactly if every block that ends exactly in a only is whole. */
  lemma MarkersMatter(a: Document, b: Document)
    requires ProperDocument(a) && ProperDocument(b) && a.prelude == b.prelude
    requires |a.blocks| == |b.blocks| && forall i :: 0 <= i < |a.blocks| ==> Remarked(a.blocks[i], b.blocks[i])
    ensures Parse(DocumentLines(a)) == Parse(DocumentLines(b)) <==> Unhurt(a.blocks, b.blocks)
  {
    hide ProperDocument, Parse, Unhurt, Remarked, CodeOf, AllEmitted;
    ParseDocument(a);
    ParseDocument(b);
    EmittedRemarked(a.blocks, b.blocks);
    Cancel(NotEmpty(CodeOf(a.prelude)), AllEmitted(a.blocks), AllEmitted(b.blocks));
  }

  /** The same document without any end marker */
  function Unmarked(document: Document): (r: Document)
    ensures r.prelude == document.prelude && |r.blocks| == |document.blocks|
  {
    document.(blocks :=
      seq(|document.blocks|, i requires 0 <= i < |document.blocks| => document.blocks[i].(end := NoEnd)))
  }

  /** End markers are optional exactly in documents in which every block with an exact end is whole. */
  lemma EndMarkersOptional(document: Document)
    requires ProperDocument(document)
    ensures Parse(DocumentLines(document)) == Parse(DocumentLines(Unmarked(document))) <==>
            forall i :: 0 <= i < |document.blocks| && EndsExactly(document.blocks[i]) ==> Whole(document.blocks[i])
  {
    hide Proper, Parse, DocumentLines, Whole;
    MarkersMatter(document, Unmarked(document));
  }

  lemma LoweringTwice(line: string)
    ensures ToLower(ToLower(line)) == ToLower(line)
  {
  }

  /** The end in lower case */
  function LowerEnd(end: End): End {
    match end
    case NoEnd => NoEnd
    case EndMarker(line) => EndMarker(ToLower(line))
  }

  lemma LowerBlock(block: Block)
    requires ProperBlock(block)
    ensures var lower := block.(end := LowerEnd(block.end));
      ProperBlock(lower) && Remarked(lower, block) && (EndsExactly(lower) <==> block.end.EndMarker?) &&
      (Whole(lower) <==> Whole(block))
  {
    hide Contains, ToLower, Proper;
    if block.end.EndMarker? {
      LoweringKeepsDashes(block.end.line);
      LoweringTwice(block.end.line);
    }
  }

  /** The same document with every end marker in lower case */
  function Lowered(document: Document): (r: Document)
    ensures r.prelude == document.prelude && |r.blocks| == |document.blocks|
  {
    document.(blocks :=
      seq(|document.blocks|, i requires 0 <= i < |document.blocks| =>
        document.blocks[i].(end := LowerEnd(document.blocks[i].end))))
  }

  /** An end marker in another case, which the scan takes for a comment */
  predicate OtherEnd(block: Block) {
    block.end.EndMarker? && !EndsExactly(block)
  }

  /** End markers are case-insensitive exactly in documents in which every block with an end marker that is
      not exact is whole. */
  lemma EndMarkersCaseInsensitive(document: Document)
    requires ProperDocument(document)
    ensures Parse(DocumentLines(document)) == Parse(DocumentLines(Lowered(document))) <==>
            forall i :: 0 <= i < |document.blocks| && OtherEnd(document.blocks[i]) ==> Whole(document.blocks[i])
  {
    hide Proper, ProperBlock, Parse, DocumentLines, Whole, LowerEnd, Remarked, EndsExactly;
    var lowered := Lowered(document);
    forall i | 0 <= i < |document.blocks|
      ensures ProperBlock(lowered.blocks[i]) && Remarked(lowered.blocks[i], document.blocks[i])
      ensures EndsExactly(lowered.blocks[i]) <==> document.blocks[i].end.EndMarker?
      ensures Whole(lowered.blocks[i]) <==> Whole(document.blocks[i])
    {
      LowerBlock(document.blocks[i]);
    }
    MarkersMatter(lowered, document);
  }

  lemma {:induction false} ContainedChar(s: string, sub: string, c: char)
    requires Contains(s, sub) && c in sub
    ensures c in s
  {
    if !(sub <= s) {
      ContainedChar(s[1..], sub, c);
    }
  }

  lemma MarkersInLowerCase()
    ensures ToLower("-- +START") == "-- +start" && ToLower("-- +END") == "-- +end"
    ensures Contains("-- +start", "+start") && Contains("-- +end", "+end")
  {
    assert "-- +start"[1..] == "- +start" && "- +start"[1..] == " +start" && " +start"[1..] == "+start";
    assert "-- +end"[1..] == "- +end" && "- +end"[1..] == " +end" && " +end"[1..] == "+end";
  }

  lemma ContainedIn(s: string, sub: string, c: char)
    requires c in sub && c !in s
    ensures !Contains(s, sub)
  {
    if Contains(s, sub) {
      ContainedChar(s, sub, c);
    }
  }

  lemma MarkersRead()
    ensures IsStatementStart("-- +START") && ProperEnd(EndMarker("-- +END")) && !IsStatementEnd("-- +END")
  {
    hide Contains, ToLower;
    MarkersInLowerCase();
    assert "+end"[1] == 'e' && "+start"[1] == 's' && "/*"[0] == '/';
    ContainedIn("-- +END", "+end", 'e');
    ContainedIn("-- +end", "+start", 's');
    ContainedIn("-- +END", "/*", '/');
  }

  lemma ParseOne(block: Block)
    requires ProperBlock(block)
    ensures Parse(BlockLines(block)) == Emission(block)
  {
    hide ProperBlock, Parse, Emission, BlockLines;
    var document := Document([], [block]);
    ParseDocument(document);
    assert AllLines([block]) == BlockLines(block) + AllLines([]) == BlockLines(block);
    assert AllEmitted([block]) == Emission(block) + AllEmitted([]) == Emission(block);
    assert DocumentLines(document) == [] + AllLines([block]) == BlockLines(block);
    assert Emitted(document) == [] + AllEmitted([block]) == Emission(block);
  }

  lemma OneLine(line: string)
    ensures Lines([Code(line)]) == [line] && CodeOf([Code(line)]) == line
  {
    assert Lines([Code(line)]) == [line] + Lines([]) && CodeOf([Code(line)]) == line + CodeOf([]);
  }

  /** The two ways in which the spelling of an end shows: two statements run together, and an empty one. */
  lemma SpellingShows(start: string, a: string, end: string, b: string)
    requires IsStatementStart(start) && ProperEnd(EndMarker(end)) && !IsStatementEnd(end)
    requires Proper(Code(a)) && Proper(Code(b))
    ensures Parse([start, a, end, b]) == [a + b] && Parse([start, a, ToLower(end), b]) == [a, b]
    ensures Parse([start, end]) == [] && Parse([start, ToLower(end)]) == [""]
  {
    OneStatement(start, a, end, b);
    NoStatement(start, end);
    LowerBlock(Block(start, [], EndMarker(end), []));
    OneStatement(start, a, ToLower(end), b);
    NoStatement(start, ToLower(end));
  }

  lemma OneStatement(start: string, a: string, end: string, b: string)
    requires IsStatementStart(start) && ProperEnd(EndMarker(end)) && Proper(Code(a)) && Proper(Code(b))
    ensures Parse([start, a, end, b]) == if IsStatementEnd(end) then [a, b] else [a + b]
  {
    hide Parse, ProperEnd, IsStatementStart, IsStatementEnd, Lines, CodeOf;
    var block := Block(start, [Code(a)], EndMarker(end), [Code(b)]);
    OneLine(a);
    OneLine(b);
    ParseOne(block);
    assert a != "" && b != "" by {
      CodeIsNotEmpty(a);
      CodeIsNotEmpty(b);
    }
    assert BlockLines(block) == [start, a, end, b];
  }

  lemma CodeIsNotEmpty(a: string)
    requires Proper(Code(a))
    ensures a != ""
  {
  }

  lemma NoStatement(start: string, end: string)
    requires IsStatementStart(start) && ProperEnd(EndMarker(end))
    ensures Parse([start, end]) == if IsStatementEnd(end) then [""] else []
  {
    hide Parse, ProperEnd, IsStatementStart, IsStatementEnd;
    var block := Block(start, [], EndMarker(end), []);
    ParseOne(block);
    assert BlockLines(block) == [start, end];
  }

  /** There are such lines. */
  lemma SpellingExample()
    ensures Parse(["-- +START", "A", "-- +END", "B"]) == ["AB"]
    ensures Parse(["-- +START", "A", "-- +end", "B"]) == ["A", "B"]
    ensures Parse(["-- +START", "-- +END"]) == [] && Parse(["-- +START", "-- +end"]) == [""]
  {
    hide Parse, ProperEnd, IsStatementStart, IsStatementEnd, ToLower;
    MarkersRead();
    MarkersInLowerCase();
    LetterIsCode('A');
    LetterIsCode('B');
    SpellingShows("-- +START", "A", "-- +END", "B");
    assert "A" + "B" == "AB";
  }

  lemma LetterIsCode(c: char)
    requires 'A' <= c <= 'Z'
    ensures Proper(Code([c]))
  {
    assert [c][0] == c && !IsSpace(c);
    assert "/*"[0] == '/';
    ContainedIn([c], "/*", '/');
  }
}
