/** How lines are written, independently of how they are scanned: words made of plain characters
    and quoted stretches, operators, and the blanks between them. Scanning such a line gives
    back what it was written from. */
module Lexemes {
  import opened Sequences
  import opened Tokenizer
  import opened Splitting
  import opened CommandList

  datatype Segment = Chars(text: string) | InSingle(text: string) | InDouble(text: string)

  datatype Lexeme = Word(segments: seq<Segment>) | Operator(c: char)

  predicate IsOrdinary(c: char) {
    c != ' ' && c != '\t' && c != ';' && c != '|' && c != '&' && c != '\'' && c != '"'
  }

  ghost predicate IsSegment(s: Segment) {
    match s
    case Chars(text) => |text| > 0 && forall c | c in text :: IsOrdinary(c)
    case InSingle(text) => '\'' !in text
    case InDouble(text) => '"' !in text
  }

  function Spell(s: Segment): string {
    match s
    case Chars(text) => text
    case InSingle(text) => "'" + text + "'"
    case InDouble(text) => "\"" + text + "\""
  }

  function SpellAll(segments: seq<Segment>): string {
    if segments == [] then "" else Spell(segments[0]) + SpellAll(segments[1..])
  }

  ghost predicate IsLexeme(l: Lexeme) {
    match l
    case Word(segments) => segments != [] && AreSegments(segments)
    case Operator(c) => c == ';' || c == '|' || c == '&'
  }

  function Spelling(l: Lexeme): string {
    if l.Word? then SpellAll(l.segments) else [l.c]
  }

  /** The token that a lexeme becomes: one pair of equal quotes around the whole word goes. */
  function Meaning(l: Lexeme): string {
    var raw := Spelling(l);
    if |raw| >= 2 && raw[0] == raw[|raw| - 1] && (raw[0] == '\'' || raw[0] == '"') then raw[1..|raw| - 1] else raw
  }

  lemma MeaningOfOneSegment(s: Segment)
    requires IsSegment(s)
    ensures Meaning(Word([s])) == s.text
  {
    assert SpellAll([s]) == Spell(s) + SpellAll([]);
    assert Spell(s) + "" == Spell(s);
    if s.Chars? {
      assert s.text[0] in s.text;
    }
  }

  /** A lexeme and the blanks in front of it. */
  datatype Piece = Piece(gap: string, lexeme: Lexeme)

  function Line(pieces: seq<Piece>, end: string): string {
    if pieces == [] then end else pieces[0].gap + (Spelling(pieces[0].lexeme) + Line(pieces[1..], end))
  }

  function Meanings(pieces: seq<Piece>): seq<string> {
    if pieces == [] then [] else [Meaning(pieces[0].lexeme)] + Meanings(pieces[1..])
  }

  /** What may stand behind a word. */
  predicate EndsWord(rest: string) {
    rest == "" || rest[0] == ' ' || rest[0] == '\t' || rest[0] == ';' || rest[0] == '|' || rest[0] == '&'
  }

  /** Between two words there is a blank, and whatever ends the line does not continue one. */
  ghost predicate IsLayout(pieces: seq<Piece>, end: string) {
    && (forall p | p in pieces :: IsGap(p.gap) && IsLexeme(p.lexeme))
    && (forall i | 0 < i < |pieces| && pieces[i - 1].lexeme.Word? && pieces[i].lexeme.Word? :: pieces[i].gap != "")
    && (pieces != [] && pieces[|pieces| - 1].lexeme.Word? ==> EndsWord(end))
  }

  // The scan of one segment, one word, one gap

  lemma {:induction false} OrdinaryRunEnds(line: string, i: nat, end: nat)
    requires i <= end <= |line| && forall k | i <= k < end :: IsOrdinary(line[k])
    ensures WordEnd(line, i, Plain) == WordEnd(line, end, Plain)
    decreases end - i
  {
    if i < end {
      OrdinaryRunEnds(line, i + 1, end);
    }
  }

  lemma QuotedRunPasses(line: string, i: nat, close: nat, quote: char)
    requires quote == '\'' || quote == '"'
    requires i < close < |line| && line[i] == quote && line[close] == quote
    requires forall k | i < k < close :: line[k] != quote
    ensures WordEnd(line, i, Plain) == WordEnd(line, close + 1, Plain)
  {
    QuotedRunEnds(line, i + 1, close, quote);
  }

  lemma SegmentPasses(line: string, i: nat, s: Segment)
    requires IsSegment(s) && Holds(line, i, Spell(s))
    ensures WordEnd(line, i, Plain) == WordEnd(line, i + |Spell(s)|, Plain)
  {
    var raw, n := Spell(s), |Spell(s)|;
    match s
    case Chars(text) =>
      forall k | i <= k < i + n ensures IsOrdinary(line[k]) {
        assert line[k] == text[k - i] && text[k - i] in text;
      }
      OrdinaryRunEnds(line, i, i + n);
    case InSingle(text) =>
      assert forall k | i < k < i + n - 1 :: line[k] == raw[k - i] == text[k - i - 1];
      QuotedRunPasses(line, i, i + n - 1, '\'');
    case InDouble(text) =>
      assert forall k | i < k < i + n - 1 :: line[k] == raw[k - i] == text[k - i - 1];
      QuotedRunPasses(line, i, i + n - 1, '"');
  }

  /** `part` stands in the line at position i. */
  ghost predicate Holds(line: string, i: nat, part: string) {
    i + |part| <= |line| && forall k | i <= k < i + |part| :: line[k] == part[k - i]
  }

  lemma HoldsParts(line: string, i: nat, a: string, b: string)
    requires Holds(line, i, a + b)
    ensures Holds(line, i, a) && Holds(line, i + |a|, b)
  {
    forall k | i <= k < i + |a| ensures line[k] == a[k - i] {
      assert line[k] == (a + b)[k - i];
    }
    forall k | i + |a| <= k < i + |a| + |b| ensures line[k] == b[k - i - |a|] {
      assert line[k] == (a + b)[k - i];
    }
  }

  ghost predicate AreSegments(segments: seq<Segment>) {
    forall k | 0 <= k < |segments| :: IsSegment(segments[k])
  }

  lemma FirstSegmentPasses(line: string, i: nat, s: Segment, rest: string, next: nat)
    requires IsSegment(s) && Holds(line, i, Spell(s) + rest) && next == i + |Spell(s)|
    ensures Holds(line, next, rest)
    ensures WordEnd(line, i, Plain) == WordEnd(line, next, Plain)
  {
    HoldsParts(line, i, Spell(s), rest);
    SegmentPasses(line, i, s);
  }

  lemma SegmentsFromHead(segments: seq<Segment>)
    requires segments != [] && AreSegments(segments)
    ensures IsSegment(segments[0]) && AreSegments(segments[1..])
    ensures SpellAll(segments) == Spell(segments[0]) + SpellAll(segments[1..])
    ensures |SpellAll(segments)| == |Spell(segments[0])| + |SpellAll(segments[1..])|
  {
  }

  lemma {:induction false} SegmentsPass(line: string, i: nat, segments: seq<Segment>, end: nat)
    requires AreSegments(segments) && Holds(line, i, SpellAll(segments)) && end == i + |SpellAll(segments)|
    ensures WordEnd(line, i, Plain) == WordEnd(line, end, Plain)
    decreases |segments|
  {
    if segments != [] {
      SegmentsFromHead(segments);
      var next := i + |Spell(segments[0])|;
      FirstSegmentPasses(line, i, segments[0], SpellAll(segments[1..]), next);
      SegmentsPass(line, next, segments[1..], end);
    }
  }

  lemma WordStarts(segments: seq<Segment>)
    requires IsLexeme(Word(segments))
    ensures var raw := SpellAll(segments); raw != "" && (IsOrdinary(raw[0]) || raw[0] == '\'' || raw[0] == '"')
  {
    var s := segments[0];
    assert SpellAll(segments)[0] == Spell(s)[0];
    if s.Chars? {
      assert s.text[0] in s.text;
    }
  }

  lemma WordIsScanned(segments: seq<Segment>, rest: string)
    requires IsLexeme(Word(segments)) && EndsWord(rest)
    ensures var raw := SpellAll(segments);
      raw != "" && !Splits(Plain, (raw + rest)[0]) && WordEnd(raw + rest, 0, Plain) == |raw|
  {
    var raw := SpellAll(segments);
    WordStarts(segments);
    PrefixHolds(raw, rest);
    SegmentsPass(raw + rest, 0, segments, |raw|);
    assert (raw + rest)[0] == raw[0];
    assert rest != "" ==> (raw + rest)[|raw|] == rest[0];
  }

  lemma TokensOfLexeme(l: Lexeme, rest: string)
    requires IsLexeme(l) && (l.Word? ==> EndsWord(rest))
    ensures Tokens(Spelling(l) + rest) == [Meaning(l)] + Tokens(rest)
  {
    var raw, line := Spelling(l), Spelling(l) + rest;
    TokensShift(raw, rest);
    if l.Word? {
      WordIsScanned(l.segments, rest);
      assert line[0..|raw|] == raw;
      TokensAtWord(line, 0, raw, |raw|);
    }
  }

  lemma {:induction false} TokensBehindGap(gap: string, rest: string)
    requires IsGap(gap)
    ensures Tokens(gap + rest) == Tokens(rest)
  {
    if gap == "" {
      assert gap + rest == rest;
    } else {
      TokensBehindGap(gap[1..], rest);
      HeadOfConcat(gap, rest);
      TokensShift([gap[0]], gap[1..] + rest);
    }
  }

  lemma LayoutFromHead(pieces: seq<Piece>, end: string)
    requires pieces != [] && IsLayout(pieces, end)
    ensures IsLayout(pieces[1..], end) && IsGap(pieces[0].gap) && IsLexeme(pieces[0].lexeme)
    ensures pieces[0].lexeme.Word? ==> EndsWord(Line(pieces[1..], end))
  {
    var rest := pieces[1..];
    assert pieces[0] in pieces;
    assert forall i | 0 <= i < |rest| :: rest[i] == pieces[i + 1];
    if pieces[0].lexeme.Word? && rest != [] {
      assert rest[0] == pieces[1] && rest[0] in pieces;
    }
  }

  /** A line that is laid out from lexemes has exactly their meanings as its tokens, and then
      those of whatever ends it. */
  lemma {:induction false} TokensOfLayout(pieces: seq<Piece>, end: string)
    requires IsLayout(pieces, end)
    ensures Tokens(Line(pieces, end)) == Meanings(pieces) + Tokens(end)
    decreases |pieces|
  {
    if pieces == [] {
      assert Meanings(pieces) + Tokens(end) == Tokens(end);
    } else {
      var behind := Line(pieces[1..], end);
      LayoutFromHead(pieces, end);
      TokensOfLayout(pieces[1..], end);
      TokensBehindGap(pieces[0].gap, Spelling(pieces[0].lexeme) + behind);
      TokensOfLexeme(pieces[0].lexeme, behind);
      ConcatAssociates([Meaning(pieces[0].lexeme)], Meanings(pieces[1..]), Tokens(end));
    }
  }

  /** A quote that is not closed takes all the rest of the line, blanks and operators included. */
  lemma UnclosedQuoteTakesTheRest(segments: seq<Segment>, quote: char, text: string)
    requires AreSegments(segments) && (quote == '\'' || quote == '"') && quote !in text
    ensures Tokens(SpellAll(segments) + [quote] + text) == [Unquote(SpellAll(segments) + [quote] + text)]
  {
    var line := SpellAll(segments) + [quote] + text;
    UnclosedWordEnds(segments, quote, text);
    assert line[0..|line|] == line && TokensFrom(line, |line|) == [];
    TokensAtWord(line, 0, line, |line|);
  }

  lemma UnclosedWordEnds(segments: seq<Segment>, quote: char, text: string)
    requires AreSegments(segments) && (quote == '\'' || quote == '"') && quote !in text
    ensures var line := SpellAll(segments) + [quote] + text;
      WordEnd(line, 0, Plain) == |line| && !Splits(Plain, line[0])
  {
    var raw, line := SpellAll(segments), SpellAll(segments) + [quote] + text;
    ConcatAssociates(raw, [quote], text);
    PrefixHolds(raw, [quote] + text);
    SegmentsPass(line, 0, segments, |raw|);
    UnclosedTailEnds(line, |raw|, quote, text);
    UnclosedStarts(segments, quote, text);
  }

  lemma UnclosedStarts(segments: seq<Segment>, quote: char, text: string)
    requires AreSegments(segments) && (quote == '\'' || quote == '"')
    ensures !Splits(Plain, (SpellAll(segments) + [quote] + text)[0])
  {
    if segments != [] {
      WordStarts(segments);
    }
  }

  lemma UnclosedTailEnds(line: string, at: nat, quote: char, text: string)
    requires (quote == '\'' || quote == '"') && quote !in text
    requires Holds(line, at, [quote] + text) && |line| == at + 1 + |text|
    ensures WordEnd(line, at, Plain) == |line|
  {
    HoldsParts(line, at, [quote], text);
    UnclosedRunEnds(line, at + 1, quote);
  }

  lemma PrefixHolds(a: string, b: string)
    ensures Holds(a + b, 0, a) && Holds(a + b, |a|, b)
  {
  }

  lemma {:induction false} UnclosedRunEnds(line: string, i: nat, quote: char)
    requires i <= |line| && forall k | i <= k < |line| :: line[k] != quote
    ensures WordEnd(line, i, Quoted(quote)) == |line|
    decreases |line| - i
  {
    if i < |line| {
      UnclosedRunEnds(line, i + 1, quote);
    }
  }

  /** From a line as it is written to the commands that are run. A semicolon separates whether
      or not it is quoted: the list is cut at tokens, which no longer have their quotes. */
  lemma CommandsOfLayout(pieces: seq<Piece>, end: string, commands: seq<seq<string>>)
    requires IsLayout(pieces, end) && IsGap(end) && Meanings(pieces) == Join(commands, ";")
    requires commands != [] && forall command | command in commands :: command != [] && ";" !in command
    ensures Commands(Tokens(Line(pieces, end))) == commands
  {
    TokensOfLayout(pieces, end);
    TokensBehindGap(end, "");
    assert end + "" == end && Meanings(pieces) + [] == Meanings(pieces);
    CommandsKeepOrder(commands);
  }
}
