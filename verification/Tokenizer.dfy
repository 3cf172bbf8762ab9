/** The shell's quote-aware tokenizer, against a declarative account of where tokens lie. */
module Tokenizer {
  import opened Sequences

  const MAX_NUM_TOKENS := 256

  predicate IsBlank(c: char) {
    c == ' ' || c == '\t'
  }

  predicate IsOperator(c: char) {
    c == ';' || c == '|' || c == '&'
  }

  predicate IsQuote(c: char) {
    c == '\'' || c == '"'
  }

  /** Outside quotes, or inside a pair opened by `quote`. */
  datatype Mode = Plain | Quoted(quote: char)

  function NextMode(mode: Mode, c: char): Mode {
    match mode
    case Plain => if IsQuote(c) then Quoted(c) else Plain
    case Quoted(q) => if c == q then Plain else mode
  }

  // The scan, as the tokenizer performs it

  predicate Splits(mode: Mode, c: char) {
    mode.Plain? && (IsBlank(c) || IsOperator(c))
  }

  /** Where a word that has been scanned up to i, in the given mode, ends. */
  function WordEnd(line: string, i: nat, mode: Mode): (end: nat)
    requires i <= |line|
    ensures i <= end <= |line|
    ensures i < |line| && !Splits(mode, line[i]) ==> i < end
    decreases |line| - i
  {
    if i == |line| || Splits(mode, line[i]) then i else WordEnd(line, i + 1, NextMode(mode, line[i]))
  }

  datatype Slice = Slice(start: nat, end: nat)

  function Slices(line: string, i: nat): (slices: seq<Slice>)
    requires i <= |line|
    ensures forall s | s in slices :: i <= s.start < s.end <= |line|
    decreases |line| - i
  {
    if i == |line| then []
    else if IsBlank(line[i]) then Slices(line, i + 1)
    else if IsOperator(line[i]) then [Slice(i, i + 1)] + Slices(line, i + 1)
    else
      var end := WordEnd(line, i, Plain);
      [Slice(i, end)] + Slices(line, end)
  }

  /** A token is its slice without one pair of equal quotes around it. */
  function Unquote(raw: string): string {
    if |raw| >= 2 && IsQuote(raw[0]) && raw[|raw| - 1] == raw[0] then raw[1..|raw| - 1] else raw
  }

  function TokensFrom(line: string, i: nat): seq<string>
    requires i <= |line|
    decreases |line| - i
  {
    if i == |line| then []
    else if IsBlank(line[i]) then TokensFrom(line, i + 1)
    else if IsOperator(line[i]) then [[line[i]]] + TokensFrom(line, i + 1)
    else
      var end := WordEnd(line, i, Plain);
      [Unquote(line[i..end])] + TokensFrom(line, end)
  }

  function Tokens(line: string): seq<string> {
    TokensFrom(line, 0)
  }

  method SkipBlanks(line: string, start: nat) returns (i: nat)
    requires start <= |line|
    ensures start <= i <= |line| && TokensFrom(line, start) == TokensFrom(line, i)
    ensures i < |line| ==> !IsBlank(line[i])
  {
    i := start;
    while i < |line| && IsBlank(line[i])
      invariant start <= i <= |line| && TokensFrom(line, start) == TokensFrom(line, i)
    {
      i := i + 1;
    }
  }

  /** The inner loop: the end of the word that begins at `start`. */
  method ScanWord(line: string, start: nat) returns (i: nat)
    requires start <= |line|
    ensures i == WordEnd(line, start, Plain)
  {
    i := start;
    var inQuotes, quote := false, '\0';
    while i < |line|
      invariant start <= i <= |line|
      invariant WordEnd(line, start, Plain) == WordEnd(line, i, if inQuotes then Quoted(quote) else Plain)
    {
      if !inQuotes && (IsBlank(line[i]) || IsOperator(line[i])) {
        break;
      } else if !inQuotes && IsQuote(line[i]) {
        inQuotes, quote := true, line[i];
        i := i + 1;
      } else if inQuotes && line[i] == quote {
        inQuotes, quote := false, '\0';
        i := i + 1;
      } else {
        i := i + 1;
      }
    }
  }

  method StripQuotes(raw: string) returns (token: string)
    ensures token == Unquote(raw)
  {
    token := raw;
    if |token| >= 2 {
      if (token[0] == '\'' && token[|token| - 1] == '\'') || (token[0] == '"' && token[|token| - 1] == '"') {
        token := token[1..|token| - 1];
      }
    }
  }

  /** One token, an operator or a word, and where it ends. */
  method TakeToken(line: string, start: nat) returns (token: string, end: nat)
    requires start < |line| && !IsBlank(line[start])
    ensures start < end <= |line| && TokensFrom(line, start) == [token] + TokensFrom(line, end)
  {
    if IsOperator(line[start]) {
      return [line[start]], start + 1;
    }
    end := ScanWord(line, start);
    token := StripQuotes(line[start..end]);
  }

  /** The first `count` tokens are stored, and they are those before position i. */
  ghost predicate Scanned(tokens: seq<string>, count: nat, line: string, i: nat) {
    count <= |tokens| && i <= |line| && tokens[..count] + TokensFrom(line, i) == Tokens(line)
  }

  lemma StoredBehind(tokens: seq<string>, count: nat, token: string)
    requires count < |tokens|
    ensures tokens[count := token][..count + 1] == tokens[..count] + [token]
  {
  }

  lemma TokenScanned(tokens: seq<string>, count: nat, line: string, i: nat, token: string, end: nat)
    requires Scanned(tokens, count, line, i) && count < |tokens| && end <= |line|
    requires TokensFrom(line, i) == [token] + TokensFrom(line, end)
    ensures Scanned(tokens[count := token], count + 1, line, end)
  {
    StoredBehind(tokens, count, token);
    ConcatAssociates(tokens[..count], [token], TokensFrom(line, end));
  }

  lemma AllScanned(tokens: seq<string>, count: nat, line: string, i: nat, limit: nat)
    requires Scanned(tokens, count, line, i) && count <= limit && (count == limit || TokensFrom(line, i) == [])
    ensures tokens[..count] == Take(Tokens(line), limit)
  {
  }

  method Tokenize(line: string) returns (result: seq<string>)
    ensures result == Take(Tokens(line), MAX_NUM_TOKENS - 1)
    ensures result == if |Tokens(line)| <= 255 then Tokens(line) else Tokens(line)[..255]
  {
    var tokens := new string[MAX_NUM_TOKENS];
    var i, count := 0, 0;
    while i < |line| && count < MAX_NUM_TOKENS - 1
      invariant 0 <= i && 0 <= count <= MAX_NUM_TOKENS - 1
      invariant Scanned(tokens[..], count, line, i)
      decreases |line| - i
    {
      i := SkipBlanks(line, i);
      if i >= |line| {
        break;
      }
      var token, end := TakeToken(line, i);
      TokenScanned(tokens[..], count, line, i, token, end);
      ghost var before := tokens[..];
      tokens[count] := token;
      assert tokens[..] == before[count := token];
      count := count + 1;
      i := end;
    }
    AllScanned(tokens[..], count, line, i, MAX_NUM_TOKENS - 1);
    result := tokens[..count];
  }

  // Where tokens lie, without reference to the scan

  /** The quoting mode in front of character i, read off the whole line. */
  function ModeAt(line: string, i: nat): Mode
    requires i <= |line|
  {
    if i == 0 then Plain else NextMode(ModeAt(line, i - 1), line[i - 1])
  }

  /** Character i is an unquoted blank or operator. */
  predicate Separates(line: string, i: nat) {
    i < |line| && Splits(ModeAt(line, i), line[i])
  }

  /** A single unquoted operator. */
  predicate IsOperatorSlice(line: string, s: Slice) {
    s.end == s.start + 1 && Separates(line, s.start) && IsOperator(line[s.start])
  }

  /** A maximal non-empty stretch without unquoted blanks and operators. */
  predicate IsWordSlice(line: string, s: Slice) {
    && s.start < s.end <= |line|
    && (forall k | s.start <= k < s.end :: !Separates(line, k))
    && (s.start == 0 || Separates(line, s.start - 1))
    && (s.end == |line| || Separates(line, s.end))
  }

  predicate IsTokenSlice(line: string, s: Slice) {
    IsOperatorSlice(line, s) || IsWordSlice(line, s)
  }

  /** `slices` lists, in order, exactly the token slices of the line from i on. */
  ghost predicate Lists(line: string, i: nat, slices: seq<Slice>) {
    && (forall s | s in slices :: IsTokenSlice(line, s) && i <= s.start)
    && (forall j, k | 0 <= j < k < |slices| :: slices[j].end <= slices[k].start)
    && (forall s | IsTokenSlice(line, s) && i <= s.start :: s in slices)
  }

  /** No word runs across position i. */
  predicate IsSeam(line: string, i: nat) {
    && i <= |line|
    && (i < |line| ==> ModeAt(line, i).Plain?)
    && (i == 0 || i == |line| || Separates(line, i - 1) || Separates(line, i))
  }

  lemma {:induction false} WordEndIsSeam(line: string, i: nat)
    requires i <= |line|
    ensures var end := WordEnd(line, i, ModeAt(line, i));
      && (forall k | i <= k < end :: !Separates(line, k))
      && (end == |line| || Separates(line, end))
    decreases |line| - i
  {
    if i < |line| && !Splits(ModeAt(line, i), line[i]) {
      assert ModeAt(line, i + 1) == NextMode(ModeAt(line, i), line[i]);
      WordEndIsSeam(line, i + 1);
    }
  }

  lemma NoTokenAtBlank(line: string, i: nat, s: Slice)
    requires Separates(line, i) && IsBlank(line[i]) && IsTokenSlice(line, s)
    ensures s.start != i
  {
  }

  lemma OnlyOperatorHere(line: string, i: nat, s: Slice)
    requires Separates(line, i) && IsOperator(line[i]) && IsTokenSlice(line, s) && s.start == i
    ensures s == Slice(i, i + 1)
  {
  }

  lemma OnlyWordHere(line: string, i: nat, end: nat, s: Slice)
    requires IsWordSlice(line, Slice(i, end)) && IsTokenSlice(line, s) && i <= s.start < end
    ensures s == Slice(i, end)
  {
  }

  lemma PrependSlice(line: string, i: nat, first: Slice, rest: seq<Slice>)
    requires IsTokenSlice(line, first) && first.start == i && Lists(line, first.end, rest)
    requires forall s | IsTokenSlice(line, s) && i <= s.start < first.end :: s == first
    requires first.start < first.end
    ensures Lists(line, i, [first] + rest)
  {
    var slices := [first] + rest;
    forall j, k | 0 <= j < k < |slices|
      ensures slices[j].end <= slices[k].start
    {
      assert slices[k] == rest[k - 1] && rest[k - 1] in rest;
    }
  }

  lemma {:induction false} ScanLists(line: string, i: nat)
    requires IsSeam(line, i)
    ensures Lists(line, i, Slices(line, i))
    decreases |line| - i
  {
    if i < |line| {
      assert ModeAt(line, i + 1) == NextMode(ModeAt(line, i), line[i]);
      if IsBlank(line[i]) {
        ScanLists(line, i + 1);
        forall s | IsTokenSlice(line, s) ensures s.start != i {
          NoTokenAtBlank(line, i, s);
        }
      } else if IsOperator(line[i]) {
        ScanLists(line, i + 1);
        forall s | IsTokenSlice(line, s) && s.start == i ensures s == Slice(i, i + 1) {
          OnlyOperatorHere(line, i, s);
        }
        PrependSlice(line, i, Slice(i, i + 1), Slices(line, i + 1));
      } else {
        var end := WordEnd(line, i, Plain);
        WordEndIsSeam(line, i);
        assert IsWordSlice(line, Slice(i, end));
        ScanLists(line, end);
        forall s | IsTokenSlice(line, s) && i <= s.start < end ensures s == Slice(i, end) {
          OnlyWordHere(line, i, end, s);
        }
        PrependSlice(line, i, Slice(i, end), Slices(line, end));
      }
    }
  }

  lemma HasMember(slices: seq<Slice>)
    requires slices != []
    ensures exists s :: s in slices
  {
    assert slices[0] in slices;
  }

  lemma {:induction false} ListsUnique(line: string, i: nat, a: seq<Slice>, b: seq<Slice>)
    requires Lists(line, i, a) && Lists(line, i, b)
    ensures a == b
    decreases |a|
  {
    if a == [] {
      if b != [] {
        HasMember(b);
        assert false;
      }
    } else {
      assert a[0] in a && a[0] in b;
      assert b[0] in b && b[0] in a;
      HeadsAgree(line, i, a, b);
      TailLists(line, i, a);
      TailLists(line, i, b);
      ListsUnique(line, a[0].end, a[1..], b[1..]);
    }
  }

  lemma HeadsAgree(line: string, i: nat, a: seq<Slice>, b: seq<Slice>)
    requires Lists(line, i, a) && Lists(line, i, b) && a != [] && b != []
    ensures a[0] == b[0]
  {
    assert a[0] in b && b[0] in a by {
      assert a[0] in a && b[0] in b;
    }
    var j :| 0 <= j < |b| && b[j] == a[0];
    var k :| 0 <= k < |a| && a[k] == b[0];
    assert IsTokenSlice(line, a[0]) && IsTokenSlice(line, b[0]);
  }

  lemma TailLists(line: string, i: nat, a: seq<Slice>)
    requires Lists(line, i, a) && a != []
    ensures Lists(line, a[0].end, a[1..])
  {
    assert a[0] in a;
    forall s | s in a[1..] ensures a[0].end <= s.start && s in a {
      var k :| 0 <= k < |a[1..]| && a[1..][k] == s;
      assert a[k + 1] == s;
    }
    forall s | IsTokenSlice(line, s) && a[0].end <= s.start ensures s in a[1..] {
      assert s in a;
      var k :| 0 <= k < |a| && a[k] == s;
      assert k > 0 && a[1..][k - 1] == s;
    }
  }

  /** The scan finds exactly the unquoted operators and the maximal words of the line, and any
      ordered list of them is the one the scan produces. */
  lemma ScanIsTheOnlyTokenization(line: string, slices: seq<Slice>)
    ensures Lists(line, 0, slices) <==> slices == Slices(line, 0)
  {
    ScanLists(line, 0);
    if Lists(line, 0, slices) {
      ListsUnique(line, 0, slices, Slices(line, 0));
    }
  }

  function Texts(line: string, slices: seq<Slice>): seq<string>
    requires forall s | s in slices :: s.start <= s.end <= |line|
  {
    if slices == [] then []
    else [Unquote(line[slices[0].start..slices[0].end])] + Texts(line, slices[1..])
  }

  /** The tokens are the slices, each without one pair of outer quotes. */
  lemma {:induction false} TokensAreSlices(line: string, i: nat)
    requires i <= |line|
    ensures TokensFrom(line, i) == Texts(line, Slices(line, i))
    decreases |line| - i
  {
    if i < |line| {
      if IsBlank(line[i]) {
        TokensAreSlices(line, i + 1);
      } else if IsOperator(line[i]) {
        TokensAreSlices(line, i + 1);
        assert Slices(line, i)[1..] == Slices(line, i + 1);
        assert line[i..i + 1] == [line[i]];
      } else {
        var end := WordEnd(line, i, Plain);
        TokensAreSlices(line, end);
        assert Slices(line, i)[1..] == Slices(line, end);
      }
    }
  }

  // Nothing but unquoted blanks is lost

  function WithoutBlanks(line: string, i: nat): string
    requires i <= |line|
    decreases |line| - i
  {
    if i == |line| then ""
    else if Separates(line, i) && IsBlank(line[i]) then WithoutBlanks(line, i + 1)
    else [line[i]] + WithoutBlanks(line, i + 1)
  }

  function Raw(line: string, slices: seq<Slice>): string
    requires forall s | s in slices :: s.start <= s.end <= |line|
  {
    if slices == [] then "" else line[slices[0].start..slices[0].end] + Raw(line, slices[1..])
  }

  lemma {:induction false} WithoutBlanksKeepsWord(line: string, i: nat, end: nat)
    requires i <= end <= |line| && forall k | i <= k < end :: !Separates(line, k)
    ensures WithoutBlanks(line, i) == line[i..end] + WithoutBlanks(line, end)
    decreases end - i
  {
    if i < end {
      calc {
        WithoutBlanks(line, i);
        [line[i]] + WithoutBlanks(line, i + 1);
        { WithoutBlanksKeepsWord(line, i + 1, end); }
        [line[i]] + (line[i + 1..end] + WithoutBlanks(line, end));
        ([line[i]] + line[i + 1..end]) + WithoutBlanks(line, end);
        { assert line[i..end] == [line[i]] + line[i + 1..end]; }
        line[i..end] + WithoutBlanks(line, end);
      }
    } else {
      assert line[i..end] == "";
    }
  }

  lemma RawFromHead(line: string, first: Slice, rest: seq<Slice>)
    requires first.start <= first.end <= |line| && forall s | s in rest :: s.start <= s.end <= |line|
    ensures Raw(line, [first] + rest) == line[first.start..first.end] + Raw(line, rest)
  {
    assert ([first] + rest)[1..] == rest;
  }

  ghost predicate Lossless(line: string, i: nat) {
    i <= |line| && Raw(line, Slices(line, i)) == WithoutBlanks(line, i)
  }

  lemma LosslessAtOperator(line: string, i: nat)
    requires i < |line| && Separates(line, i) && !IsBlank(line[i]) && Lossless(line, i + 1)
    ensures Lossless(line, i)
  {
    RawFromHead(line, Slice(i, i + 1), Slices(line, i + 1));
    assert line[i..i + 1] == [line[i]];
  }

  lemma LosslessAtWord(line: string, i: nat, end: nat)
    requires i < end <= |line| && !IsBlank(line[i]) && !IsOperator(line[i]) && end == WordEnd(line, i, Plain)
    requires (forall k | i <= k < end :: !Separates(line, k)) && Lossless(line, end)
    ensures Lossless(line, i)
  {
    RawFromHead(line, Slice(i, end), Slices(line, end));
    WithoutBlanksKeepsWord(line, i, end);
  }

  lemma {:induction false} ScanIsLossless(line: string, i: nat)
    requires IsSeam(line, i)
    ensures Raw(line, Slices(line, i)) == WithoutBlanks(line, i)
    decreases |line| - i
  {
    if i < |line| {
      assert ModeAt(line, i + 1) == NextMode(ModeAt(line, i), line[i]);
      if IsBlank(line[i]) {
        ScanIsLossless(line, i + 1);
      } else if IsOperator(line[i]) {
        ScanIsLossless(line, i + 1);
        LosslessAtOperator(line, i);
      } else {
        var end := WordEnd(line, i, Plain);
        WordEndIsSeam(line, i);
        ScanIsLossless(line, end);
        LosslessAtWord(line, i, end);
      }
    }
  }

  // Scanning the rest of a line

  /** The line is b from position `at` on. */
  ghost predicate EndsIn(line: string, at: nat, b: string) {
    at + |b| == |line| && forall k | 0 <= k < |b| :: line[at + k] == b[k]
  }

  lemma SliceOfEnd(line: string, at: nat, b: string, i: nat, end: nat)
    requires EndsIn(line, at, b) && i <= end <= |b|
    ensures line[at + i..at + end] == b[i..end]
  {
  }

  lemma {:induction false} WordEndShifts(line: string, at: nat, b: string, i: nat, mode: Mode)
    requires EndsIn(line, at, b) && i <= |b|
    ensures WordEnd(line, at + i, mode) == at + WordEnd(b, i, mode)
    decreases |b| - i
  {
    if i < |b| {
      assert line[at + i] == b[i];
      if !Splits(mode, b[i]) {
        WordEndShifts(line, at, b, i + 1, NextMode(mode, b[i]));
      }
    }
  }

  /** Scanning the line gives, from b's i-th character on, what scanning b gives. */
  ghost predicate Shifts(line: string, at: nat, b: string, i: nat)
    requires at + |b| == |line|
  {
    i <= |b| && TokensFrom(line, at + i) == TokensFrom(b, i)
  }

  lemma ShiftsAtSplit(line: string, at: nat, b: string, i: nat)
    requires EndsIn(line, at, b) && i < |b| && Splits(Plain, b[i]) && Shifts(line, at, b, i + 1)
    ensures Shifts(line, at, b, i)
  {
    assert line[at + i] == b[i];
  }

  lemma TokensAtWord(line: string, i: nat, raw: string, end: nat)
    requires i < |line| && !Splits(Plain, line[i]) && end == WordEnd(line, i, Plain) && raw == line[i..end]
    ensures TokensFrom(line, i) == [Unquote(raw)] + TokensFrom(line, end)
  {
  }

  lemma WordOfEnd(line: string, at: nat, b: string, i: nat, end: nat)
    requires EndsIn(line, at, b) && i < |b| && !Splits(Plain, b[i]) && end == WordEnd(b, i, Plain)
    ensures TokensFrom(line, at + i) == [Unquote(b[i..end])] + TokensFrom(line, at + end)
  {
    WordEndShifts(line, at, b, i, Plain);
    SliceOfEnd(line, at, b, i, end);
    assert line[at + i] == b[i];
    TokensAtWord(line, at + i, b[i..end], at + end);
  }

  lemma ShiftsAtWord(line: string, at: nat, b: string, i: nat)
    requires EndsIn(line, at, b) && i < |b| && !Splits(Plain, b[i]) && Shifts(line, at, b, WordEnd(b, i, Plain))
    ensures Shifts(line, at, b, i)
  {
    var end := WordEnd(b, i, Plain);
    WordOfEnd(line, at, b, i, end);
    TokensAtWord(b, i, b[i..end], end);
  }

  lemma {:induction false} TokensOfEnd(line: string, at: nat, b: string, i: nat)
    requires EndsIn(line, at, b) && i <= |b|
    ensures Shifts(line, at, b, i)
    decreases |b| - i
  {
    if i < |b| {
      if Splits(Plain, b[i]) {
        TokensOfEnd(line, at, b, i + 1);
        ShiftsAtSplit(line, at, b, i);
      } else {
        TokensOfEnd(line, at, b, WordEnd(b, i, Plain));
        ShiftsAtWord(line, at, b, i);
      }
    }
  }

  lemma TokensShift(a: string, b: string)
    ensures TokensFrom(a + b, |a|) == Tokens(b)
  {
    TokensOfEnd(a + b, |a|, b, 0);
  }

  /** A word that scans to its own end, then a blank, then the rest. */
  lemma TokensOfWordThenRest(word: string, rest: string)
    requires word != "" && !Splits(Plain, word[0])
    requires WordEnd(word + " " + rest, 0, Plain) == |word|
    ensures Tokens(word + " " + rest) == [Unquote(word)] + Tokens(rest)
  {
    var line := word + " " + rest;
    assert line == (word + " ") + rest;
    assert line[..|word|] == word && line[|word|] == ' ' && line[0] == word[0];
    TokensShift(word + " ", rest);
    assert TokensFrom(line, |word|) == TokensFrom(line, |word| + 1);
  }

  lemma TokensOfWord(word: string)
    requires word != "" && !Splits(Plain, word[0]) && WordEnd(word, 0, Plain) == |word|
    ensures Tokens(word) == [Unquote(word)]
  {
    assert word[..|word|] == word;
    assert TokensFrom(word, |word|) == [];
  }

  // Quoting round trip

  function SpaceJoined(words: seq<string>): string {
    if words == [] then ""
    else if |words| == 1 then words[0]
    else words[0] + " " + SpaceJoined(words[1..])
  }

  lemma {:induction false} SpacedText(a: seq<string>, b: seq<string>)
    requires a != [] && b != []
    ensures SpaceJoined(a + b) == SpaceJoined(a) + " " + SpaceJoined(b)
    ensures |a| == 1 ==> SpaceJoined(a) == a[0]
    decreases |a|
  {
    assert (a + b)[1..] == a[1..] + b;
    if |a| > 1 {
      SpacedText(a[1..], b);
      ConcatAssociates(a[0] + " ", SpaceJoined(a[1..]), " " + SpaceJoined(b));
      ConcatAssociates(SpaceJoined(a[1..]), " ", SpaceJoined(b));
      ConcatAssociates(a[0] + " " + SpaceJoined(a[1..]), " ", SpaceJoined(b));
    }
  }

  function SingleQuoted(words: seq<string>): (quoted: seq<string>)
    ensures |quoted| == |words|
    ensures forall i | 0 <= i < |words| :: quoted[i] == "'" + words[i] + "'"
  {
    seq(|words|, i requires 0 <= i < |words| => "'" + words[i] + "'")
  }

  lemma {:induction false} QuotedRunEnds(line: string, i: nat, close: nat, quote: char)
    requires i <= close < |line| && line[close] == quote
    requires forall k | i <= k < close :: line[k] != quote
    ensures WordEnd(line, i, Quoted(quote)) == WordEnd(line, close + 1, Plain)
    decreases close - i
  {
    if i < close {
      QuotedRunEnds(line, i + 1, close, quote);
    }
  }

  /** A quoted word, and after its closing quote the end of the line or a blank. */
  lemma QuotedStretchEnds(line: string, close: nat, quote: char)
    requires quote == '\'' || quote == '"'
    requires 0 < close < |line| && line[0] == quote && line[close] == quote
    requires forall k | 1 <= k < close :: line[k] != quote
    requires close + 1 < |line| ==> line[close + 1] == ' '
    ensures WordEnd(line, 0, Plain) == close + 1
  {
    QuotedRunEnds(line, 1, close, quote);
  }

  function QuotedBy(word: string, quote: char): string {
    [quote] + word + [quote]
  }

  lemma QuotedWordEnds(word: string, quote: char, rest: string)
    requires (quote == '\'' || quote == '"') && quote !in word && (rest == "" || rest[0] == ' ')
    ensures WordEnd(QuotedBy(word, quote) + rest, 0, Plain) == |word| + 2
  {
    var line := QuotedBy(word, quote) + rest;
    assert forall k | 1 <= k < |word| + 1 :: line[k] == word[k - 1];
    QuotedStretchEnds(line, |word| + 1, quote);
  }

  lemma UnquoteUndoesQuote(word: string, quote: char)
    requires quote == '\'' || quote == '"'
    ensures Unquote(QuotedBy(word, quote)) == word
  {
    var raw := QuotedBy(word, quote);
    assert raw[1..|raw| - 1] == word;
  }

  lemma TokensOfQuotedWord(word: string, quote: char, rest: string)
    requires (quote == '\'' || quote == '"') && quote !in word
    ensures Tokens(QuotedBy(word, quote) + " " + rest) == [word] + Tokens(rest)
  {
    QuotedWordEnds(word, quote, " " + rest);
    UnquoteUndoesQuote(word, quote);
    ConcatAssociates(QuotedBy(word, quote), " ", rest);
    TokensOfWordThenRest(QuotedBy(word, quote), rest);
  }

  /** Every word has a quote, single or double, that does not occur in it. */
  ghost predicate CanQuote(words: seq<string>, quotes: seq<char>) {
    && |quotes| == |words|
    && forall i | 0 <= i < |words| :: (quotes[i] == '\'' || quotes[i] == '"') && quotes[i] !in words[i]
  }

  function AllQuoted(words: seq<string>, quotes: seq<char>): (quoted: seq<string>)
    requires |quotes| == |words|
    ensures |quoted| == |words|
    ensures forall i | 0 <= i < |words| :: quoted[i] == QuotedBy(words[i], quotes[i])
  {
    seq(|words|, i requires 0 <= i < |words| => QuotedBy(words[i], quotes[i]))
  }

  /** Words come back unchanged from a line in which each is wrapped in a quote it does not
      contain; both kinds of quotes may be mixed, and each may stand inside the other. */
  lemma {:induction false} QuotingRoundTrip(words: seq<string>, quotes: seq<char>)
    requires CanQuote(words, quotes)
    ensures Tokens(SpaceJoined(AllQuoted(words, quotes))) == words
  {
    if words != [] {
      var quoted, word, quote := AllQuoted(words, quotes), words[0], quotes[0];
      if |words| == 1 {
        UnquoteUndoesQuote(word, quote);
        QuotedWordEnds(word, quote, "");
        assert QuotedBy(word, quote) + "" == quoted[0];
        TokensOfWord(quoted[0]);
      } else {
        assert quoted[1..] == AllQuoted(words[1..], quotes[1..]);
        QuotingRoundTrip(words[1..], quotes[1..]);
        TokensOfQuotedWord(word, quote, SpaceJoined(quoted[1..]));
      }
    }
  }

  function DoubleQuoted(words: seq<string>): (quoted: seq<string>)
    ensures |quoted| == |words|
    ensures forall i | 0 <= i < |words| :: quoted[i] == "\"" + words[i] + "\""
  {
    seq(|words|, i requires 0 <= i < |words| => "\"" + words[i] + "\"")
  }

  lemma SingleQuotingRoundTrip(words: seq<string>)
    requires forall w | w in words :: '\'' !in w
    ensures Tokens(SpaceJoined(SingleQuoted(words))) == words
  {
    var quotes := seq(|words|, i => '\'');
    assert AllQuoted(words, quotes) == SingleQuoted(words);
    QuotingRoundTrip(words, quotes);
  }

  lemma DoubleQuotingRoundTrip(words: seq<string>)
    requires forall w | w in words :: '"' !in w
    ensures Tokens(SpaceJoined(DoubleQuoted(words))) == words
  {
    var quotes := seq(|words|, i => '"');
    assert AllQuoted(words, quotes) == DoubleQuoted(words);
    QuotingRoundTrip(words, quotes);
  }

  /** At most 255 words survive the tokenizer's array as well. */
  method TokenizeQuoted(words: seq<string>, quotes: seq<char>) returns (tokens: seq<string>)
    requires |words| <= 255 && CanQuote(words, quotes)
    ensures tokens == words
  {
    QuotingRoundTrip(words, quotes);
    tokens := Tokenize(SpaceJoined(AllQuoted(words, quotes)));
  }
}
