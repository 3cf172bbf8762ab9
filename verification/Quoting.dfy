/** From quoted words to the command that is executed: which words survive the whole front end
    when each of them is put in quotes. */
module Quoting {
  import opened Sequences
  import opened Splitting
  import opened Tokenizer
  import opened CommandList
  import opened Redirections
  import opened History
  import opened Pipelines
  import opened Reentry

  function QuotedLine(words: seq<string>, quotes: seq<char>): string
    requires |quotes| == |words|
  {
    SpaceJoined(AllQuoted(words, quotes))
  }

  // The syntax check, which reads the line without regard to quotes

  lemma PatternAvoidsQuote(line: string, i: nat, j: nat, at: nat)
    requires i + 1 < j < |line| && PipeThenSemicolonAt(line, i, j)
    requires at < |line| && (line[at] == '\'' || line[at] == '"')
    ensures at < i || j < at
  {
    assert forall k | i + 1 <= k < j :: IsBlank(line[k]);
    assert !IsBlank(line[at]);
  }

  /** `part` stands in the line from position `at` on. */
  ghost predicate Occurs(line: string, at: nat, part: string) {
    at + |part| <= |line| && forall k | 0 <= k < |part| :: line[at + k] == part[k]
  }

  lemma PatternOfPart(line: string, at: nat, part: string)
    requires Occurs(line, at, part) && PipesIntoSemicolon(part)
    ensures PipesIntoSemicolon(line)
  {
    var i, j :| 0 <= i && i + 1 < j < |part| && PipeThenSemicolonAt(part, i, j);
    forall k | i <= k <= j ensures line[at + k] == part[k] {
    }
    forall k | at + i + 1 <= k < at + j ensures IsBlank(line[k]) {
      assert IsBlank(part[k - at]);
    }
    assert PipeThenSemicolonAt(line, at + i, at + j);
  }

  lemma PatternInPart(line: string, i: nat, j: nat, at: nat, part: string)
    requires Occurs(line, at, part) && i + 1 < j < |line| && PipeThenSemicolonAt(line, i, j)
    requires at <= i && j < at + |part|
    ensures PipesIntoSemicolon(part)
  {
    forall k | i <= k <= j ensures line[k] == part[k - at] {
      assert line[at + (k - at)] == part[k - at];
    }
    assert PipeThenSemicolonAt(part, i - at, j - at);
  }

  /** A quote is no part of the pattern, so the pattern lies on one side of it. */
  lemma PatternBesideQuote(a: string, quote: char, b: string)
    requires quote == '\'' || quote == '"'
    ensures PipesIntoSemicolon(a + [quote] + b) <==> PipesIntoSemicolon(a) || PipesIntoSemicolon(b)
  {
    var line, n := a + [quote] + b, |a| + 1;
    assert Occurs(line, 0, a) && Occurs(line, n, b);
    if PipesIntoSemicolon(a) {
      PatternOfPart(line, 0, a);
    } else if PipesIntoSemicolon(b) {
      PatternOfPart(line, n, b);
    } else if PipesIntoSemicolon(line) {
      var i, j :| 0 <= i && i + 1 < j < |line| && PipeThenSemicolonAt(line, i, j);
      PatternAvoidsQuote(line, i, j, |a|);
      if j < |a| {
        PatternInPart(line, i, j, 0, a);
      } else {
        PatternInPart(line, i, j, n, b);
      }
    }
  }

  ghost predicate SomePattern(words: seq<string>) {
    exists w :: w in words && PipesIntoSemicolon(w)
  }

  lemma SomePatternFromHead(words: seq<string>)
    requires words != []
    ensures SomePattern(words) <==> PipesIntoSemicolon(words[0]) || SomePattern(words[1..])
  {
    assert words == [words[0]] + words[1..] && words[0] in words;
  }

  lemma {:induction false} PatternInQuotedLine(words: seq<string>, quotes: seq<char>)
    requires CanQuote(words, quotes)
    ensures PipesIntoSemicolon(QuotedLine(words, quotes)) <==> SomePattern(words)
  {
    if words != [] {
      var word, quote, rest := words[0], quotes[0], RestOfLine(words, quotes);
      QuotedLineFromHead(words, quotes);
      SomePatternFromHead(words);
      PatternBesideQuote("", quote, word + [quote] + rest);
      assert "" + [quote] + (word + [quote] + rest) == QuotedLine(words, quotes);
      PatternBesideQuote(word, quote, rest);
      if |words| > 1 {
        PatternInQuotedLine(words[1..], quotes[1..]);
        PatternBehindSpace(words[1..], quotes[1..]);
      }
    }
  }

  /** What stands behind the first word of a quoted line. */
  function RestOfLine(words: seq<string>, quotes: seq<char>): string
    requires words != [] && |quotes| == |words|
  {
    if |words| == 1 then "" else " " + QuotedLine(words[1..], quotes[1..])
  }

  lemma QuotedLineFromHead(words: seq<string>, quotes: seq<char>)
    requires words != [] && CanQuote(words, quotes)
    ensures QuotedLine(words, quotes) == QuotedBy(words[0], quotes[0]) + RestOfLine(words, quotes)
  {
    assert AllQuoted(words, quotes)[1..] == AllQuoted(words[1..], quotes[1..]);
  }

  lemma PatternBehindSpace(words: seq<string>, quotes: seq<char>)
    requires words != [] && CanQuote(words, quotes)
    ensures PipesIntoSemicolon(" " + QuotedLine(words, quotes)) <==> PipesIntoSemicolon(QuotedLine(words, quotes))
  {
    QuotedLineFromHead(words, quotes);
    var line, quote := QuotedLine(words, quotes), quotes[0];
    PatternBesideQuote(" ", quote, line[1..]);
    PatternBesideQuote("", quote, line[1..]);
    assert line == "" + [quote] + line[1..];
    assert " " + line == " " + [quote] + line[1..];
  }

  ghost predicate PassesCheck(line: string) {
    !StartsWithOperator(line) && !PipesIntoSemicolon(line)
  }

  lemma QuotedLinePasses(words: seq<string>, quotes: seq<char>)
    requires words != [] && CanQuote(words, quotes)
    ensures PassesCheck(QuotedLine(words, quotes)) <==> !SomePattern(words)
  {
    PatternInQuotedLine(words, quotes);
    QuotedLineFromHead(words, quotes);
    assert QuotedLine(words, quotes)[0] == quotes[0];
  }

  // The parser

  /** No token but perhaps the last is a redirection operator. */
  ghost predicate OnlyLastRedirects(stage: seq<string>, i: nat) {
    forall k | i <= k < |stage| - 1 :: !IsRedirect(stage[k])
  }

  lemma {:induction false} NoRedirectsExactly(stage: seq<string>, i: nat)
    requires i <= |stage|
    ensures Redirects(ItemsFrom(stage, i)) == [] <==> OnlyLastRedirects(stage, i)
    decreases |stage| - i
  {
    if i < |stage| {
      if !IsRedirect(stage[i]) {
        NoRedirectsExactly(stage, i + 1);
        AtWord(stage, i);
      } else if i + 1 < |stage| {
        AtRedirect(stage, i);
      } else {
        AtDangling(stage, i);
      }
    }
  }

  /** The words of a stage without redirections: a dangling operator is dropped. */
  function Undangled(stage: seq<string>): seq<string> {
    if stage != [] && IsRedirect(stage[|stage| - 1]) then stage[..|stage| - 1] else stage
  }

  lemma UndangledFromHead(word: string, rest: seq<string>)
    requires !IsRedirect(word)
    ensures Undangled([word] + rest) == [word] + Undangled(rest)
  {
    var stage := [word] + rest;
    assert rest != [] ==> stage[|stage| - 1] == rest[|rest| - 1];
  }

  lemma {:induction false} WordsAreUndangled(stage: seq<string>, i: nat)
    requires i <= |stage| && OnlyLastRedirects(stage, i)
    ensures Words(ItemsFrom(stage, i)) == Undangled(stage[i..])
    decreases |stage| - i
  {
    if i < |stage| {
      if !IsRedirect(stage[i]) {
        WordsAreUndangled(stage, i + 1);
        AtWord(stage, i);
        assert stage[i..] == [stage[i]] + stage[i + 1..];
        UndangledFromHead(stage[i], stage[i + 1..]);
      } else {
        AtDangling(stage, i);
        assert stage[i..] == [stage[i]];
      }
    }
  }

  lemma {:induction false} LastOfSomeSide(redirects: seq<Target>)
    requires redirects != []
    ensures LastOn(redirects, true) != Nowhere || LastOn(redirects, false) != Nowhere
  {
    var last := redirects[|redirects| - 1];
    assert LastOn(redirects, last.op == "<") == AsRedirection(last);
  }

  /** A redirection that has a file shows in the result, whether or not the file opens. */
  lemma RedirectsShow(redirects: seq<Target>, opens: nat -> bool)
    ensures Result(redirects, opens) == (Nowhere, Nowhere) <==> redirects == []
  {
    if redirects != [] {
      LastOfSomeSide(redirects);
    }
  }

  lemma {:induction false} CountsOccurrences(tokens: seq<string>, sep: string)
    ensures Count(tokens, sep) == 0 <==> sep !in tokens
  {
    if tokens != [] {
      CountsOccurrences(tokens[1..], sep);
      assert tokens == [tokens[0]] + tokens[1..];
    }
  }

  lemma OnePartExactly(tokens: seq<string>, sep: string)
    ensures sep !in tokens <==> |Split(tokens, sep)| == 1
    ensures sep !in tokens <==> Split(tokens, sep) == [tokens]
  {
    CountsOccurrences(tokens, sep);
    SplitIsLossless(tokens, sep);
    if sep !in tokens {
      SplitAfterPart(tokens, [], sep);
    }
  }

  lemma OneCommandExactly(words: seq<string>)
    requires words != []
    ensures Commands(words) == [words] <==> ";" !in words
  {
    OnePartExactly(words, ";");
    if ";" !in words {
      NonEmptyPrepends(words, []);
      assert [words] + [] == [words];
    }
    if Commands(words) == [words] {
      assert words in Commands(words);
      CommandsAreSegments(words, words);
    }
  }

  /** The parse of one stage: its words, or the tokens of the entry it names. */
  lemma ParseOfOneStage(words: seq<string>, opens: nat -> nat -> bool, h: seq<string>, p: Pipeline)
    requires Parses(words, opens, h, p) && "|" !in words
    ensures p.commands == [Expand(StageWords(words), h)]
    ensures p.input == p.output == Nowhere <==> Redirects(Items(words)) == []
  {
    OnePartExactly(words, "|");
    RedirectsShow(Redirects(Items(words)), opens(0));
  }

  lemma StageWordsAreUndangled(words: seq<string>)
    ensures Redirects(Items(words)) == [] <==> OnlyLastRedirects(words, 0)
    ensures OnlyLastRedirects(words, 0) ==> StageWords(words) == Undangled(words)
  {
    NoRedirectsExactly(words, 0);
    assert words[0..] == words;
    if OnlyLastRedirects(words, 0) {
      WordsAreUndangled(words, 0);
    }
  }

  lemma OneStageExactly(words: seq<string>, opens: nat -> nat -> bool, h: seq<string>, p: Pipeline)
    requires Parses(words, opens, h, p)
    ensures p == Pipeline([words], Nowhere, Nowhere) <==>
      "|" !in words && OnlyLastRedirects(words, 0) && Expand(Undangled(words), h) == words
  {
    if "|" !in words {
      StageWordsAreUndangled(words);
      ParseOfOneStage(words, opens, h, p);
    } else {
      OnePartExactly(words, "|");
      assert |p.commands| != 1;
    }
  }

  // End to end

  /** The tokens are run as one foreground command with exactly these words and no
      redirections. */
  ghost predicate RunsAs(tokens: seq<string>, words: seq<string>, p: Pipeline) {
    Commands(tokens) == [words] && p == Pipeline([words], Nowhere, Nowhere) && StripBackground(words) == words
  }

  /** No word is an operator by itself; a redirection operator may only stand last, and only if
      history expansion restores it. */
  ghost predicate NoneActs(words: seq<string>, h: seq<string>)
    requires words != []
  {
    && ";" !in words && "|" !in words && words[|words| - 1] != "&"
    && OnlyLastRedirects(words, 0)
    && Expand(Undangled(words), h) == words
  }

  lemma RunsAsExactly(words: seq<string>, opens: nat -> nat -> bool, h: seq<string>, p: Pipeline)
    requires words != [] && Parses(words, opens, h, p)
    ensures RunsAs(words, words, p) <==> NoneActs(words, h)
  {
    OneCommandExactly(words);
    OneStageExactly(words, opens, h, p);
  }

  /** The line passes the syntax check and comes out of tokenizer and parser as its words. */
  ghost predicate Arrives(words: seq<string>, quotes: seq<char>, p: Pipeline)
    requires |quotes| == |words|
  {
    var line := QuotedLine(words, quotes);
    PassesCheck(line) && RunsAs(Take(Tokens(line), MAX_NUM_TOKENS - 1), words, p)
  }

  lemma TokensOfQuotedLine(words: seq<string>, quotes: seq<char>)
    requires |words| <= 255 && CanQuote(words, quotes)
    ensures Take(Tokens(QuotedLine(words, quotes)), MAX_NUM_TOKENS - 1) == words
  {
    QuotingRoundTrip(words, quotes);
  }

  /** Quoted words reach the executor unchanged exactly when none of them acts and none holds
      the pattern that the syntax check refuses. */
  lemma QuotedWordsArriveExactly(
    words: seq<string>, quotes: seq<char>, opens: nat -> nat -> bool, h: seq<string>, p: Pipeline)
    requires words != [] && |words| <= 255 && CanQuote(words, quotes)
    requires Parses(words, opens, h, p)
    ensures Arrives(words, quotes, p) <==> !SomePattern(words) && NoneActs(words, h)
  {
    TokensOfQuotedLine(words, quotes);
    QuotedLinePasses(words, quotes);
    RunsAsExactly(words, opens, h, p);
  }

  /** The reserved words of the shell. */
  predicate IsReserved(word: string) {
    word == ";" || word == "|" || word == "<" || word == ">" || word == ">>"
  }

  /** A clean history holds no entry that reads `log execute`. */
  lemma CleanExpansionDiffers(words: seq<string>, h: seq<string>)
    requires Clean(h) && LogExecuteIndex(Undangled(words), |h|) > 0
    ensures Expand(Undangled(words), h) != words
  {
    var entry := h[|h| - LogExecuteIndex(Undangled(words), |h|)];
    assert entry in h && entry[0..] == entry;
    if Take(Tokens(entry), MAX_NUM_TOKENS - 1) == words {
      assert Undangled(words)[0] == words[0] && Undangled(words)[1] == words[1];
      LogExecuteTokensAreFiltered(entry, 0);
      assert false;
    }
  }

  /** With a clean history the condition can be read off the words: none is `;`, `|`, `<`, `>`
      or `>>`, the last is not `&`, and they are no valid `log execute`. */
  lemma NoneActsInCleanHistory(words: seq<string>, h: seq<string>)
    requires words != [] && Clean(h)
    ensures NoneActs(words, h) <==>
      && (forall w | w in words :: !IsReserved(w)) && words[|words| - 1] != "&"
      && LogExecuteIndex(words, |h|) == 0
  {
    if LogExecuteIndex(Undangled(words), |h|) > 0 {
      CleanExpansionDiffers(words, h);
    }
    assert words[|words| - 1] in words;
    assert forall k | 0 <= k < |words| :: words[k] in words;
  }

  /** The whole way through the front end. */
  method ParseQuoted(words: seq<string>, quotes: seq<char>, opens: nat -> nat -> bool, ring: Ring)
    returns (p: Pipeline)
    requires words != [] && |words| <= 255 && CanQuote(words, quotes)
    requires ring.Valid()
    ensures Arrives(words, quotes, p) <==> !SomePattern(words) && NoneActs(words, ring.Contents())
  {
    var tokens := TokenizeQuoted(words, quotes);
    p := ParsePipeline(tokens, opens, ring);
    QuotedWordsArriveExactly(words, quotes, opens, ring.Contents(), p);
  }
}
