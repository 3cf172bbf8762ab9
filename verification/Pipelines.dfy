/** From the tokens of a command to its stages, and from the stages of a background job back to
    text. */
module Pipelines {
  import opened Sequences
  import opened Splitting
  import opened Tokenizer
  import opened Redirections
  import opened Numbers
  import opened History

  // Parsing

  /** The history index of a `log execute` stage, 0 for any other stage. */
  function LogExecuteIndex(words: seq<string>, count: nat): nat {
    if |words| < 3 || words[0] != "log" || words[1] != "execute" || words[2] == "" then 0
    else
      var (index, whole) := WholeNumber(words[2]);
      if whole && 0 < index <= count then index else 0
  }

  /** A stage names entry n exactly when it begins with the words `log` and `execute` and the
      next word reads as n; a numeral for n does. */
  lemma NamesEntryExactly(words: seq<string>, count: nat, n: nat)
    requires 0 < n <= count < 0x8000_0000
    ensures |words| >= 3 && words[0] == "log" && words[1] == "execute" && Denotes(words[2], n) ==>
      LogExecuteIndex(words, count) == n
    ensures LogExecuteIndex(words, count) == n ==>
      |words| >= 3 && words[0] == "log" && words[1] == "execute" && words[2] != "" && IsNumeral(words[2])
  {
    if |words| >= 3 && Denotes(words[2], n) {
      NumeralDenotes(words[2], n);
    }
    if |words| >= 3 {
      WholeExactly(words[2]);
    }
  }

  /** A `log execute` stage is replaced by the tokens of the entry it names. */
  function Expand(words: seq<string>, h: seq<string>): seq<string> {
    var index := LogExecuteIndex(words, |h|);
    if 0 < index <= |h| then Take(Tokens(h[|h| - index]), MAX_NUM_TOKENS - 1) else words
  }

  datatype Pipeline = Pipeline(commands: seq<seq<string>>, input: Redirection, output: Redirection)

  function Stages(tokens: seq<string>): seq<seq<string>> {
    Split(tokens, "|")
  }

  function StageWords(stage: seq<string>): seq<string> {
    Words(Items(stage))
  }

  /** The first n stages have been stored. `opens(s)(k)` says whether the k-th file of stage s
      opened; only the first stage's input and the last stage's output are kept. */
  ghost predicate Stored(
    stages: seq<seq<string>>, n: nat, opens: nat -> nat -> bool, h: seq<string>,
    commands: seq<seq<string>>, input: Redirection, output: Redirection)
  {
    && n <= |stages| == |commands| && stages != []
    && (forall i | 0 <= i < n :: commands[i] == Expand(StageWords(stages[i]), h))
    && input == (if n == 0 then Nowhere else Result(Redirects(Items(stages[0])), opens(0)).0)
    && output == (if n < |stages| then Nowhere else Result(Redirects(Items(stages[n - 1])), opens(n - 1)).1)
  }

  ghost predicate Parses(tokens: seq<string>, opens: nat -> nat -> bool, h: seq<string>, p: Pipeline) {
    Stored(Stages(tokens), |Stages(tokens)|, opens, h, p.commands, p.input, p.output)
  }

  method CountPipes(tokens: seq<string>) returns (count: nat)
    ensures count == Count(tokens, "|")
  {
    count := 0;
    assert tokens[0..] == tokens;
    for i := 0 to |tokens|
      invariant count + Count(tokens[i..], "|") == Count(tokens, "|")
    {
      assert tokens[i..][1..] == tokens[i + 1..];
      if tokens[i] == "|" {
        count := count + 1;
      }
    }
  }

  /** One stage: redirections out, `log execute` expanded. */
  method ParseStage(stage: seq<string>, opens: nat -> bool, ring: Ring)
    returns (command: seq<string>, input: Redirection, output: Redirection)
    requires ring.Valid()
    ensures command == Expand(StageWords(stage), ring.Contents())
    ensures (input, output) == Result(Redirects(Items(stage)), opens)
  {
    command, input, output := ParseRedirections(stage, opens);
    var index := LogExecuteIndex(command, ring.count);
    if index > 0 {
      var found, replacement := ring.CommandByNewestIndex(index);
      if found {
        command := Tokenize(replacement);
      }
    }
  }

  /** The pipeline structure while it is being filled. */
  class PipelineBuffer {
    var commands: seq<seq<string>>
    var input: Redirection
    var output: Redirection

    ghost predicate Holds(stages: seq<seq<string>>, n: nat, opens: nat -> nat -> bool, h: seq<string>)
      reads this
    {
      Stored(stages, n, opens, h, commands, input, output)
    }

    constructor (slots: nat)
      ensures |commands| == slots && input == output == Nowhere
    {
      commands := seq(slots, i => []);
      input := Nowhere;
      output := Nowhere;
    }

    method Store(ghost stages: seq<seq<string>>, n: nat, stage: seq<string>, opens: nat -> nat -> bool, ring: Ring)
      requires ring.Valid()
      requires n < |stages| && stages[n] == stage && Holds(stages, n, opens, ring.Contents())
      modifies this
      ensures Holds(stages, n + 1, opens, ring.Contents())
    {
      var command, stageInput, stageOutput := ParseStage(stage, opens(n), ring);
      commands := commands[n := command];
      if n == 0 && stageInput != Nowhere {
        input := stageInput;
      }
      if n == |commands| - 1 && stageOutput != Nowhere {
        output := stageOutput;
      }
    }
  }

  /** The stages of the tokens from `start` on; the loop may step one past the end. */
  function StagesFrom(tokens: seq<string>, start: nat): seq<seq<string>> {
    if start <= |tokens| then Stages(tokens[start..]) else []
  }

  /** The tokens before i have been scanned; `filled` stages end before `start`, none between
      `start` and i. */
  ghost predicate Scanning(tokens: seq<string>, start: nat, i: nat, stages: seq<seq<string>>, filled: nat) {
    && start <= i && (i > |tokens| ==> start > |tokens|)
    && NoneBetween(tokens, "|", start, i)
    && filled <= |stages| && stages[filled..] == StagesFrom(tokens, start)
  }

  predicate EndsStage(tokens: seq<string>, i: nat) {
    i == |tokens| || (i < |tokens| && tokens[i] == "|")
  }

  lemma StageEndsAt(tokens: seq<string>, start: nat, i: nat, stages: seq<seq<string>>, filled: nat)
    requires i <= |tokens| && EndsStage(tokens, i) && Scanning(tokens, start, i, stages, filled)
    ensures filled < |stages| && stages[filled] == tokens[start..i]
    ensures Scanning(tokens, i + 1, i + 1, stages, filled + 1)
  {
    SplitAtIndex(tokens, start, i, "|");
    NextOf(stages, filled, tokens[start..i], StagesFrom(tokens, i + 1));
    NoneYet(tokens, "|", i + 1);
  }

  lemma StageGoesOn(tokens: seq<string>, start: nat, i: nat, stages: seq<seq<string>>, filled: nat)
    requires i <= |tokens| && !EndsStage(tokens, i) && Scanning(tokens, start, i, stages, filled)
    ensures Scanning(tokens, start, i + 1, stages, filled)
  {
    NoneSoFar(tokens, "|", start, i);
  }

  lemma ScanStarts(tokens: seq<string>)
    ensures Scanning(tokens, 0, 0, Stages(tokens), 0)
  {
    assert tokens[0..] == tokens;
    assert Stages(tokens)[0..] == Stages(tokens);
    NoneYet(tokens, "|", 0);
  }

  lemma ScanEnds(tokens: seq<string>, start: nat, stages: seq<seq<string>>, filled: nat)
    requires Scanning(tokens, start, |tokens| + 1, stages, filled)
    ensures filled == |stages|
  {
    assert stages[filled..] == [];
  }

  /** Fills the slots of a pipeline; there are exactly as many as the counting pass allotted. */
  method ParsePipeline(tokens: seq<string>, opens: nat -> nat -> bool, ring: Ring) returns (p: Pipeline)
    requires ring.Valid()
    ensures Parses(tokens, opens, ring.Contents(), p)
  {
    var pipes := CountPipes(tokens);
    var buffer := new PipelineBuffer(pipes + 1);
    SplitIsLossless(tokens, "|");
    ScanStarts(tokens);
    FillSlots(tokens, Stages(tokens), opens, ring, ring.Contents(), buffer);
    p := Pipeline(buffer.commands, buffer.input, buffer.output);
  }

  method FillSlot(
    stage: seq<string>, ghost stages: seq<seq<string>>, n: nat, opens: nat -> nat -> bool, ring: Ring,
    ghost h: seq<string>, buffer: PipelineBuffer)
    requires ring.Valid() && ring.Contents() == h
    requires n < |stages| && stages[n] == stage && buffer.Holds(stages, n, opens, h)
    modifies buffer
    ensures ring.Valid() && ring.Contents() == h && buffer.Holds(stages, n + 1, opens, h)
  {
    buffer.Store(stages, n, stage, opens, ring);
  }

  method FillSlots(
    tokens: seq<string>, ghost stages: seq<seq<string>>, opens: nat -> nat -> bool, ring: Ring, ghost h: seq<string>,
    buffer: PipelineBuffer)
    requires ring.Valid() && ring.Contents() == h
    requires Scanning(tokens, 0, 0, stages, 0) && buffer.Holds(stages, 0, opens, h)
    modifies buffer
    ensures buffer.Holds(stages, |stages|, opens, h)
  {
    var filled, start := 0, 0;
    for i := 0 to |tokens| + 1
      invariant 0 <= start && 0 <= filled && ring.Valid() && ring.Contents() == h
      invariant Scanning(tokens, start, i, stages, filled) && buffer.Holds(stages, filled, opens, h)
    {
      if EndsStage(tokens, i) {
        StageEndsAt(tokens, start, i, stages, filled);
        FillSlot(tokens[start..i], stages, filled, opens, ring, h, buffer);
        filled := filled + 1;
        start := i + 1;
      } else {
        StageGoesOn(tokens, start, i, stages, filled);
      }
    }
    ScanEnds(tokens, start, stages, filled);
  }

  /** Without redirections and `log execute`, the pipes put back give the tokens again. */
  lemma PlainParseIsLossless(tokens: seq<string>, opens: nat -> nat -> bool, h: seq<string>, p: Pipeline)
    requires Parses(tokens, opens, h, p)
    requires forall token | token in tokens :: !IsRedirect(token)
    requires forall stage | stage in Stages(tokens) :: LogExecuteIndex(stage, |h|) == 0
    ensures p == Pipeline(Stages(tokens), Nowhere, Nowhere) && Join(p.commands, "|") == tokens
  {
    var stages := Stages(tokens);
    SplitIsLossless(tokens, "|");
    forall i | 0 <= i < |stages| ensures StageWords(stages[i]) == stages[i] && Redirects(Items(stages[i])) == [] {
      PartsComeFromTokens(tokens, "|");
      assert stages[i] in stages;
      PlainStage(stages[i]);
    }
    assert p.commands == stages;
  }

  lemma {:induction false} PartsComeFromTokens(tokens: seq<string>, sep: string)
    ensures forall part, token | part in Split(tokens, sep) && token in part :: token in tokens
  {
    if tokens != [] {
      PartsComeFromTokens(tokens[1..], sep);
      var rest := Split(tokens[1..], sep);
      assert rest[0] in rest;
      forall part, token | part in Split(tokens, sep) && token in part ensures token in tokens {
        assert part in rest || part == [tokens[0]] + rest[0] || part == [];
        assert token in tokens[1..] || token == tokens[0];
      }
    }
  }

  /** The input of a pipeline is what the last `<` of its first stage names. */
  lemma FirstInputDecides(
    tokens: seq<string>, opens: nat -> nat -> bool, h: seq<string>, p: Pipeline,
    before: seq<string>, file: string, behind: seq<string>)
    requires Parses(tokens, opens, h, p) && Stages(tokens)[0] == before + (["<", file] + behind)
    requires IsClosed(before) && OtherSide(Redirects(Items(behind)), "<")
    requires AllOpen(Redirects(Items(Stages(tokens)[0])), opens(0))
    ensures p.input == FromFile(file)
  {
    OperatorDecides(before, "<", file, behind, opens(0));
  }

  /** The output of a pipeline is what the last `>` or `>>` of its last stage names. */
  lemma LastOutputDecides(
    tokens: seq<string>, opens: nat -> nat -> bool, h: seq<string>, p: Pipeline,
    before: seq<string>, op: string, file: string, behind: seq<string>)
    requires Parses(tokens, opens, h, p) && (op == ">" || op == ">>")
    requires var last := |Stages(tokens)| - 1;
      && Stages(tokens)[last] == before + ([op, file] + behind)
      && AllOpen(Redirects(Items(Stages(tokens)[last])), opens(last))
    requires IsClosed(before) && OtherSide(Redirects(Items(behind)), op)
    ensures op == ">" ==> p.output == Truncate(file)
    ensures op == ">>" ==> p.output == Append(file)
  {
    OperatorDecides(before, op, file, behind, opens(|Stages(tokens)| - 1));
  }

  // Rendering  // Rendering

  function RenderStages(stages: seq<seq<string>>): string {
    if stages == [] then ""
    else if |stages| == 1 then SpaceJoined(stages[0])
    else SpaceJoined(stages[0]) + " | " + RenderStages(stages[1..])
  }

  /** The text under which a background job is listed. */
  function CommandString(stages: seq<seq<string>>): string {
    RenderStages(stages) + " &"
  }

  lemma {:induction false} RenderedText(a: seq<seq<string>>, b: seq<seq<string>>)
    requires a != [] && b != []
    ensures RenderStages(a + b) == RenderStages(a) + " | " + RenderStages(b)
    decreases |a|
  {
    assert (a + b)[1..] == a[1..] + b;
    if |a| > 1 {
      RenderedText(a[1..], b);
      ConcatAssociates(SpaceJoined(a[0]) + " | ", RenderStages(a[1..]), " | " + RenderStages(b));
      ConcatAssociates(RenderStages(a[1..]), " | ", RenderStages(b));
      ConcatAssociates(SpaceJoined(a[0]) + " | " + RenderStages(a[1..]), " | ", RenderStages(b));
    }
  }

  /** The text of a job, cut at any word: between two words of a stage there is one space,
      between two stages a bar between spaces, and at the end an ampersand behind a space. */
  lemma CommandStringSpelled(
    before: seq<seq<string>>, left: seq<string>, right: seq<string>, word: string, behind: seq<seq<string>>)
    ensures CommandString([[word]]) == word + " &"
    ensures left != [] && right != [] ==>
      CommandString([left + right]) == SpaceJoined(left) + " " + CommandString([right])
    ensures before != [] && behind != [] ==>
      CommandString(before + behind) == RenderStages(before) + " | " + CommandString(behind)
  {
    if left != [] && right != [] {
      SpacedText(left, right);
      ConcatAssociates(SpaceJoined(left) + " ", SpaceJoined(right), " &");
    }
    if before != [] && behind != [] {
      RenderedText(before, behind);
      ConcatAssociates(RenderStages(before) + " | ", RenderStages(behind), " &");
    }
  }

  predicate IsPlainChar(c: char) {
    !IsBlank(c) && !IsOperator(c) && !IsQuote(c)
  }

  predicate IsPlainWord(word: string) {
    word != "" && !IsRedirect(word) && forall c | c in word :: IsPlainChar(c)
  }

  ghost predicate IsPlainStage(stage: seq<string>) {
    stage != [] && forall word | word in stage :: IsPlainWord(word)
  }

  function WithBackground(stages: seq<seq<string>>): seq<seq<string>>
    requires stages != []
  {
    stages[..|stages| - 1] + [stages[|stages| - 1] + ["&"]]
  }

  lemma {:induction false} PlainWordEnds(line: string, i: nat, end: nat)
    requires i <= end <= |line| && forall k | i <= k < end :: IsPlainChar(line[k])
    requires end == |line| || Splits(Plain, line[end])
    ensures WordEnd(line, i, Plain) == end
    decreases end - i
  {
    if i < end {
      PlainWordEnds(line, i + 1, end);
    }
  }

  lemma TokensOfPlainWord(word: string, rest: string)
    requires IsPlainWord(word) && (rest == "" || Splits(Plain, rest[0]))
    ensures Tokens(word + rest) == [word] + Tokens(rest)
  {
    var line := word + rest;
    forall k | 0 <= k < |word| ensures IsPlainChar(line[k]) {
      assert line[k] == word[k] && word[k] in word;
    }
    PlainWordEnds(line, 0, |word|);
    TokensShift(word, rest);
    assert line[0..|word|] == word;
    assert word[0] in word;
  }

  lemma TokensAfterSpace(rest: string)
    ensures Tokens(" " + rest) == Tokens(rest)
  {
    TokensShift(" ", rest);
    assert (" " + rest)[0] == ' ';
  }

  lemma JoinedFromHead(word: string, others: string, rest: string)
    ensures (word + " " + others) + rest == word + (" " + (others + rest))
  {
  }

  lemma {:induction false} TokensOfWords(words: seq<string>, rest: string)
    requires IsPlainStage(words) && (rest == "" || Splits(Plain, rest[0]))
    ensures Tokens(SpaceJoined(words) + rest) == words + Tokens(rest)
  {
    var word, others := words[0], words[1..];
    assert word in words && words == [word] + others;
    if |words| == 1 {
      TokensOfPlainWord(word, rest);
    } else {
      var behind := SpaceJoined(others) + rest;
      assert forall w | w in others :: w in words;
      TokensOfWords(others, rest);
      TokensAfterSpace(behind);
      TokensOfPlainWord(word, " " + behind);
      JoinedFromHead(word, SpaceJoined(others), rest);
      ConcatAssociates([word], others, Tokens(rest));
    }
  }

  lemma TokensOfBar(rest: string)
    ensures Tokens(" | " + rest) == ["|"] + Tokens(rest)
  {
    var line := " | " + rest;
    TokensShift(" | ", rest);
    assert line[0] == ' ' && line[1] == '|' && line[2] == ' ';
    assert TokensFrom(line, 2) == TokensFrom(line, 3);
    assert TokensFrom(line, 1) == [[line[1]]] + TokensFrom(line, 2);
  }

  lemma TokensOfAmpersand()
    ensures Tokens(" &") == ["&"]
  {
    var line := " &";
    assert TokensFrom(line, 2) == [];
    assert TokensFrom(line, 1) == [[line[1]]] + [];
  }

  lemma BarBehind(first: string, rest: string)
    ensures (first + " | " + rest) + " &" == first + (" | " + (rest + " &"))
  {
  }

  lemma BackgroundIsBehind(stages: seq<seq<string>>)
    requires |stages| > 1
    ensures Join(WithBackground(stages), "|") == stages[0] + ["|"] + Join(WithBackground(stages[1..]), "|")
  {
    assert WithBackground(stages)[1..] == WithBackground(stages[1..]);
    assert WithBackground(stages)[0] == stages[0];
  }

  lemma {:induction false} TokensOfCommandString(stages: seq<seq<string>>)
    requires stages != [] && forall stage | stage in stages :: IsPlainStage(stage)
    ensures Tokens(CommandString(stages)) == Join(WithBackground(stages), "|")
  {
    var first := stages[0];
    assert first in stages;
    if |stages| == 1 {
      TokensOfAmpersand();
      TokensOfWords(first, " &");
      assert WithBackground(stages) == [first + ["&"]];
    } else {
      var rest := stages[1..];
      TokensOfCommandString(rest);
      TokensOfBar(CommandString(rest));
      TokensOfWords(first, " | " + CommandString(rest));
      BarBehind(SpaceJoined(first), RenderStages(rest));
      BackgroundIsBehind(stages);
      ConcatAssociates(first, ["|"], Tokens(CommandString(rest)));
    }
  }

  lemma PlainStageHasNoPipe(stage: seq<string>)
    requires IsPlainStage(stage)
    ensures "|" !in stage && "|" !in stage + ["&"]
    ensures forall word | word in stage + ["&"] :: !IsRedirect(word)
  {
    forall word | word in stage ensures word != "|" {
      assert word[0] in word;
    }
  }

  ghost predicate IsPlainJob(stages: seq<seq<string>>, count: nat) {
    stages != [] && forall stage | stage in stages :: IsPlainStage(stage) && LogExecuteIndex(stage, count) == 0
  }

  lemma PartOfRendered(stages: seq<seq<string>>, count: nat, part: seq<string>)
    requires IsPlainJob(stages, count) && part in WithBackground(stages)
    ensures "|" !in part && LogExecuteIndex(part, count) == 0
    ensures forall word | word in part :: !IsRedirect(word)
  {
    var parts := WithBackground(stages);
    var i :| 0 <= i < |parts| && parts[i] == part;
    assert stages[i] in stages;
    PlainStageHasNoPipe(stages[i]);
    if i == |stages| - 1 {
      AmpersandIsNoIndex(stages[i], count);
    }
  }

  /** Reading a job's text back gives the job: the same stages, `&` behind the last, and no
      redirections. */
  lemma PrintParseRoundTrip(stages: seq<seq<string>>, opens: nat -> nat -> bool, h: seq<string>, p: Pipeline)
    requires IsPlainJob(stages, |h|)
    requires Parses(Tokens(CommandString(stages)), opens, h, p)
    ensures p == Pipeline(WithBackground(stages), Nowhere, Nowhere)
  {
    var tokens, parts := Tokens(CommandString(stages)), WithBackground(stages);
    TokensOfCommandString(stages);
    forall part | part in parts
      ensures "|" !in part && LogExecuteIndex(part, |h|) == 0 && forall word | word in part :: !IsRedirect(word)
    {
      PartOfRendered(stages, |h|, part);
    }
    SplitUndoesJoin(parts, "|");
    forall token | token in tokens ensures !IsRedirect(token) {
      TokenOfSomePart(parts, "|", token);
    }
    PlainParseIsLossless(tokens, opens, h, p);
  }

  lemma AmpersandIsNoIndex(stage: seq<string>, count: nat)
    requires LogExecuteIndex(stage, count) == 0
    ensures LogExecuteIndex(stage + ["&"], count) == 0
  {
    if |stage| == 2 {
      assert (stage + ["&"])[2] == "&";
      assert WholeNumber("&") == (0, false);
    }
  }

  lemma {:induction false} TokenOfSomePart(parts: seq<seq<string>>, sep: string, token: string)
    requires token in Join(parts, sep)
    ensures token == sep || exists part :: part in parts && token in part
  {
    if |parts| > 1 {
      if token in parts[0] {
        assert parts[0] in parts;
      } else if token != sep {
        TokenOfSomePart(parts[1..], sep, token);
      }
    } else {
      assert parts[0] in parts;
    }
  }

  // The growing buffer

  /** One append to the command string: what is written behind the text so far, and the room
      that is asked for before. */
  datatype Piece = Piece(text: string, room: nat)

  function WordPieces(words: seq<string>, first: bool): seq<Piece> {
    if words == [] then []
    else [Piece(if first then words[0] else " " + words[0], |words[0]| + 2)] + WordPieces(words[1..], false)
  }

  function StagePieces(stages: seq<seq<string>>, first: bool): seq<Piece> {
    if stages == [] then []
    else Bar(first) + WordPieces(stages[0], true) + StagePieces(stages[1..], false)
  }

  /** The bar in front of every stage but the first. */
  function Bar(first: bool): seq<Piece> {
    if first then [] else [Piece(" | ", 3)]
  }

  function Pieces(stages: seq<seq<string>>): seq<Piece> {
    StagePieces(stages, true) + [Piece(" &", 3)]
  }

  function Text(pieces: seq<Piece>): string {
    if pieces == [] then "" else pieces[0].text + Text(pieces[1..])
  }

  const INITIAL_CAPACITY := 256

  /** The capacity after the one doubling the code allows itself. */
  function Grown(len: nat, cap: nat, room: nat): nat {
    if len + room >= cap then 2 * cap else cap
  }

  /** Every append, with its terminating zero, stays within the buffer. */
  predicate Fits(len: nat, cap: nat, pieces: seq<Piece>)
    decreases |pieces|
  {
    pieces == [] ||
    (var cap' := Grown(len, cap, pieces[0].room);
     var len' := len + |pieces[0].text|;
     len' < cap' && Fits(len', cap', pieces[1..]))
  }

  lemma {:induction false} TextConcat(a: seq<Piece>, b: seq<Piece>)
    ensures Text(a + b) == Text(a) + Text(b)
  {
    if a != [] {
      assert (a + b)[1..] == a[1..] + b;
      TextConcat(a[1..], b);
    } else {
      assert a + b == b;
    }
  }

  lemma {:induction false} WordPiecesSpell(words: seq<string>, first: bool)
    ensures Text(WordPieces(words, first)) == (if first || words == [] then "" else " ") + SpaceJoined(words)
  {
    if words != [] {
      WordPiecesSpell(words[1..], false);
    }
  }

  lemma TextOfOne(piece: Piece)
    ensures Text([piece]) == piece.text
  {
    assert Text([piece]) == piece.text + Text([]);
  }

  lemma {:induction false} StagePiecesSpell(stages: seq<seq<string>>, first: bool)
    requires stages != []
    ensures Text(StagePieces(stages, first)) == Text(Bar(first)) + RenderStages(stages)
  {
    var words, rest := WordPieces(stages[0], true), StagePieces(stages[1..], false);
    TextConcat(Bar(first) + words, rest);
    TextConcat(Bar(first), words);
    WordPiecesSpell(stages[0], true);
    assert Text(words) == SpaceJoined(stages[0]);
    if |stages| > 1 {
      StagePiecesSpell(stages[1..], false);
      TextOfOne(Piece(" | ", 3));
      TextsMeet(Text(Bar(first)), Text(words), Text(Bar(false)), RenderStages(stages[1..]));
    }
  }

  lemma TextsMeet(bar: string, stage: string, sep: string, rest: string)
    ensures bar + stage + (sep + rest) == bar + (stage + sep + rest)
  {
  }

  lemma PiecesSpell(stages: seq<seq<string>>)
    ensures Text(Pieces(stages)) == CommandString(stages)
  {
    var last := Piece(" &", 3);
    TextConcat(StagePieces(stages, true), [last]);
    TextOfOne(last);
    if stages != [] {
      StagePiecesSpell(stages, true);
      assert Text(StagePieces(stages, true)) == RenderStages(stages);
    }
  }

  ghost predicate WordsAtMost(stages: seq<seq<string>>, bound: nat) {
    forall stage, word | stage in stages && word in stage :: |word| <= bound
  }

  /** The state of the buffer between two appends; before a word that brings its own space the
      first, undoubled buffer must have one character more to spare. */
  predicate HasRoom(len: nat, cap: nat, beforeSpace: bool) {
    cap >= INITIAL_CAPACITY && len < cap && (beforeSpace && cap < 2 * INITIAL_CAPACITY ==> len + 1 < cap)
  }

  lemma {:induction false} WordsFit(len: nat, cap: nat, words: seq<string>, first: bool, behind: seq<Piece>)
    returns (len': nat, cap': nat)
    requires HasRoom(len, cap, !first) && forall word | word in words :: |word| <= 256
    ensures HasRoom(len', cap', false)
    ensures Fits(len', cap', behind) ==> Fits(len, cap, WordPieces(words, first) + behind)
    decreases |words|
  {
    var pieces := WordPieces(words, first);
    if words == [] {
      len', cap' := len, cap;
      assert pieces + behind == behind;
    } else {
      assert words[0] in words;
      len', cap' := len + |pieces[0].text|, Grown(len, cap, pieces[0].room);
      assert (pieces + behind)[1..] == WordPieces(words[1..], false) + behind;
      len', cap' := WordsFit(len', cap', words[1..], false, behind);
    }
  }

  lemma BarFits(len: nat, cap: nat, first: bool, behind: seq<Piece>) returns (len': nat, cap': nat)
    requires HasRoom(len, cap, false)
    ensures HasRoom(len', cap', false)
    ensures Fits(len', cap', behind) ==> Fits(len, cap, Bar(first) + behind)
  {
    if first {
      len', cap' := len, cap;
      assert Bar(first) + behind == behind;
    } else {
      len', cap' := len + 3, Grown(len, cap, 3);
      assert (Bar(first) + behind)[1..] == behind;
    }
  }

  lemma OneStageFits(len: nat, cap: nat, words: seq<string>, first: bool, behind: seq<Piece>)
    returns (len': nat, cap': nat)
    requires HasRoom(len, cap, false) && forall word | word in words :: |word| <= 256
    ensures HasRoom(len', cap', false)
    ensures Fits(len', cap', behind) ==> Fits(len, cap, Bar(first) + (WordPieces(words, true) + behind))
  {
    len', cap' := BarFits(len, cap, first, WordPieces(words, true) + behind);
    len', cap' := WordsFit(len', cap', words, true, behind);
  }

  lemma {:induction false} StagesFit(len: nat, cap: nat, stages: seq<seq<string>>, first: bool, behind: seq<Piece>)
    returns (len': nat, cap': nat)
    requires HasRoom(len, cap, false) && WordsAtMost(stages, 256)
    ensures HasRoom(len', cap', false)
    ensures Fits(len', cap', behind) ==> Fits(len, cap, StagePieces(stages, first) + behind)
    decreases |stages|
  {
    if stages == [] {
      len', cap' := len, cap;
      assert StagePieces(stages, first) + behind == behind;
    } else {
      assert stages[0] in stages;
      var rest := StagePieces(stages[1..], false) + behind;
      assert StagePieces(stages, first) + behind == Bar(first) + (WordPieces(stages[0], true) + rest);
      len', cap' := OneStageFits(len, cap, stages[0], first, rest);
      len', cap' := StagesFit(len', cap', stages[1..], false, behind);
    }
  }

  lemma ShortWordsFit(stages: seq<seq<string>>)
    requires WordsAtMost(stages, 256)
    ensures Fits(0, INITIAL_CAPACITY, Pieces(stages))
  {
    var last := [Piece(" &", 3)];
    var len, cap := StagesFit(0, INITIAL_CAPACITY, stages, true, last);
    assert last[1..] == [];
    assert Fits(len + 2, Grown(len, cap, 3), last[1..]);
  }

  function Filler(n: nat): (s: string)
    ensures |s| == n
  {
    seq(n, i => 'x')
  }

  lemma LongWordOverflows()
    ensures var stages := [[Filler(252)], [Filler(257)]];
      WordsAtMost(stages, 257) && !Fits(0, INITIAL_CAPACITY, Pieces(stages))
  {
    var stages := [[Filler(252)], [Filler(257)]];
    var pieces := Pieces(stages);
    assert stages[1..] == [[Filler(257)]] && stages[1..][1..] == [];
    assert WordPieces(stages[0], true) == [Piece(Filler(252), 254)];
    assert WordPieces(stages[1], true) == [Piece(Filler(257), 259)];
    assert pieces == [Piece(Filler(252), 254), Piece(" | ", 3), Piece(Filler(257), 259), Piece(" &", 3)];
    assert !Fits(255, 256, pieces[1..][1..]);
    assert !Fits(252, 256, pieces[1..]);
  }

  /** One doubling per append is enough for every job exactly as long as no word may exceed 256
      characters. */
  lemma BufferSufficesUpTo256(bound: nat)
    ensures (forall stages | WordsAtMost(stages, bound) :: Fits(0, INITIAL_CAPACITY, Pieces(stages))) <==> bound <= 256
  {
    if bound <= 256 {
      forall stages | WordsAtMost(stages, bound) ensures Fits(0, INITIAL_CAPACITY, Pieces(stages)) {
        ShortWordsFit(stages);
      }
    } else {
      LongWordOverflows();
      assert WordsAtMost([[Filler(252)], [Filler(257)]], bound);
    }
  }

  /** `cmd_str`: a zero-terminated string in a buffer that is doubled when it gets tight. */
  class StringBuffer {
    var chars: array<char>
    var len: nat

    ghost predicate Valid()
      reads this, chars
    {
      len < chars.Length && chars[len] == '\0'
    }

    ghost function Value(): string
      reads this, chars
      requires Valid()
    {
      chars[..len]
    }

    constructor ()
      ensures Valid() && fresh(chars) && chars.Length == INITIAL_CAPACITY && len == 0
    {
      chars := new char[INITIAL_CAPACITY];
      len := 0;
      new;
      chars[0] := '\0';
    }

    method Append(text: string, room: nat)
      requires Valid() && len + |text| < Grown(len, chars.Length, room)
      modifies this, chars
      ensures Valid() && (chars == old(chars) || fresh(chars))
      ensures chars.Length == Grown(old(len), old(chars.Length), room)
      ensures len == old(len) + |text| && Value() == old(Value()) + text
    {
      if len + room >= chars.Length {
        chars := Reallocated(chars, len, 2 * chars.Length);
      }
      StrCpy(chars, len, text);
      len := len + |text|;
    }
  }

  method Reallocated(chars: array<char>, len: nat, cap: nat) returns (larger: array<char>)
    requires len <= chars.Length && len <= cap
    ensures fresh(larger) && larger.Length == cap && larger[..len] == chars[..len]
  {
    larger := new char[cap];
    for i := 0 to len
      invariant larger[..i] == chars[..i]
    {
      larger[i] := chars[i];
    }
  }

  method StrCpy(chars: array<char>, at: nat, text: string)
    requires at + |text| < chars.Length
    modifies chars
    ensures chars[..at + |text|] == old(chars[..at]) + text && chars[at + |text|] == '\0'
  {
    for i := 0 to |text|
      invariant chars[..at + i] == old(chars[..at]) + text[..i]
    {
      chars[at + i] := text[i];
      assert chars[..at + i + 1] == chars[..at + i] + [text[i]];
    }
    chars[at + |text|] := '\0';
  }

  /** The text so far and the pieces still to come make up `goal`, and they fit. */
  ghost predicate Pending(text: string, cap: nat, pieces: seq<Piece>, goal: string) {
    Fits(|text|, cap, pieces) && text + Text(pieces) == goal
  }

  method AppendPiece(buffer: StringBuffer, text: string, room: nat, ghost rest: seq<Piece>, ghost goal: string)
    requires buffer.Valid() && Pending(buffer.Value(), buffer.chars.Length, [Piece(text, room)] + rest, goal)
    modifies buffer, buffer.chars
    ensures buffer.Valid() && (buffer.chars == old(buffer.chars) || fresh(buffer.chars))
    ensures Pending(buffer.Value(), buffer.chars.Length, rest, goal)
  {
    assert ([Piece(text, room)] + rest)[1..] == rest;
    buffer.Append(text, room);
  }

  lemma WordPiecesAt(words: seq<string>, ai: nat, rest: seq<Piece>)
    requires ai <= |words|
    ensures var pieces := WordPieces(words[ai..], ai == 0) + rest;
      if ai == |words| then pieces == rest
      else pieces == [Piece(if ai > 0 then " " + words[ai] else words[ai], |words[ai]| + 2)]
                     + (WordPieces(words[ai + 1..], false) + rest)
  {
    if ai < |words| {
      assert words[ai..][1..] == words[ai + 1..];
    }
  }

  lemma StagePiecesAt(stages: seq<seq<string>>, ci: nat, last: seq<Piece>)
    requires ci <= |stages|
    ensures var pieces := StagePieces(stages[ci..], ci == 0) + last;
      if ci == |stages| then pieces == last
      else
        var stage := WordPieces(stages[ci], true) + (StagePieces(stages[ci + 1..], false) + last);
        pieces == if ci == 0 then stage else [Piece(" | ", 3)] + stage
  {
    if ci < |stages| {
      assert stages[ci..][1..] == stages[ci + 1..];
    }
  }

  /** The text of a background job, built piece by piece; every write is within the buffer. */
  method BuildCommandString(stages: seq<seq<string>>) returns (text: string)
    requires Fits(0, INITIAL_CAPACITY, Pieces(stages))
    ensures text == CommandString(stages)
  {
    PiecesSpell(stages);
    var buffer := new StringBuffer();
    ghost var goal, last := CommandString(stages), [Piece(" &", 3)];
    assert stages[0..] == stages;
    for ci := 0 to |stages|
      invariant fresh(buffer) && fresh(buffer.chars) && buffer.Valid()
      invariant Pending(buffer.Value(), buffer.chars.Length, StagePieces(stages[ci..], ci == 0) + last, goal)
    {
      AppendStage(buffer, stages, ci, last, goal);
    }
    StagePiecesAt(stages, |stages|, last);
    assert last == [Piece(" &", 3)] + [];
    AppendPiece(buffer, " &", 3, [], goal);
    text := buffer.chars[..buffer.len];
  }

  /** One turn of the outer loop. */
  method AppendStage(
    buffer: StringBuffer, stages: seq<seq<string>>, ci: nat, ghost last: seq<Piece>, ghost goal: string)
    requires ci < |stages| && buffer.Valid()
    requires Pending(buffer.Value(), buffer.chars.Length, StagePieces(stages[ci..], ci == 0) + last, goal)
    modifies buffer, buffer.chars
    ensures buffer.Valid() && (buffer.chars == old(buffer.chars) || fresh(buffer.chars))
    ensures Pending(buffer.Value(), buffer.chars.Length, StagePieces(stages[ci + 1..], false) + last, goal)
  {
    ghost var rest := StagePieces(stages[ci + 1..], false) + last;
    StagePiecesAt(stages, ci, last);
    if ci > 0 {
      AppendPiece(buffer, " | ", 3, WordPieces(stages[ci], true) + rest, goal);
    }
    AppendWords(buffer, stages[ci], rest, goal);
  }

  /** The inner loop over the words of one stage. */
  method AppendWords(buffer: StringBuffer, words: seq<string>, ghost rest: seq<Piece>, ghost goal: string)
    requires buffer.Valid()
    requires Pending(buffer.Value(), buffer.chars.Length, WordPieces(words, true) + rest, goal)
    modifies buffer, buffer.chars
    ensures buffer.Valid() && (buffer.chars == old(buffer.chars) || fresh(buffer.chars))
    ensures Pending(buffer.Value(), buffer.chars.Length, rest, goal)
  {
    assert words[0..] == words;
    for ai := 0 to |words|
      invariant buffer.Valid() && (buffer.chars == old(buffer.chars) || fresh(buffer.chars))
      invariant Pending(buffer.Value(), buffer.chars.Length, WordPieces(words[ai..], ai == 0) + rest, goal)
    {
      WordPiecesAt(words, ai, rest);
      var text := if ai > 0 then " " + words[ai] else words[ai];
      AppendPiece(buffer, text, |words[ai]| + 2, WordPieces(words[ai + 1..], false) + rest, goal);
    }
    WordPiecesAt(words, |words|, rest);
  }

  /** A background job's text, built, tokenized and parsed again: the same job. */
  method ReparseCommandString(stages: seq<seq<string>>, opens: nat -> nat -> bool, ring: Ring) returns (p: Pipeline)
    requires ring.Valid() && IsPlainJob(stages, |ring.Contents()|) && Fits(0, INITIAL_CAPACITY, Pieces(stages))
    requires |Join(WithBackground(stages), "|")| < MAX_NUM_TOKENS
    ensures p == Pipeline(WithBackground(stages), Nowhere, Nowhere)
  {
    var text := BuildCommandString(stages);
    TokensOfCommandString(stages);
    var tokens := Tokenize(text);
    assert tokens == Tokens(text);
    p := ParsePipeline(tokens, opens, ring);
    PrintParseRoundTrip(stages, opens, ring.Contents(), p);
  }
}
