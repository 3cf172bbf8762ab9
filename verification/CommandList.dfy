/** The `;` list: which commands of an input line are run, and in which order; and the check a
    line has to pass first. */
module CommandList {
  import opened Sequences
  import opened Splitting
  import opened Tokenizer

  function NonEmpty(parts: seq<seq<string>>): seq<seq<string>> {
    if parts == [] then [] else (if parts[0] == [] then [] else [parts[0]]) + NonEmpty(parts[1..])
  }

  /** The commands of a line, left to right. */
  function Commands(tokens: seq<string>): seq<seq<string>> {
    NonEmpty(Split(tokens, ";"))
  }

  lemma {:induction false} NonEmptyDrops(parts: seq<seq<string>>)
    ensures forall part | part in NonEmpty(parts) :: part != [] && part in parts
    ensures forall part | part in parts && part != [] :: part in NonEmpty(parts)
  {
    if parts != [] {
      NonEmptyDrops(parts[1..]);
    }
  }

  /** Every command is a non-empty `;`-free stretch of the line, and every such stretch is one. */
  lemma CommandsAreSegments(tokens: seq<string>, command: seq<string>)
    ensures command in Commands(tokens) <==> command in Split(tokens, ";") && command != []
    ensures command in Commands(tokens) ==> ";" !in command
  {
    NonEmptyDrops(Split(tokens, ";"));
    SplitIsLossless(tokens, ";");
  }

  lemma {:induction false} NonEmptyKeepsAll(parts: seq<seq<string>>)
    requires forall part | part in parts :: part != []
    ensures NonEmpty(parts) == parts
  {
    if parts != [] {
      assert parts[0] in parts;
      assert forall part | part in parts[1..] :: part in parts;
      NonEmptyKeepsAll(parts[1..]);
    }
  }

  /** Commands joined by semicolons are run as they are, each once and in their order. */
  lemma CommandsKeepOrder(parts: seq<seq<string>>)
    requires parts != [] && forall part | part in parts :: part != [] && ";" !in part
    ensures Commands(Join(parts, ";")) == parts
  {
    SplitUndoesJoin(parts, ";");
    NonEmptyKeepsAll(parts);
  }

  lemma NonEmptyPrepends(part: seq<string>, rest: seq<seq<string>>)
    ensures NonEmpty([part] + rest) == (if part == [] then [] else [part]) + NonEmpty(rest)
  {
    assert ([part] + rest)[1..] == rest;
  }

  /** A semicolon or the end of the line. */
  predicate EndsCommand(tokens: seq<string>, i: nat) {
    i == |tokens| || (i < |tokens| && tokens[i] == ";")
  }

  /** The command that ends at i, then the commands behind it. */
  lemma CommandEndsAt(tokens: seq<string>, start: nat, i: nat)
    requires start <= i <= |tokens| && NoneBetween(tokens, ";", start, i) && EndsCommand(tokens, i)
    ensures NoneBetween(tokens, ";", i + 1, i + 1)
    ensures CommandsFrom(tokens, start)
         == (if tokens[start..i] == [] then [] else [tokens[start..i]]) + CommandsFrom(tokens, i + 1)
  {
    SplitAtIndex(tokens, start, i, ";");
    if i == |tokens| {
      NonEmptyPrepends(tokens[start..i], []);
      assert [tokens[start..i]] + [] == [tokens[start..i]];
    } else {
      NonEmptyPrepends(tokens[start..i], Split(tokens[i + 1..], ";"));
    }
  }

  lemma CommandGoesOn(tokens: seq<string>, start: nat, i: nat)
    requires i < |tokens| && NoneBetween(tokens, ";", start, i) && !EndsCommand(tokens, i)
    ensures NoneBetween(tokens, ";", start, i + 1)
  {
  }

  lemma AllCommands(tokens: seq<string>)
    ensures CommandsFrom(tokens, 0) == Commands(tokens) && CommandsFrom(tokens, |tokens|) == []
  {
    assert tokens[0..] == tokens && tokens[|tokens|..] == [];
  }

  /** The executor is asked for `commands` in order until it returns 0. */
  ghost predicate RunsUntilExit(
    commands: seq<seq<string>>, results: nat -> int, overall: int, executed: seq<seq<string>>)
  {
    && executed <= commands
    && (forall k | 0 <= k < |executed| - 1 :: results(k) != 0)
    && (overall == 0 || overall == 1)
    && (overall == 0 <==> executed != [] && results(|executed| - 1) == 0)
    && (overall == 1 ==> executed == commands)
  }

  /** The commands of the tokens from `start` on; the loop may step one past the end. */
  function CommandsFrom(tokens: seq<string>, start: nat): seq<seq<string>> {
    if start <= |tokens| then Commands(tokens[start..]) else []
  }

  /** So far no command asked for the exit, and `rest` is still to run. */
  ghost predicate Running(
    results: nat -> int, executed: seq<seq<string>>, rest: seq<seq<string>>, commands: seq<seq<string>>)
  {
    && (forall k | 0 <= k < |executed| :: results(k) != 0)
    && commands == executed + rest
  }

  lemma NothingRunYet(results: nat -> int, tokens: seq<string>)
    ensures Running(results, [], CommandsFrom(tokens, 0), Commands(tokens))
    ensures NoneBetween(tokens, ";", 0, 0)
  {
    AllCommands(tokens);
  }

  lemma NothingLeft(results: nat -> int, executed: seq<seq<string>>, tokens: seq<string>, start: nat)
    requires start >= |tokens| && Running(results, executed, CommandsFrom(tokens, start), Commands(tokens))
    ensures RunsUntilExit(Commands(tokens), results, 1, executed)
  {
    AllCommands(tokens);
  }

  /** One segment of the list: run unless it is empty. */
  method RunSegment(
    segment: seq<string>, results: nat -> int, before: seq<seq<string>>,
    ghost rest: seq<seq<string>>, ghost commands: seq<seq<string>>)
    returns (executed: seq<seq<string>>, exits: bool)
    requires Running(results, before, (if segment == [] then [] else [segment]) + rest, commands)
    ensures exits ==> RunsUntilExit(commands, results, 0, executed)
    ensures !exits ==> Running(results, executed, rest, commands)
  {
    executed, exits := before, false;
    if |segment| > 0 {
      executed := executed + [segment];
      exits := results(|executed| - 1) == 0;
    }
  }

  /** The segment between `start` and the semicolon, or the end, at i. */
  method RunCommandAt(
    tokens: seq<string>, start: nat, i: nat, results: nat -> int, before: seq<seq<string>>)
    returns (executed: seq<seq<string>>, exits: bool)
    requires start <= i <= |tokens| && NoneBetween(tokens, ";", start, i) && EndsCommand(tokens, i)
    requires Running(results, before, CommandsFrom(tokens, start), Commands(tokens))
    ensures NoneBetween(tokens, ";", i + 1, i + 1)
    ensures exits ==> RunsUntilExit(Commands(tokens), results, 0, executed)
    ensures !exits ==> Running(results, executed, CommandsFrom(tokens, i + 1), Commands(tokens))
  {
    CommandEndsAt(tokens, start, i);
    executed, exits := RunSegment(tokens[start..i], results, before, CommandsFrom(tokens, i + 1), Commands(tokens));
  }

  /** Runs the commands of a tokenized line. `results(k)` is what the executor returns for the
      k-th command it is given; 0 asks the shell to exit. */
  method RunCommands(tokens: seq<string>, results: nat -> int) returns (overall: int, executed: seq<seq<string>>)
    ensures RunsUntilExit(Commands(tokens), results, overall, executed)
  {
    executed := [];
    overall := 1;
    NothingRunYet(results, tokens);
    if |tokens| == 0 {
      NothingLeft(results, executed, tokens, 0);
    } else {
      overall, executed := RunList(tokens, results);
    }
  }

  /** The loop over the tokens. */
  method RunList(tokens: seq<string>, results: nat -> int) returns (overall: int, executed: seq<seq<string>>)
    ensures RunsUntilExit(Commands(tokens), results, overall, executed)
  {
    executed := [];
    overall := 1;
    NothingRunYet(results, tokens);
    var start, i := 0, 0;
    while i < |tokens| || start < i
      invariant start <= i <= |tokens| && overall == 1
      invariant NoneBetween(tokens, ";", start, i)
      invariant Running(results, executed, CommandsFrom(tokens, start), Commands(tokens))
      decreases |tokens| - i
    {
      if EndsCommand(tokens, i) {
        var exits;
        executed, exits := RunCommandAt(tokens, start, i, results, executed);
        if exits {
          overall := 0;
          return;
        }
        start := i + 1;
        if i == |tokens| {
          break;
        }
      } else {
        CommandGoesOn(tokens, start, i);
      }
      i := i + 1;
    }
    NothingLeft(results, executed, tokens, start);
  }

  method ProcessCommand(input: string, results: nat -> int) returns (overall: int, executed: seq<seq<string>>)
    ensures RunsUntilExit(Commands(Take(Tokens(input), MAX_NUM_TOKENS - 1)), results, overall, executed)
  {
    var tokens := Tokenize(input);
    overall, executed := RunCommands(tokens, results);
  }

  /** The first command that returns 0 is the last that is run; without one, all are. */
  lemma FirstZeroEndsTheList(
    commands: seq<seq<string>>, results: nat -> int, overall: int, executed: seq<seq<string>>, k: nat)
    requires RunsUntilExit(commands, results, overall, executed)
    requires k <= |commands| && forall j | 0 <= j < k :: results(j) != 0
    requires k < |commands| ==> results(k) == 0
    ensures k == |commands| ==> executed == commands && overall == 1
    ensures k < |commands| ==> executed == commands[..k + 1] && overall == 0
  {
    var n := |executed|;
    assert k < n - 1 ==> results(k) != 0;
    assert executed == commands[..n];
  }

  // The syntax check

  predicate BlankBetween(s: string, i: nat, j: nat)
    requires j <= |s|
  {
    forall k | i <= k < j :: IsBlank(s[k])
  }

  /** Only blanks stand before an operator. */
  ghost predicate StartsWithOperator(input: string) {
    exists i :: 0 <= i < |input| && IsOperator(input[i]) && BlankBetween(input, 0, i)
  }

  /** A pipe, a space, possibly more blanks, and then a semicolon. */
  ghost predicate PipesIntoSemicolon(input: string) {
    exists i, j :: 0 <= i && i + 1 < j < |input| && PipeThenSemicolonAt(input, i, j)
  }

  predicate PipeThenSemicolonAt(input: string, i: nat, j: nat)
    requires i + 1 < j < |input|
  {
    input[i] == '|' && input[i + 1] == ' ' && BlankBetween(input, i + 1, j) && input[j] == ';'
  }

  predicate IsGap(gap: string) {
    forall k | 0 <= k < |gap| :: gap[k] == ' ' || gap[k] == '\t'
  }

  lemma PatternParts(input: string, i: nat, j: nat)
    requires i + 1 < j < |input| && PipeThenSemicolonAt(input, i, j)
    ensures input == input[..i] + "| " + input[i + 2..j] + ";" + input[j + 1..] && IsGap(input[i + 2..j])
  {
    var gap := input[i + 2..j];
    forall k | 0 <= k < |gap| ensures gap[k] == ' ' || gap[k] == '\t' {
      assert IsBlank(input[i + 2 + k]);
    }
    assert input[i..i + 2] == "| ";
  }

  lemma PartsArePattern(a: string, gap: string, b: string)
    requires IsGap(gap)
    ensures PipesIntoSemicolon(a + "| " + gap + ";" + b)
  {
    var input, i := a + "| " + gap + ";" + b, |a|;
    var j := i + 2 + |gap|;
    forall k | i + 1 <= k < j ensures IsBlank(input[k]) {
      assert k > i + 1 ==> input[k] == gap[k - i - 2];
    }
    assert PipeThenSemicolonAt(input, i, j);
  }

  /** The refused pattern, written out. */
  lemma PatternExactly(input: string)
    ensures PipesIntoSemicolon(input) <==>
      exists a, gap, b :: IsGap(gap) && input == a + "| " + gap + ";" + b
  {
    if PipesIntoSemicolon(input) {
      var i, j :| 0 <= i && i + 1 < j < |input| && PipeThenSemicolonAt(input, i, j);
      PatternParts(input, i, j);
    }
    if a, gap, b :| IsGap(gap) && input == a + "| " + gap + ";" + b {
      PartsArePattern(a, gap, b);
    }
  }

  /** An operator that comes first, written out. */
  lemma LeadingOperatorExactly(input: string)
    ensures StartsWithOperator(input) <==>
      exists gap, b :: IsGap(gap) && (input == gap + ";" + b || input == gap + "|" + b || input == gap + "&" + b)
  {
    if i :| 0 <= i < |input| && IsOperator(input[i]) && BlankBetween(input, 0, i) {
      assert IsGap(input[..i]);
      assert input == input[..i] + [input[i]] + input[i + 1..];
    }
    if gap, b :| IsGap(gap) && (input == gap + ";" + b || input == gap + "|" + b || input == gap + "&" + b) {
      assert forall k | 0 <= k < |gap| :: input[k] == gap[k];
      assert IsOperator(input[|gap|]) && BlankBetween(input, 0, |gap|);
    }
  }

  predicate StandsAt(s: string, sub: string, i: nat) {
    i + |sub| <= |s| && s[i..i + |sub|] == sub
  }

  predicate Contains(s: string, sub: string) {
    exists i | 0 <= i <= |s| :: StandsAt(s, sub, i)
  }

  lemma ContainsIsPipeThenSemicolon(input: string)
    requires Contains(input, "| ;")
    ensures PipesIntoSemicolon(input)
  {
    var i :| 0 <= i <= |input| && StandsAt(input, "| ;", i);
    assert input[i] == input[i..i + 3][0] && input[i + 1] == input[i..i + 3][1] && input[i + 2] == input[i..i + 3][2];
    assert PipeThenSemicolonAt(input, i, i + 2);
  }

  method ValidateSyntax(input: string) returns (valid: bool)
    ensures valid <==> !StartsWithOperator(input) && !PipesIntoSemicolon(input)
  {
    if |input| == 0 {
      return true;
    }
    var trimmed := 0;
    while trimmed < |input| && IsBlank(input[trimmed])
      invariant trimmed <= |input| && BlankBetween(input, 0, trimmed)
    {
      trimmed := trimmed + 1;
    }
    if trimmed < |input| && IsOperator(input[trimmed]) {
      return false;
    }
    if Contains(input, "| ;") {
      ContainsIsPipeThenSemicolon(input);
      return false;
    }
    var i := 0;
    while i < |input| - 1
      invariant 0 <= i <= |input| - 1
      invariant forall a, b | 0 <= a < i && a + 1 < b < |input| :: !PipeThenSemicolonAt(input, a, b)
    {
      if input[i] == '|' && input[i + 1] == ' ' {
        var j := i + 1;
        while j < |input| && IsBlank(input[j])
          invariant i + 1 <= j <= |input| && BlankBetween(input, i + 1, j)
        {
          j := j + 1;
        }
        if j < |input| && input[j] == ';' {
          assert PipeThenSemicolonAt(input, i, j);
          return false;
        }
      }
      i := i + 1;
    }
    valid := true;
  }
}
