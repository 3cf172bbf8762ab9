/** `log execute`: a parsed stage may be replaced by a history entry, and the `log` built-in may
    hand a history entry to the executor again. When can the second happen, and does it end? */
module Reentry {
  import opened Sequences
  import opened Splitting
  import opened Tokenizer
  import opened Redirections
  import opened Numbers
  import opened History
  import opened Pipelines

  /** The commands the executor gets for some tokens. */
  function CommandsOf(tokens: seq<string>, h: seq<string>): (commands: seq<seq<string>>)
    ensures |commands| == |Stages(tokens)|
    ensures forall i | 0 <= i < |commands| :: commands[i] == Expand(StageWords(Stages(tokens)[i]), h)
  {
    var stages := Stages(tokens);
    seq(|stages|, i requires 0 <= i < |stages| => Expand(StageWords(stages[i]), h))
  }

  function StripBackground(args: seq<string>): seq<string> {
    if args != [] && args[|args| - 1] == "&" then args[..|args| - 1] else args
  }

  /** The arguments a built-in is called with: a single command only in the foreground, the
      stages of a longer pipeline in their child processes. */
  function BuiltinCalls(commands: seq<seq<string>>): seq<seq<string>> {
    if |commands| == 1 then (if StripBackground(commands[0]) == commands[0] then commands else [])
    else if commands == [] then []
    else commands[..|commands| - 1] + [StripBackground(commands[|commands| - 1])]
  }

  /** The branch of the `log` built-in that calls the executor, and the entry it names. */
  predicate RunsEntry(args: seq<string>, h: seq<string>) {
    |args| == 3 && args[0] == "log" && args[1] == "execute" &&
    var (index, whole) := WholeNumber(args[2]);
    whole && 0 < index <= |h|
  }

  function EntryTokens(args: seq<string>, h: seq<string>): seq<string>
    requires RunsEntry(args, h)
  {
    Take(Tokens(h[|h| - WholeNumber(args[2]).0]), MAX_NUM_TOKENS - 1)
  }

  /** Executing `tokens` calls the executor again with `nested`. */
  ghost predicate Calls(h: seq<string>, tokens: seq<string>, nested: seq<string>) {
    exists args :: args in BuiltinCalls(CommandsOf(tokens, h)) && RunsEntry(args, h) && nested == EntryTokens(args, h)
  }

  /** `chain` begins with `tokens`, and executing each of its elements calls the executor with
      the next. */
  ghost predicate IsCallChain(h: seq<string>, tokens: seq<string>, chain: seq<seq<string>>) {
    && chain != [] && chain[0] == tokens
    && forall i | 0 < i < |chain| :: Calls(h, chain[i - 1], chain[i])
  }

  ghost predicate NestsTo(h: seq<string>, tokens: seq<string>, depth: nat) {
    exists chain :: |chain| == depth + 1 && IsCallChain(h, tokens, chain)
  }

  // Exactly which histories allow it

  /** The tokens of the entry are themselves a valid `log execute`. */
  ghost predicate NamesEntry(entry: string, h: seq<string>) {
    var args := Take(Tokens(entry), MAX_NUM_TOKENS - 1);
    RunsEntry(args, h) || RunsEntry(StripBackground(args), h)
  }

  lemma RunnableIsExpanded(words: seq<string>, h: seq<string>)
    requires RunsEntry(words, h) || RunsEntry(StripBackground(words), h)
    ensures LogExecuteIndex(words, |h|) > 0
  {
    assert WholeNumber("") == (0, true);
    var args := if RunsEntry(words, h) then words else StripBackground(words);
    assert words[2] == args[2];
  }

  lemma CallIsCommand(commands: seq<seq<string>>, args: seq<string>) returns (command: seq<string>)
    requires args in BuiltinCalls(commands)
    ensures command in commands && (args == command || args == StripBackground(command))
  {
    var i :| 0 <= i < |BuiltinCalls(commands)| && BuiltinCalls(commands)[i] == args;
    command := commands[i];
  }

  lemma ExpansionNamesEntry(words: seq<string>, h: seq<string>) returns (entry: string)
    requires var command := Expand(words, h); RunsEntry(command, h) || RunsEntry(StripBackground(command), h)
    ensures entry in h && NamesEntry(entry, h)
  {
    var index := LogExecuteIndex(words, |h|);
    if index == 0 {
      RunnableIsExpanded(words, h);
      assert false;
    }
    entry := h[|h| - index];
  }

  lemma CallComesFromEntry(h: seq<string>, tokens: seq<string>, args: seq<string>) returns (entry: string)
    requires args in BuiltinCalls(CommandsOf(tokens, h)) && RunsEntry(args, h)
    ensures entry in h && NamesEntry(entry, h)
  {
    var command := CallIsCommand(CommandsOf(tokens, h), args);
    var i :| 0 <= i < |CommandsOf(tokens, h)| && CommandsOf(tokens, h)[i] == command;
    entry := ExpansionNamesEntry(StageWords(Stages(tokens)[i]), h);
  }

  function ExecuteStage(n: nat): seq<string> {
    ["log", "execute", Decimal(n)]
  }

  lemma NumeralIsAWord(n: nat)
    ensures !IsRedirect(Decimal(n)) && Decimal(n) != "|"
  {
    DecimalDenotes(n);
    assert '0' <= Decimal(n)[0] <= '9';
    assert "<"[0] == '<' && ">"[0] == '>' && ">>"[0] == '>' && "|"[0] == '|';
  }

  lemma ExecuteStageIsPlain(n: nat)
    ensures StageWords(ExecuteStage(n)) == ExecuteStage(n)
    ensures "|" !in ExecuteStage(n)
  {
    NumeralIsAWord(n);
    var stage := ExecuteStage(n);
    assert stage[0] == "log" && stage[1] == "execute" && stage[2] == Decimal(n);
    PlainStage(stage);
  }

  lemma TrueIsPlain()
    ensures StageWords(["true"]) == ["true"] && "|" !in ["true"]
  {
    PlainStage(["true"]);
  }

  /** `log execute n` puts the tokens of the n-th newest entry in place of the stage; they are
      not cut at `;` or `|` and not searched for redirections again. */
  lemma StageIsReplaced(h: seq<string>, n: nat)
    requires 1 <= n <= |h| <= MAX_LOG_SIZE
    ensures CommandsOf(ExecuteStage(n), h) == [Take(Tokens(h[|h| - n]), MAX_NUM_TOKENS - 1)]
  {
    ExecuteIndexIs(n, |h|);
    ExecuteStageIsPlain(n);
    SplitAfterPart(ExecuteStage(n), [], "|");
  }

  lemma ExecuteIndexIs(n: nat, count: nat)
    requires 1 <= n <= count <= MAX_LOG_SIZE
    ensures LogExecuteIndex(ExecuteStage(n), count) == n
  {
    DecimalIsRead(n);
  }

  lemma LastStageIsReplaced(h: seq<string>, n: nat)
    requires 1 <= n <= |h| <= MAX_LOG_SIZE
    ensures CommandsOf(["true"] + ["|"] + ExecuteStage(n), h)
         == [["true"], Take(Tokens(h[|h| - n]), MAX_NUM_TOKENS - 1)]
  {
    ExecuteIndexIs(n, |h|);
    ExecuteStageIsPlain(n);
    TrueIsPlain();
    SplitAfterPart(ExecuteStage(n), [], "|");
    SplitAfterPart(["true"], ExecuteStage(n), "|");
  }

  lemma StripKeepsRunnable(args: seq<string>, h: seq<string>)
    requires RunsEntry(args, h)
    ensures StripBackground(args) == args
  {
    assert WholeNumber("&") == (0, false);
  }

  lemma StrippedRuns(command: seq<string>, h: seq<string>)
    requires RunsEntry(command, h) || RunsEntry(StripBackground(command), h)
    ensures RunsEntry(StripBackground(command), h)
  {
    if RunsEntry(command, h) {
      StripKeepsRunnable(command, h);
    }
  }

  lemma EntryAllowsReentry(h: seq<string>, entry: string) returns (tokens: seq<string>, nested: seq<string>)
    requires |h| <= MAX_LOG_SIZE && entry in h && NamesEntry(entry, h)
    ensures Calls(h, tokens, nested)
  {
    var i :| 0 <= i < |h| && h[i] == entry;
    var command := Take(Tokens(entry), MAX_NUM_TOKENS - 1);
    StrippedRuns(command, h);
    tokens, nested := LastStageCalls(h, |h| - i, command);
  }

  lemma LastStageCalls(h: seq<string>, n: nat, command: seq<string>)
    returns (tokens: seq<string>, nested: seq<string>)
    requires 1 <= n <= |h| <= MAX_LOG_SIZE && command == Take(Tokens(h[|h| - n]), MAX_NUM_TOKENS - 1)
    requires RunsEntry(StripBackground(command), h)
    ensures Calls(h, tokens, nested)
  {
    tokens := ["true"] + ["|"] + ExecuteStage(n);
    nested := EntryTokens(StripBackground(command), h);
    LastStageIsReplaced(h, n);
    LastCallIsStripped(["true"], command);
    CallsFor(h, tokens, StripBackground(command));
  }

  /** A single command runs as the built-in exactly if it stands in the foreground. */
  lemma OneCommandCalls(h: seq<string>, tokens: seq<string>, nested: seq<string>, command: seq<string>)
    requires CommandsOf(tokens, h) == [command] && command != []
    ensures Calls(h, tokens, nested) <==>
      command[|command| - 1] != "&" && RunsEntry(command, h) && nested == EntryTokens(command, h)
  {
    assert BuiltinCalls([command]) == if command[|command| - 1] == "&" then [] else [command];
    if command[|command| - 1] != "&" && RunsEntry(command, h) {
      assert command in [command];
      CallsFor(h, tokens, command);
    }
  }

  /** The entry that is run is the one that was named, counted from the newest. */
  lemma RunsNamedEntry(h: seq<string>, n: nat)
    requires 1 <= n <= |h| <= 15
    ensures RunsEntry(["log", "execute", Decimal(n)], h)
    ensures EntryTokens(["log", "execute", Decimal(n)], h) == Take(Tokens(h[|h| - n]), 255)
  {
    DecimalIsRead(n);
    assert ["log", "execute", Decimal(n)][2] == Decimal(n);
  }

  lemma CallsFor(h: seq<string>, tokens: seq<string>, args: seq<string>)
    requires args in BuiltinCalls(CommandsOf(tokens, h)) && RunsEntry(args, h)
    ensures Calls(h, tokens, EntryTokens(args, h))
  {
  }

  lemma LastCallIsStripped(first: seq<string>, last: seq<string>)
    ensures StripBackground(last) in BuiltinCalls([first, last])
  {
    var calls := BuiltinCalls([first, last]);
    assert calls == [first] + [StripBackground(last)];
    assert calls[1] == StripBackground(last);
  }

  /** Some command makes the executor call itself through the `log` built-in exactly when the
      history holds an entry whose tokens are a valid `log execute`. */
  lemma ReentryExactly(h: seq<string>)
    requires |h| <= MAX_LOG_SIZE
    ensures (exists tokens, nested :: Calls(h, tokens, nested))
       <==> (exists entry :: entry in h && NamesEntry(entry, h))
  {
    if tokens, nested :| Calls(h, tokens, nested) {
      var args :| args in BuiltinCalls(CommandsOf(tokens, h)) && RunsEntry(args, h);
      var entry := CallComesFromEntry(h, tokens, args);
    }
    if entry :| entry in h && NamesEntry(entry, h) {
      var tokens, nested := EntryAllowsReentry(h, entry);
    }
  }

  // The filter of the history and the tokenizer

  ghost predicate NoQuotes(line: string) {
    forall c | c in line :: !IsQuote(c)
  }

  lemma {:induction false} UnquotedWordEnds(line: string, i: nat)
    requires i <= |line| && NoQuotes(line)
    ensures var end := WordEnd(line, i, Plain); end == |line| || Splits(Plain, line[end])
    decreases |line| - i
  {
    if i < |line| && !Splits(Plain, line[i]) {
      assert line[i] in line;
      UnquotedWordEnds(line, i + 1);
    }
  }

  lemma WordIsUndelimited(line: string, i: nat)
    requires i + 3 <= |line| && line[i..i + 3] == "log"
    requires i + 3 < |line| ==> IsDelimiter(line[i + 3])
    ensures FirstWord(line[i..]) == "log"
  {
    var rest := line[i..];
    assert rest[0] == line[i..i + 3][0] && rest[1] == line[i..i + 3][1] && rest[2] == line[i..i + 3][2];
    assert Undelimited(rest[3..]) == "";
    assert rest[1..][1..] == rest[2..] && rest[2..][1..] == rest[3..];
    assert Undelimited(rest[2..]) == "g";
    assert Undelimited(rest[1..]) == "og";
  }

  /** Without quotes, tokens that begin with `log execute` can only come from a line whose first
      strtok word is `log`. */
  lemma {:induction false} LogExecuteTokensAreFiltered(line: string, i: nat)
    requires i <= |line| && NoQuotes(line)
    requires var tokens := TokensFrom(line, i); |tokens| >= 2 && tokens[0] == "log" && tokens[1] == "execute"
    ensures FirstWord(line[i..]) == "log"
    decreases |line| - i
  {
    assert line[i] in line;
    if IsBlank(line[i]) {
      LogExecuteTokensAreFiltered(line, i + 1);
      assert line[i..][1..] == line[i + 1..];
    } else if !IsOperator(line[i]) {
      var end := WordEnd(line, i, Plain);
      UnquotedWordEnds(line, i);
      assert line[i..end][0] == line[i];
      assert line[i..end] == "log";
      assert end < |line| ==> !IsOperator(line[end]);
      WordIsUndelimited(line, i);
    }
  }

  ghost predicate Clean(h: seq<string>) {
    forall entry | entry in h :: !IsLogCommand(entry) && NoQuotes(entry)
  }

  lemma CleanEntryNamesNothing(h: seq<string>, entry: string)
    requires !IsLogCommand(entry) && NoQuotes(entry)
    ensures !NamesEntry(entry, h)
  {
    var tokens := Tokens(entry);
    assert entry[0..] == entry;
    if |tokens| >= 2 && tokens[0] == "log" && tokens[1] == "execute" {
      LogExecuteTokensAreFiltered(entry, 0);
      assert false;
    }
  }

  /** With a history that the filter has kept clean and that holds no quote, no command ever
      re-enters the executor, so every command ends after one expansion. */
  lemma CleanHistoryNeverReenters(h: seq<string>, tokens: seq<string>, nested: seq<string>)
    requires Clean(h)
    ensures !Calls(h, tokens, nested) && !NestsTo(h, tokens, 1)
  {
    forall t, args | args in BuiltinCalls(CommandsOf(t, h)) && RunsEntry(args, h) ensures false {
      var entry := CallComesFromEntry(h, t, args);
      CleanEntryNamesNothing(h, entry);
    }
    assert forall n :: !Calls(h, tokens, n);
    assert forall chain | |chain| == 2 && IsCallChain(h, tokens, chain) :: Calls(h, chain[0], chain[1]);
  }

  /** Starting from a clean log file, commands without quotes keep the history clean. */
  lemma AddKeepsClean(h: seq<string>, command: string)
    requires Clean(h) && NoQuotes(command)
    ensures Clean(Add(h, command))
  {
  }

  /** The lines that a file of clean entries is read back as. */
  lemma {:induction false} LinesOfClean(h: seq<string>)
    requires Clean(h) && forall entry | entry in h :: FitsOnALine(entry) || FillsBuffer(entry)
    ensures Clean(Lines(FileText(h)))
    decreases h
  {
    if h != [] {
      assert h == [h[0]] + h[1..] && h[0] in h;
      LinesOfClean(h[1..]);
      if FitsOnALine(h[0]) {
        LinesOfEntry(h[0], FileText(h[1..]));
      } else {
        LinesOfFullEntry(h[0], FileText(h[1..]));
        assert !IsLogCommand("");
      }
    }
  }

  /** A line that the shell can take from its input and record. */
  ghost predicate IsTyped(command: string) {
    NoQuotes(command) && '\n' !in command && |command| < MAX_INPUT_SIZE
  }

  ghost predicate TypedOnly(events: seq<Event>) {
    forall e | e in events :: e.Enter? ==> IsTyped(e.command)
  }

  /** Clean, and no entry that a reading buffer would cut. */
  ghost predicate CleanAndShort(h: seq<string>) {
    Clean(h) && forall entry | entry in h :: FitsOnALine(entry) || FillsBuffer(entry)
  }

  lemma {:induction false} LinesAreShort(file: string)
    ensures forall line | line in Lines(file) :: FitsOnALine(line) || FillsBuffer(line)
    decreases |file|
  {
    if file != "" {
      var n := FgetsLength(file, 0);
      UpToNewlineIsPrefix(file[..n]);
      LinesAreShort(file[n..]);
    }
  }

  lemma LoadedIsShort(file: string)
    requires Clean(Loaded(file))
    ensures CleanAndShort(Loaded(file))
  {
    LinesAreShort(file);
  }

  lemma {:induction false} SessionKeepsClean(h: seq<string>, events: seq<Event>)
    requires CleanAndShort(h) && TypedOnly(events)
    ensures CleanAndShort(After(h, events))
    decreases |events|
  {
    if events != [] {
      var last := events[|events| - 1];
      assert last in events;
      SessionKeepsClean(h, events[..|events| - 1]);
    }
  }

  /** The history after some sessions, each of which saves it and leaves it to the next. */
  function AfterSessions(file: string, sessions: seq<seq<Event>>): seq<string> {
    if sessions == [] then Loaded(file)
    else Loaded(FileText(After(AfterSessions(file, sessions[..|sessions| - 1]), sessions[|sessions| - 1])))
  }

  lemma {:induction false} SessionsKeepClean(file: string, sessions: seq<seq<Event>>)
    requires Clean(Loaded(file)) && forall events | events in sessions :: TypedOnly(events)
    ensures CleanAndShort(AfterSessions(file, sessions))
    decreases |sessions|
  {
    if sessions == [] {
      LoadedIsShort(file);
    } else {
      var before, last := AfterSessions(file, sessions[..|sessions| - 1]), sessions[|sessions| - 1];
      assert last in sessions;
      SessionsKeepClean(file, sessions[..|sessions| - 1]);
      SessionKeepsClean(before, last);
      LinesOfClean(After(before, last));
      LoadedIsShort(FileText(After(before, last)));
    }
  }

  /** If the first log file is clean and nothing with a quote is ever entered, then no command
      re-enters the executor, at any moment of any later session. */
  lemma SessionsNeverReenter(
    file: string, sessions: seq<seq<Event>>, events: seq<Event>, tokens: seq<string>, nested: seq<string>)
    requires Clean(Loaded(file)) && TypedOnly(events) && forall session | session in sessions :: TypedOnly(session)
    ensures var h := After(AfterSessions(file, sessions), events);
      !Calls(h, tokens, nested) && !NestsTo(h, tokens, 1)
  {
    SessionsKeepClean(file, sessions);
    SessionKeepsClean(AfterSessions(file, sessions), events);
    CleanHistoryNeverReenters(After(AfterSessions(file, sessions), events), tokens, nested);
  }

  // When it does re-enter: whether that ends

  /** What the entries of the history are run as. */
  function EntryCommands(h: seq<string>): (commands: seq<seq<string>>)
    ensures |commands| == |h|
    ensures forall i | 0 <= i < |h| :: commands[i] == Take(Tokens(h[i]), MAX_NUM_TOKENS - 1)
  {
    seq(|h|, i requires 0 <= i < |h| => Take(Tokens(h[i]), MAX_NUM_TOKENS - 1))
  }

  lemma EntryIsCommand(h: seq<string>, i: nat)
    requires i < |h|
    ensures Take(Tokens(h[i]), MAX_NUM_TOKENS - 1) in EntryCommands(h)
  {
    assert EntryCommands(h)[i] in EntryCommands(h);
  }

  lemma RunEntryIsCommand(args: seq<string>, h: seq<string>)
    requires RunsEntry(args, h)
    ensures EntryTokens(args, h) in EntryCommands(h)
  {
    EntryIsCommand(h, |h| - WholeNumber(args[2]).0);
  }

  lemma CalledIsEntry(h: seq<string>, tokens: seq<string>, nested: seq<string>)
    requires Calls(h, tokens, nested)
    ensures nested in EntryCommands(h)
  {
    var args :| RunsEntry(args, h) && nested == EntryTokens(args, h);
    RunEntryIsCommand(args, h);
  }

  lemma ChainFrom(h: seq<string>, tokens: seq<string>, chain: seq<seq<string>>, from: nat, to: nat)
    requires IsCallChain(h, tokens, chain) && from < to <= |chain|
    ensures IsCallChain(h, chain[from], chain[from..to])
  {
  }

  lemma ChainsJoin(h: seq<string>, tokens: seq<string>, a: seq<seq<string>>, b: seq<seq<string>>)
    requires IsCallChain(h, tokens, a) && IsCallChain(h, a[|a| - 1], b)
    ensures IsCallChain(h, tokens, a[..|a| - 1] + b)
  {
    var n, chain := |a| - 1, a[..|a| - 1] + b;
    forall i | 0 < i < |chain| ensures Calls(h, chain[i - 1], chain[i]) {
      if i <= n {
        assert chain[i - 1] == a[i - 1] && chain[i] == a[i];
      } else {
        assert chain[i - 1] == b[i - 1 - n] && chain[i] == b[i - n];
      }
    }
  }

  /** A chain that leads on from the end of another, together at least as deep as asked for. */
  lemma NestsBehind(h: seq<string>, tokens: seq<string>, a: seq<seq<string>>, behind: nat, depth: nat)
    requires IsCallChain(h, tokens, a) && NestsTo(h, a[|a| - 1], behind) && depth < |a| + behind
    ensures NestsTo(h, tokens, depth)
  {
    var b :| |b| == behind + 1 && IsCallChain(h, a[|a| - 1], b);
    ChainsJoin(h, tokens, a, b);
    ChainFrom(h, tokens, a[..|a| - 1] + b, 0, depth + 1);
  }

  lemma {:induction false} LoopNests(h: seq<string>, tokens: seq<string>, loop: seq<seq<string>>, depth: nat)
    requires IsCallChain(h, tokens, loop) && |loop| > 1 && loop[|loop| - 1] == tokens
    ensures NestsTo(h, tokens, depth)
  {
    if depth == 0 {
      assert IsCallChain(h, tokens, [tokens]);
    } else {
      LoopNests(h, tokens, loop, depth - 1);
      NestsBehind(h, tokens, loop, depth - 1, depth);
    }
  }

  lemma DeepNestingRepeats(h: seq<string>, tokens: seq<string>, chain: seq<seq<string>>) returns (i: nat, j: nat)
    requires IsCallChain(h, tokens, chain) && |chain| == |h| + 2
    ensures 0 < i < j < |chain| && chain[i] == chain[j]
  {
    forall command | command in chain[1..] ensures command in EntryCommands(h) {
      var k :| 0 < k < |chain| && chain[k] == command;
      CalledIsEntry(h, chain[k - 1], chain[k]);
    }
    i, j := Pigeonhole(chain[1..], EntryCommands(h));
    i, j := i + 1, j + 1;
  }

  /** A command nests to every depth exactly when it nests one deeper than there are entries:
      either it ends by then or it has come back to a command that it has run before. */
  lemma NestsForeverExactly(h: seq<string>, tokens: seq<string>)
    ensures (forall depth: nat :: NestsTo(h, tokens, depth)) <==> NestsTo(h, tokens, |h| + 1)
  {
    if NestsTo(h, tokens, |h| + 1) {
      var chain :| |chain| == |h| + 2 && IsCallChain(h, tokens, chain);
      var i, j := DeepNestingRepeats(h, tokens, chain);
      ChainFrom(h, tokens, chain, 0, i + 1);
      ChainFrom(h, tokens, chain, i, j + 1);
      forall depth: nat ensures NestsTo(h, tokens, depth) {
        LoopNests(h, chain[i], chain[i..j + 1], depth);
        NestsBehind(h, tokens, chain[0..i + 1], depth, depth);
      }
    }
  }

  lemma QuotedEntryIsRecorded()
    ensures Add([], "'log' execute 1") == ["'log' execute 1"]
  {
    var entry := "'log' execute 1";
    assert FirstWord(entry) == Undelimited(entry) && Undelimited(entry)[0] == '\'';
    assert "log"[0] == 'l';
  }

  lemma QuotedEntryCallsItself()
    ensures Calls(["'log' execute 1"], ["log", "execute", "1"], ["log", "execute", "1"])
  {
    var h := ["'log' execute 1"];
    assert h[|h| - 1] == "'log' execute 1" && Decimal(1) == "1";
    QuotedLogTokens();
    SelfNamingEntryCallsItself(h, ["log", "execute", Decimal(1)]);
  }

  /** A single entry that is spelled so that its tokens name itself. */
  lemma SelfNamingEntryCallsItself(h: seq<string>, command: seq<string>)
    requires |h| == 1 && command == ["log", "execute", Decimal(1)] == Tokens(h[0])
    ensures Calls(h, command, command)
  {
    assert Take(command, MAX_NUM_TOKENS - 1) == command;
    StageIsReplaced(h, 1);
    RunsNamedEntry(h, 1);
    NumeralIsNoAmpersand();
    OneCommandCalls(h, command, command, command);
  }

  lemma NumeralIsNoAmpersand()
    ensures Decimal(1) != "&"
  {
    assert Decimal(1)[0] == '1';
  }

  lemma SelfCallNests(h: seq<string>, tokens: seq<string>, depth: nat)
    requires Calls(h, tokens, tokens)
    ensures NestsTo(h, tokens, depth)
  {
    var chain := seq(depth + 1, i => tokens);
    assert IsCallChain(h, tokens, chain);
  }

  /** A quote defeats the filter: `'log' execute 1` is recorded, and executing it with nothing
      entered since goes round and round. */
  lemma QuotedEntryNestsForever(depth: nat)
    ensures Add([], "'log' execute 1") == ["'log' execute 1"]
    ensures NestsTo(["'log' execute 1"], ["log", "execute", "1"], depth)
  {
    QuotedEntryIsRecorded();
    QuotedEntryCallsItself();
    SelfCallNests(["'log' execute 1"], ["log", "execute", "1"], depth);
  }

  lemma ExecuteOneTokens()
    ensures SpaceJoined(["execute", "1"]) == "execute 1"
    ensures Tokens("execute 1") == ["execute", "1"]
  {
    var words := ["execute", "1"];
    assert words[1..] == ["1"];
    assert SpaceJoined(words) == "execute" + " " + "1";
    assert IsPlainWord("execute") && IsPlainWord("1");
    TokensOfWords(words, "");
    assert SpaceJoined(words) + "" == SpaceJoined(words);
    assert words + [] == words;
  }

  lemma QuotedEntrySpelled()
    ensures QuotedBy("log", '\'') + " " + "execute 1" == "'log' execute 1"
  {
  }

  lemma QuotedLogTokens()
    ensures Tokens("'log' execute 1") == ["log", "execute", "1"]
  {
    ExecuteOneTokens();
    TokensOfQuotedWord("log", '\'', "execute 1");
    QuotedEntrySpelled();
  }
}
