# Verified model of the SHAM file transfer and the C shell

A Dafny model of two parts of the repository and proofs about it.

**SHAM file transfer** (`networking/`). A stop-and-wait sender and a receiver with cumulative ACKs
exchange 32-bit sequence numbers over a network that may lose, duplicate, delay and reorder packets.
`Sham.dfy` gives the whole system as a step relation, `ShamSafety.dfy` an inductive invariant and the
safety of every run, `ShamLimits.dfy` the exact borders of the guarantee, and `ShamPeers.dfy` the two
programs with the buffers they update in place, proved against the step functions.
The sender's one packet buffer is modelled as the code uses it: `recvfrom` writes into the header that
the next retransmission sends. Late copies of every packet of the handshake and of the file-name exchange
may be under way when the run starts.

**The shell** (`shell/src/`).

- `Tokenizer.dfy`: the quote-aware scan, against a declarative account of where tokens lie.
- `Lexemes.dfy`: lines as they are written, from plain and quoted stretches, operators and blanks, and
  what the scan makes of them.
- `Splitting.dfy`, `CommandList.dfy`: cutting at `;` and `|`, running a list, the syntax check.
- `Redirections.dfy`: the passes of `parse_redirections`, against a grammar of stages.
- `Pipelines.dfy`: `parse_pipeline`, the text of a background job, the growing string buffer.
- `History.dfy`, `Numbers.dfy`: the history ring with its file, and `strtol`.
- `Reentry.dfy`: when `log execute` makes the executor call itself, and whether that ends.
- `Quoting.dfy`: which quoted words reach the executor unchanged.
- `Descriptors.dfy`: descriptor tables under `pipe`, `fork`, `dup`, `dup2`, `open` and `close`, with
  the lowest free descriptor for every call that opens one, as section 2.14 (File Descriptor
  Allocation) of the POSIX.1-2017 System Interfaces volume requires.
- `Jobs.dfy`: the job table over whole runs.

Loops and in-place updates of the C code are methods and classes; each is proved against a function,
and the lemmas are about these functions. Long C loops are cut into a method for the loop and methods
or lemmas for one turn of it.

## What turned out not to hold

- *Every file arrives intact.* It does exactly when no two sequence numbers of the transfer collide
  (`CollisionFree`: file below 4 GiB, and no chunk boundary after the first at 0, at the number of the
  file-name packet, or, if a second copy of the SYN-ACK is still under way, at the number the server has
  drawn). Otherwise some file of that length is spoiled. Below 2 GiB only the late SYN-ACK can do harm.
- *Retransmission gets the transfer through.* A stale ACK overwrites the header of the chunk that is
  being sent, and the one FIN is never repeated. The transfer can still finish exactly from the states
  that are not `Stuck`, and one lost packet with one late ACK can make it stuck.
- *The shell's descriptors survive every pipeline.* They do exactly when every `pipe` and `fork`
  succeeds or the very first `pipe` fails; the error returns leave pipes open.
- *One doubling of the string buffer is enough.* It is, for every job, exactly as long as no word is
  longer than 256 characters.
- *The history never feeds on itself.* The filter of `add_to_log` looks at the raw line and the
  tokenizer strips quotes, so `'log' execute 1` is recorded and then nests without end. Re-entry is
  possible exactly when an entry's tokens are a valid `log execute`; without quotes that cannot be, over
  any number of sessions. A command nests without end exactly when it nests one deeper than the history
  has entries.
- *The saved history is read back.* It is exactly when every entry is free of newlines and has at most
  4094 characters, or when the history is full and its only other entry is newline-free, has 4095
  characters and is followed by empty entries alone: the reading loop stops at 15 entries, before it
  sees that this one was cut in two.
- *`fg` and `bg` take the job with the number given.* The number is read as a long and looked up as an
  `int`. As long as fewer than 2^31 numbers have been given out, a numeral names a job exactly when it is
  below 2^63 and its low 32 bits are the job's number, so 4294967297 names job 1.
- *Quoted words reach the program unchanged.* The parser sees tokens without their quotes and the syntax
  check sees the raw line. With a history free of quotes the words arrive exactly when none of them is
  `;`, `|`, `<`, `>` or `>>`, the last is not `&`, they are no valid `log execute`, and none holds a pipe
  and a space leading over blanks to a semicolon.

The repository's README speaks of a sliding window, of time stamps from `gettimeofday()` and of
`select()` driving the timeouts of the file transfer; the code waits for the ACK of each chunk with a
receive timeout on the socket. The model follows the code.

## Model

| member | source | states |
|---|---|---|
| ShamSafety.SmallTransfersDoNotCollide | networking/client.c:45-58 | with a first number in [1, 2^31] and less than 2 GiB to send, numbers collide only if the server's number is a chunk boundary and a second copy of its SYN-ACK is under way |
| ShamSafety.InitInv | networking/server.c:112-122 | the state after the file-name exchange, with second copies of its packets and of the handshake's under way, satisfies the global invariant |
| ShamSafety.MatchingAckIsHonest | networking/client.c:132-136 | an ACK that ends the wait for a chunk is only ever one sent after that chunk was written |
| ShamSafety.ExpectedPacketIsNext | networking/server.c:153-156 | a packet with data that is accepted as the expected one, even one whose header a stale ACK overwrote, carries exactly the missing chunk |
| ShamSafety.StepKeepsInv | networking/client.c:123-142 | each program step and each act of the network keeps the global invariant |
| ShamSafety.ReachableInv | networking/client.c:123-145 | the invariant holds in every reachable state |
| ShamSafety.TransferSafety | networking/server.c:127-162 | in every reachable state the file written is a prefix of whole 1024-byte blocks or all of it, `expected_seq` is the first number plus name and bytes written modulo 2^32, and it is the sender's `seq` or `seq + bytes_read` |
| ShamSafety.AcksAreHonest | networking/server.c:158-161 | every ACK under way, however late, acknowledges a number of bytes already written, unless it is the late SYN-ACK |
| ShamSafety.TransferCompleteness | networking/server.c:131-134 | a receiver that left its loop has the whole file and a FIN number equal to `expected_seq`, and the sender has closed |
| ShamSafety.EndSendsFin | networking/client.c:75-78 | at the end of the file one FIN is sent, numbered behind name and file |
| ShamSafety.AcksNeverRunAhead | networking/server.c:158-161 | below 2 GiB no number wraps and every ACK under way is at most `expected_seq`, if the late SYN-ACK's number does not collide |
| ShamLimits.NetworkIsFree | networking/client.c:127-142 | the network may lose, duplicate and deliver whatever is under way, in any order, and let any wait time out, and changes nothing else |
| ShamLimits.NameTakenForData | networking/server.c:153-156 | a boundary at the file-name packet's number: a run in which that packet is written into the file |
| ShamLimits.FirstChunkComesRound | networking/server.c:153-156 | a file of at least 4 GiB: a run in which a copy of the first chunk is written a second time |
| ShamLimits.ClobberedTakenForNext | networking/client.c:129-133 | a boundary at 0 or at the late SYN-ACK's number: a run in which a retransmission under an overwritten header is written in the wrong place |
| ShamLimits.CollisionSpoilsSomeFile | networking/client.c:123-142 | whenever numbers collide, some file of that length is spoiled in some run |
| ShamLimits.SafeExactlyWithoutCollision | networking/server.c:127-162 | every file of a length is intact and complete in every run if and only if the numbers do not collide |
| ShamLimits.StuckForever | networking/client.c:132-141 | once the missing chunk or the FIN is gone for good, no further run completes the transfer |
| ShamLimits.ParkedCompletes | networking/client.c:123-145 | from any chunk boundary some behaviour of the network completes the transfer |
| ShamLimits.HeaderRescues | networking/client.c:132-141 | a header that carries the missing chunk's number, overwriting a wrong one, lets the transfer complete |
| ShamLimits.AnswerRescues | networking/client.c:129-133 | a missing chunk whose number is 0 is brought back by the receiver's own answer |
| ShamLimits.CompletesUnlessStuck | networking/client.c:75-78 | a reachable transfer can still complete if and only if neither the missing chunk nor the FIN is gone; the chunk is gone when neither a copy nor a header that could restore its number is left |
| ShamLimits.OneStaleAckCanStrandTheTransfer | networking/client.c:132-133 | one lost data packet and one late file-name ACK leave a transfer that can never complete |
| ShamPeers.Sender.constructor | networking/client.c:109-120 | the sender's state after the file-name exchange |
| ShamPeers.Sender.ReadChunk | networking/client.c:123-124 | `fread` fills the packet buffer with the next block under a fresh header, or the transfer is over |
| ShamPeers.Sender.Send | networking/client.c:129-129 | what is sent is the header and the block that are in the buffer now |
| ShamPeers.Sender.Receive | networking/client.c:132-141 | a reply overwrites the header in any case and advances `seq` by the bytes read only if it has the ACK flag and the number waited for; a timeout changes neither |
| ShamPeers.Receiver.constructor | networking/server.c:121-127 | the receiver's state when it enters its loop |
| ShamPeers.Receiver.Receive | networking/server.c:128-161 | one turn of the loop: FIN ends it whatever the simulated loss says, a loss changes nothing, the expected packet is appended, and every other one only answered with the next number |
| ShamPeers.OneTurn | networking/client.c:129-137 | a dropped packet leaves the sender with the identical packet to send again, a delivered one ends the wait for the chunk |
| ShamPeers.SendOnce | networking/client.c:127-141 | one turn of the inner loop sends the chunk's packet and ends the wait if and only if it was not lost |
| ShamPeers.SendUntilAcked | networking/client.c:127-142 | the inner loop ends for every loss pattern, with the chunk written once and each retransmission equal to the first send |
| ShamPeers.TransferChunks | networking/client.c:123-145 | the outer loop carries every chunk over, for files of any length |
| ShamPeers.Finish | networking/server.c:131-134 | the FIN ends the receiver's loop with the whole file, whatever the simulated loss says |
| ShamPeers.TransferUnderSimulatedLoss | networking/client.c:123-145 | under the receiver's own losses the transfer of a file of any length ends intact; there is one data send for each block of 1024 bytes and one for each loss in the list, and each send repeats the block before it if that was lost and carries the next one otherwise |
| Tokenizer.SkipBlanks | shell/src/parser.c:43-45 | skips to a character that is not a blank without losing a token |
| Tokenizer.ScanWord | shell/src/parser.c:60-79 | the flag-and-index loop stops where the mode automaton says the word ends |
| Tokenizer.StripQuotes | shell/src/parser.c:86-92 | at most one pair of equal quotes around the whole token is removed |
| Tokenizer.TakeToken | shell/src/parser.c:49-96 | makes progress and yields the first token of what is left |
| Tokenizer.Tokenize | shell/src/parser.c:34-100 | the nested loops end and the array holds all tokens of the line, or the first 255 |
| Tokenizer.ScanLists | shell/src/parser.c:41-98 | from any seam the scan lists, in order, exactly the unquoted operators and the maximal words |
| Tokenizer.ScanIsTheOnlyTokenization | shell/src/parser.c:41-98 | an ordered list of slices is the declarative tokenization of the line if and only if it is the scan's |
| Tokenizer.TokensAreSlices | shell/src/parser.c:81-95 | the tokens are the slices, each without one pair of outer quotes |
| Tokenizer.ScanIsLossless | shell/src/parser.c:41-98 | the raw slices in order are the line with the unquoted blanks removed |
| Tokenizer.QuotingRoundTrip | shell/src/parser.c:59-95 | words come back unchanged from a line in which each is wrapped in a quote, single or double, that it does not contain |
| Tokenizer.TokenizeQuoted | shell/src/parser.c:34-100 | the same through the 256-slot array for up to 255 words |
| Tokenizer.SingleQuotingRoundTrip | shell/src/parser.c:59-95 | words without single quotes come back from their single-quoted line |
| Tokenizer.DoubleQuotingRoundTrip | shell/src/parser.c:59-95 | words without double quotes come back from their double-quoted line |
| Lexemes.TokensOfLayout | shell/src/parser.c:41-98 | a line written from words of plain and quoted stretches, operators, and spaces and tabs between them has exactly these as its tokens, each word without one pair of outer quotes |
| Lexemes.MeaningOfOneSegment | shell/src/parser.c:86-92 | a word of one stretch, plain or in either quote, means the text in it |
| Lexemes.UnclosedQuoteTakesTheRest | shell/src/parser.c:60-79 | a quote that is not closed takes the rest of the line into its word |
| Lexemes.CommandsOfLayout | shell/src/parser.c:170-206 | a line whose tokens are commands joined by semicolons is these commands, in order |
| Splitting.SplitIsLossless | shell/src/pipes.c:37-45 | the separators put back give the tokens, no part holds one, and the parts are one more than the separators |
| Splitting.SplitUndoesJoin | shell/src/pipes.c:37-45 | separator-free parts come back from their joined list |
| Splitting.SplitIsTheOnlyCut | shell/src/parser.c:174-200 | parts are the result of the split if and only if they are separator-free and join to the tokens |
| CommandList.CommandsAreSegments | shell/src/parser.c:178-182 | the commands are exactly the non-empty segments, and none holds a semicolon |
| CommandList.CommandsKeepOrder | shell/src/parser.c:174-200 | commands joined by semicolons are run as they are, once each and in order |
| CommandList.RunSegment | shell/src/parser.c:178-193 | one segment is run unless it is empty, and a result of 0 ends the list there |
| CommandList.RunCommandAt | shell/src/parser.c:178-196 | at a semicolon or the end the segment before it is run and the commands behind it remain |
| CommandList.RunCommands | shell/src/parser.c:170-206 | runs the commands left to right up to and including the first that returns 0, and returns 0 exactly then |
| CommandList.FirstZeroEndsTheList | shell/src/parser.c:187-193 | the first command that returns 0 is the last that is run, and without one all are |
| CommandList.ProcessCommand | shell/src/parser.c:160-207 | the same for an input line through the tokenizer |
| CommandList.ValidateSyntax | shell/src/parser.c:4-32 | accepts a line if and only if no operator stands first and no pipe and space lead over blanks to a semicolon |
| CommandList.LeadingOperatorExactly | shell/src/parser.c:9-14 | the lines refused for a leading operator, written out |
| CommandList.PatternExactly | shell/src/parser.c:16-29 | the lines refused for a pipe that leads to a semicolon, written out |
| Redirections.ParseIsUnique | shell/src/redirection.c:124-159 | items are the parse of a stage if and only if they are well formed and spell its tokens |
| Redirections.LastWins | shell/src/redirection.c:125-153 | the last redirect of a side decides what is in force, and without one nothing is |
| Redirections.ProbeFindsFirstFailure | shell/src/redirection.c:58-95 | the first file that does not open, and nothing else, is reported |
| Redirections.ResultMeans | shell/src/redirection.c:58-160 | all files open and the last of each side wins, or the first failure is reported on its side and the other side stays empty |
| Redirections.ProbeFiles | shell/src/redirection.c:58-95 | the opening pass computes the probe of the stage's redirects in order |
| Redirections.CountWords | shell/src/redirection.c:97-104 | the counting pass counts the words of the parse |
| Redirections.CopyWords | shell/src/redirection.c:109-120 | the filling pass after a failure fills the counted array exactly with the words |
| Redirections.ExtractRedirections | shell/src/redirection.c:124-160 | the normal filling pass fills the counted array exactly with the same words and leaves the last redirect of each side |
| Redirections.ParseRedirections | shell/src/redirection.c:46-161 | all passes together: the words do not depend on which files open |
| Redirections.RedirectInStage | shell/src/redirection.c:97-157 | an operator and its operand are taken out of a stage, and the two sides of it read as if each stood alone |
| Redirections.PlainStage | shell/src/redirection.c:109-157 | a stage without the three operators is all words |
| Redirections.DanglingIsDropped | shell/src/redirection.c:97-157 | an operator without an operand is dropped |
| Redirections.OperatorDecides | shell/src/redirection.c:124-157 | if all files open, the last `<` is the input, and the last of `>` and `>>` the output, truncated for one and appended to for the other |
| Redirections.FirstFailureDecides | shell/src/redirection.c:58-95 | the first file that does not open is reported as input for `<` and as output for `>` and `>>`, with the other side empty |
| Pipelines.CountPipes | shell/src/pipes.c:9-17 | the number of pipe tokens |
| Pipelines.ParseStage | shell/src/pipes.c:41-67 | a stage without its redirections, or the tokens of the history entry it names |
| Pipelines.PipelineBuffer.Store | shell/src/pipes.c:48-83 | stores one slot and keeps only the first stage's input and the last stage's output redirection |
| Pipelines.ParsePipeline | shell/src/pipes.c:19-86 | fills each of the counted slots once with the stage it belongs to |
| Pipelines.FirstInputDecides | shell/src/pipes.c:69-83 | the last `<` of the first stage is the pipeline's input |
| Pipelines.LastOutputDecides | shell/src/pipes.c:69-83 | the last `>` or `>>` of the last stage is its output, truncated or appended to |
| Pipelines.NamesEntryExactly | shell/src/log.c:125-134 | `log`, `execute` and a numeral for n name entry n, and nothing else names one |
| Pipelines.PlainParseIsLossless | shell/src/pipes.c:25-85 | without redirections and `log execute` the pipes put back give the tokens |
| Pipelines.TokensOfCommandString | shell/src/pipes.c:324-342 | the tokens of a job's text are its stages joined by pipes with `&` behind the last |
| Pipelines.CommandStringSpelled | shell/src/pipes.c:324-342 | the text of a job has one space between words, a bar between spaces between stages, and a space and an ampersand at the end |
| Pipelines.PrintParseRoundTrip | shell/src/pipes.c:324-342 | parsing a job's text gives back its stages with `&` behind the last and no redirections |
| Pipelines.ShortWordsFit | shell/src/pipes.c:174-180 | with words of at most 256 characters every write stays in the buffer |
| Pipelines.LongWordOverflows | shell/src/pipes.c:329-336 | two words of 252 and 257 characters overrun the buffer |
| Pipelines.BufferSufficesUpTo256 | shell/src/pipes.c:324-342 | one doubling per append suffices for all jobs with words up to a bound if and only if the bound is at most 256 |
| Pipelines.StringBuffer.Append | shell/src/pipes.c:335-338 | after at most one doubling the text is appended and terminated within the buffer |
| Pipelines.BuildCommandString | shell/src/pipes.c:324-342 | the nested loops build the words joined by spaces, the stages by bars, and the final `&` |
| Pipelines.ReparseCommandString | shell/src/pipes.c:324-342 | built, tokenized and parsed, a plain job of up to 255 tokens is the same job |
| History.BoundedIsNewest | shell/src/log.c:24-39 | from any loaded history, bounding at every step equals keeping the newest 15 of a record that forgets nothing |
| History.HistoryInvariants | shell/src/log.c:14-40 | over all runs from a loaded history that has them: at most 15 entries, no log command, no adjacent duplicates |
| History.LastEnteredIsNewest | shell/src/log.c:14-40 | a command that is not filtered is the newest entry after it was entered |
| History.FilterExactly | shell/src/log.c:14-22 | the commands kept out are those whose first word, between spaces, tabs, newlines and carriage returns, is `log` |
| History.RecordedExactly | shell/src/log.c:14-40 | every other command that does not repeat the newest entry is recorded, at the cost of the oldest of 15 |
| History.ReadsBackExactly | shell/src/log.c:42-70 | what the loader stores of a saved history, for any room, is the history if and only if every entry fits on a line, or the room ends at the history and its one misfit is a newline-free entry of 4095 characters with nothing but empty entries behind it |
| History.Ring.AddToLog | shell/src/log.c:14-40 | the ring, full or not, behaves as the bounded list |
| History.Ring.Append | shell/src/log.c:32-34 | one entry more, while there is room |
| History.Ring.Overwrite | shell/src/log.c:35-39 | the oldest entry gives way to the new one and the ring rotates |
| History.Ring.PurgeLog | shell/src/log.c:79-82 | the history is empty and unrotated |
| History.Ring.SaveLog | shell/src/log.c:42-54 | writes the entries oldest first from any rotation |
| History.Ring.LoadLog | shell/src/log.c:56-70 | appends the lines of the file as far as there is room |
| History.Ring.CommandByNewestIndex | shell/src/log.c:119-123 | index n names the n-th entry from the end, if there is one |
| History.Replay | shell/src/log.c:14-70 | a session: over every sequence of adds and purges the ring holds the newest 15 of the unbounded record that began with the file |
| History.SaveAndReload | shell/src/log.c:42-70 | from any rotation, saving and loading into an empty ring restores the history if and only if it meets that condition |
| Reentry.StageIsReplaced | shell/src/pipes.c:52-61 | `log execute n` hands over the n-th newest entry's tokens as one command, operators included |
| Reentry.OneCommandCalls | shell/src/pipes.c:110-139 | a single command calls the executor again if and only if it stands in the foreground and is a valid `log execute` |
| Reentry.RunsNamedEntry | shell/src/log.c:85-109 | it runs the tokens of the n-th newest entry |
| Reentry.ReentryExactly | shell/src/log.c:85-109 | some command makes the executor call itself if and only if an entry's tokens are a valid `log execute` |
| Reentry.LogExecuteTokensAreFiltered | shell/src/log.c:16-21 | without quotes, a line whose tokens begin with `log execute` has `log` as its first strtok word |
| Reentry.CleanHistoryNeverReenters | shell/src/log.c:85-109 | with a filtered history without quotes the nested call of the executor never happens |
| Reentry.AddKeepsClean | shell/src/log.c:14-40 | adding commands without quotes keeps the history filtered |
| Reentry.SessionsKeepClean | shell/src/log.c:42-70 | saving and loading between sessions brings no log command and no quote into the history |
| Reentry.SessionsNeverReenter | shell/src/log.c:85-109 | with a first log file that is filtered and free of quotes and no quote ever entered, no command re-enters the executor in any later session |
| Reentry.NestsForeverExactly | shell/src/log.c:100-101 | a command nests to every depth if and only if it nests one deeper than there are entries |
| Quoting.QuotedLinePasses | shell/src/parser.c:4-32 | a line of quoted words passes the syntax check if and only if no word holds the refused pattern |
| Quoting.OneCommandExactly | shell/src/parser.c:170-206 | words are one command if and only if none is a semicolon |
| Quoting.OneStageExactly | shell/src/pipes.c:25-85 | words are parsed as one stage equal to themselves, without redirections, if and only if none is a pipe, none but the last is a redirection operator, and history expansion leaves or restores them |
| Quoting.QuotedWordsArriveExactly | shell/src/parser.c:34-100 | from the quoted line through check, tokenizer, list and parser: the words arrive as one foreground command without redirections if and only if none holds the refused pattern, none is a semicolon or a pipe, the last is no ampersand, and redirection operators stand at most last and are restored by history expansion, which otherwise changes nothing |
| Quoting.NoneActsInCleanHistory | shell/src/pipes.c:52-67 | with a filtered history without quotes that condition can be read off the words |
| Quoting.ParseQuoted | shell/src/pipes.c:19-86 | the same through the arrays of tokenizer and parser |
| Reentry.QuotedEntryNestsForever | shell/src/log.c:100-101 | the entry `'log' execute 1` is recorded and nests to every depth |
| Descriptors.SetupRedirection | shell/src/redirection.c:3-44 | the target refers to the file on success; on every failure path the table is what it was |
| Descriptors.ApplyRedirections | shell/src/redirection.c:171-195 | succeeds exactly if neither probe failed and both redirections can be set up; then descriptors 0 and 1 hold the named files or what they held, and nothing else changes on any path |
| Descriptors.CreatePipes | shell/src/pipes.c:230-236 | the table is the old one with both ends of each newly created pipe on new descriptors |
| Descriptors.ClosePipes | shell/src/pipes.c:316-320 | removes exactly the pipe ends |
| Descriptors.SetupChild | shell/src/pipes.c:253-294 | a child starts if and only if no redirection and no dup2 of its own fails, and then has the shell's original table with only its two standard descriptors rewired; /dev/null that cannot be had is ignored |
| Descriptors.ForkStages | shell/src/pipes.c:240-313 | every forked stage is wired; the loop ends at the first fork that fails |
| Descriptors.ExecutePipeline | shell/src/pipes.c:212-320 | all stages wired and the shell's table restored, and restored if and only if no call fails after the first pipe |
| Descriptors.StagesAreConnected | shell/src/pipes.c:253-294 | which stages start; the first reads the named file, or in the foreground what the shell reads and in the background /dev/null if it can be had; the last writes the named file or what the shell writes; in between are the pipes, and all other descriptors are the shell's |
| Descriptors.OpenIsKnown | shell/src/pipes.c:230-236 | new pipes are distinct from all pipes the table held before |
| Descriptors.PipesAreOneToOne | shell/src/pipes.c:262-294 | each new pipe, whatever pipes the shell's table already holds, is held for writing by exactly the stage before it and for reading by exactly the stage behind it, each on one standard descriptor |
| Descriptors.RunBuiltin | shell/src/pipes.c:114-133 | the built-in runs with the named files, or the shell's own, on its standard descriptors, and on every path the table is restored unless a pipeline run from within leaks |
| Descriptors.RunJob | shell/src/log.c:100-101 | the same by induction through nested `log execute` |
| Descriptors.RunJobs | shell/src/pipes.c:212-320 | over a whole session the table only ever gains leaked pipes, and is restored if and only if no job leaks |
| Jobs.JobTable.constructor | shell/src/background.c:7-12 | the empty table, with 1 as the next number |
| Jobs.JobTable.Expand | shell/src/background.c:18-26 | the array starts with 10 places, doubles, and keeps its jobs |
| Jobs.JobTable.Add | shell/src/background.c:87-113 | appends the job under the next number, growing the array if it is full |
| Jobs.JobTable.RemoveJob | shell/src/background.c:28-38 | the shift loop removes exactly the job at the index and keeps the order |
| Jobs.JobTable.FindByPid | shell/src/background.c:40-47 | the first job with the pid, or -1 if and only if there is none |
| Jobs.JobTable.FindByNumber | shell/src/background.c:49-56 | the first job with the number, or -1 if and only if there is none |
| Jobs.JobTable.HandleNotice | shell/src/background.c:65-78 | a termination removes the job, a stop marks it, an unknown pid changes nothing |
| Jobs.JobTable.CheckBackground | shell/src/background.c:59-80 | the loop applies the notices in order |
| Jobs.JobTable.CmdFg | shell/src/background.c:182-231 | the job named, or the last, is removed and, if it stops again, appended under a new number |
| Jobs.JobTable.CmdBg | shell/src/background.c:234-276 | the job named, or the last stopped one, is marked running |
| Jobs.DrainingIsAFilter | shell/src/background.c:59-80 | for distinct pids, draining any notices leaves exactly the jobs without a termination, in order, with the stopped ones marked |
| Jobs.SurvivorsAre | shell/src/background.c:66-78 | a job is left if and only if it is one of the old jobs with no termination notice, marked stopped if a stop was delivered and otherwise unchanged |
| Jobs.DrainLeaves | shell/src/background.c:65-78 | a drain leaves the jobs of which no exit and no signal was reported, and marks those of which a stop was |
| Jobs.JobNumbersIncrease | shell/src/background.c:87-113 | after every sequence of events the numbers strictly increase along the array and are below the next |
| Jobs.NewJobComesLast | shell/src/background.c:87-113 | a new job is added last, under the next number, running or stopped as it was handed over |
| Numbers.NumeralIsRead | shell/src/background.c:191-193 | every number is read back from its decimal notation with any white space, sign and zeros in front, up to the ends of a long |
| Numbers.WholeExactly | shell/src/background.c:191-193 | the arguments that are consumed as a whole are the empty one and white space, a sign and digits |
| Jobs.NumeralNamesExactly | shell/src/background.c:190-203 | a numeral names a job for `fg` and `bg` if and only if it fits in a long and its low 32 bits are the job's number |
| Jobs.OwnNumberNames | shell/src/background.c:190-203 | every job is found under its own number |
| Jobs.UnknownNumberNamesNone | shell/src/background.c:198-203 | a number that no job has names none |
| Jobs.NoNumberNamesNone | shell/src/background.c:193-196 | an empty argument, a negative number and a text that is no number name none |
| Jobs.BgMarksRunning | shell/src/background.c:251-272 | `bg` with a number marks exactly that job as running |
| Jobs.BgAloneMarksLastStopped | shell/src/background.c:237-247 | `bg` alone marks exactly the last stopped job as running |
| Jobs.FgTakesOut | shell/src/background.c:190-214 | `fg` with a number takes exactly that job out of the table if it ends |
| Jobs.DefaultsAreTheNewest | shell/src/background.c:182-247 | a number names at most one job, `fg` alone takes the greatest number and `bg` alone the greatest stopped one |
| Jobs.RestoppedJobIsRenumbered | shell/src/background.c:216-225 | a job stopped again in the foreground comes back last with a number never given out; all others keep theirs |
| Jobs.PidsStayDistinct | shell/src/background.c:87-113 | pids stay distinct if the system never hands out the pid of a job in the table |
| Jobs.DrainOverRuns | shell/src/background.c:59-80 | so after any run a drain removes exactly the jobs that ended |
| Jobs.Replay | shell/src/background.c:87-276 | the array follows the abstract table over every sequence of events |

## Left out

- Handshake, loss of the file-name packet, and teardown after the FIN: the code retransmits none of these packets, so a run starts after the file-name exchange.
- A name longer than 1023 characters, and files that cannot be opened, in the transfer.
- Chat mode, logging, MD5, sockets and address handling of `networking/`.
- Real time: a timeout may happen at any moment the sender waits.
- History.Ring.AddToLog: asks for commands shorter than 4096 characters, because the code copies into a slot of that size without a check.
- Pipelines.BuildCommandString: asks that the appends fit the buffer, because beyond that the code writes outside it; the exact word length is in Pipelines.BufferSufficesUpTo256.
- Pipelines.PipelineBuffer.Store: the slots are a sequence of the counted length rather than an allocated block; ownership of memory is not modelled.
- Jobs.JobTable.Add: job numbers are unbounded integers; the code's `int` overflows after 2^31 jobs.
- Jobs.JobTable.CmdFg: the wait for the job is one outcome, stopped again or not; signals, process groups and the terminal are not modelled.
- Descriptors.RunBuiltin: the dup and dup2 calls that save and restore the standard descriptors are taken to succeed.
- Descriptors.ExecutePipeline: waiting for the children and what a program does with its descriptors are not modelled; the child of a command that is not in a pipeline is left out because it only repeats the first and last stage.
- Opening a file while parsing creates or truncates it; whether an open succeeds is a parameter of the model.
- The SIGCHLD handler interrupting a table operation: operations are atomic.
- Stages without words, which the code dereferences, are outside execution.
- Prompt, input, `hop`, `reveal`, `activities` and `ping`: display, directory and library calls.
- `xv6/`: the kernel sources are not part of the repository.
