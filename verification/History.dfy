/** The command history: the ring buffer with its log file, refining a bounded list. */
module History {
  import opened Sequences

  const MAX_LOG_SIZE := 15
  const MAX_INPUT_SIZE := 4096

  // The abstract history, oldest entry first

  predicate IsDelimiter(c: char) {
    c == ' ' || c == '\t' || c == '\n' || c == '\r'
  }

  /** The first token that strtok(line, " \t\n\r") delivers, "" for none. */
  function FirstWord(line: string): string {
    if line == "" then ""
    else if IsDelimiter(line[0]) then FirstWord(line[1..])
    else Undelimited(line)
  }

  function Undelimited(line: string): string {
    if line == "" || IsDelimiter(line[0]) then "" else [line[0]] + Undelimited(line[1..])
  }

  predicate IsLogCommand(line: string) {
    FirstWord(line) == "log"
  }

  /** Whether a command is to be recorded behind the entries h. */
  predicate Accepts(h: seq<string>, command: string) {
    !IsLogCommand(command) && (h != [] ==> h[|h| - 1] != command)
  }

  function Newest(h: seq<string>, n: nat): seq<string> {
    if |h| <= n then h else h[|h| - n..]
  }

  function Add(h: seq<string>, command: string): seq<string> {
    if Accepts(h, command) then Newest(h + [command], MAX_LOG_SIZE) else h
  }

  datatype Event = Enter(command: string) | Purge

  function Step(h: seq<string>, e: Event): seq<string> {
    match e
    case Enter(command) => Add(h, command)
    case Purge => []
  }

  /** The history after a sequence of events, oldest event first, that began with the entries
      `loaded`. */
  function After(loaded: seq<string>, events: seq<Event>): seq<string>
    decreases |events|
  {
    if events == [] then loaded else Step(After(loaded, events[..|events| - 1]), events[|events| - 1])
  }

  /** The same with nothing ever thrown away. */
  function Unbounded(loaded: seq<string>, events: seq<Event>): seq<string>
    decreases |events|
  {
    if events == [] then loaded
    else
      var h := Unbounded(loaded, events[..|events| - 1]);
      match events[|events| - 1]
      case Enter(command) => if Accepts(h, command) then h + [command] else h
      case Purge => []
  }

  /** Bounding at every step is bounding once: the history is the newest 15 entries of the
      record that forgets nothing. */
  lemma {:induction false} BoundedIsNewest(loaded: seq<string>, events: seq<Event>)
    requires |loaded| <= 15
    ensures After(loaded, events) == Newest(Unbounded(loaded, events), 15)
    decreases |events|
  {
    if events != [] {
      BoundedIsNewest(loaded, events[..|events| - 1]);
    }
  }

  ghost predicate AllDelimiters(s: string) {
    forall k | 0 <= k < |s| :: s[k] == ' ' || s[k] == '\t' || s[k] == '\n' || s[k] == '\r'
  }

  /** The word `log` comes first, and then the line ends or a delimiter follows. */
  ghost predicate StartsWithLog(line: string) {
    exists gap, rest :: AllDelimiters(gap) && line == gap + "log" + rest && EndsWord(rest)
  }

  predicate EndsWord(rest: string) {
    rest == "" || rest[0] == ' ' || rest[0] == '\t' || rest[0] == '\n' || rest[0] == '\r'
  }

  lemma {:induction false} FirstWordBehind(gap: string, line: string)
    requires AllDelimiters(gap)
    ensures FirstWord(gap + line) == FirstWord(line)
  {
    if gap == "" {
      assert gap + line == line;
    } else {
      assert (gap + line)[1..] == gap[1..] + line;
      FirstWordBehind(gap[1..], line);
    }
  }

  /** A line begins with its first word, and the word ends where the line or a delimiter does. */
  lemma {:induction false} UndelimitedEnds(line: string)
    ensures var word := Undelimited(line);
      && word <= line && (|word| < |line| ==> IsDelimiter(line[|word|]))
      && forall k | 0 <= k < |word| :: !IsDelimiter(line[k])
    decreases line
  {
    if line != "" && !IsDelimiter(line[0]) {
      UndelimitedEnds(line[1..]);
    }
  }

  lemma {:induction false} FirstWordStands(line: string) returns (gap: string)
    ensures AllDelimiters(gap) && gap <= line && FirstWord(line) == Undelimited(line[|gap|..])
  {
    if line == "" || !IsDelimiter(line[0]) {
      gap := "";
    } else {
      gap := FirstWordStands(line[1..]);
      gap := [line[0]] + gap;
    }
  }

  lemma {:induction false} UndelimitedIs(word: string, rest: string)
    requires forall k | 0 <= k < |word| :: !IsDelimiter(word[k])
    requires rest == "" || IsDelimiter(rest[0])
    ensures Undelimited(word + rest) == word
  {
    if word == "" {
      assert word + rest == rest;
    } else {
      assert (word + rest)[1..] == word[1..] + rest;
      UndelimitedIs(word[1..], rest);
    }
  }

  /** The commands that the filter keeps out, written out. */
  lemma FilterExactly(line: string)
    ensures IsLogCommand(line) <==> StartsWithLog(line)
  {
    if IsLogCommand(line) {
      var gap := FirstWordStands(line);
      LogStands(line, gap);
    }
    if StartsWithLog(line) {
      var gap, rest :| AllDelimiters(gap) && line == gap + "log" + rest && EndsWord(rest);
      ConcatAssociates(gap, "log", rest);
      FirstWordBehind(gap, "log" + rest);
      LogIsFirst(rest);
    }
  }

  lemma LogStands(line: string, gap: string)
    requires AllDelimiters(gap) && gap <= line && Undelimited(line[|gap|..]) == "log"
    ensures StartsWithLog(line)
  {
    var behind := line[|gap|..];
    UndelimitedEnds(behind);
    var rest := behind[3..];
    assert behind[..3] == "log" && behind == "log" + rest;
    assert line == gap + "log" + rest;
    assert EndsWord(rest) by {
      assert rest != "" ==> rest[0] == behind[3];
    }
  }

  lemma LogIsFirst(rest: string)
    requires EndsWord(rest)
    ensures FirstWord("log" + rest) == "log"
  {
    UndelimitedIs("log", rest);
    assert ("log" + rest)[0] == 'l';
  }

  /** Exactly the commands that neither begin with `log` nor repeat the newest entry are
      recorded, and one more than 15 entries costs the oldest. */
  lemma RecordedExactly(loaded: seq<string>, events: seq<Event>, command: string)
    ensures var h, h' := After(loaded, events), After(loaded, events + [Enter(command)]);
      if StartsWithLog(command) || (h != [] && h[|h| - 1] == command) then h' == h
      else h' == if |h| < 15 then h + [command] else (h + [command])[|h| - 14..]
  {
    FilterExactly(command);
    assert (events + [Enter(command)])[..|events|] == events;
  }

  ghost predicate NoLogCommands(h: seq<string>) {
    forall e | e in h :: !IsLogCommand(e)
  }

  ghost predicate NoAdjacentDuplicates(h: seq<string>) {
    forall i | 0 < i < |h| :: h[i - 1] != h[i]
  }

  ghost predicate IsHistory(h: seq<string>) {
    |h| <= 15 && NoLogCommands(h) && NoAdjacentDuplicates(h)
  }

  lemma {:induction false} HistoryInvariants(loaded: seq<string>, events: seq<Event>)
    requires IsHistory(loaded)
    ensures IsHistory(After(loaded, events))
    decreases |events|
  {
    if events != [] {
      HistoryInvariants(loaded, events[..|events| - 1]);
    }
  }

  /** Nothing that is entered last is lost: unless it is filtered it is the newest entry. */
  lemma LastEnteredIsNewest(loaded: seq<string>, events: seq<Event>, command: string)
    requires !IsLogCommand(command)
    ensures var h := After(loaded, events + [Enter(command)]); h != [] && h[|h| - 1] == command
  {
    assert (events + [Enter(command)])[..|events|] == events;
  }

  // The log file

  function FileText(h: seq<string>): string {
    if h == [] then "" else h[0] + "\n" + FileText(h[1..])
  }

  // What the saving loop knows: the text so far and that of the entries from i on make up all.

  ghost predicate Saved(text: string, h: seq<string>, i: nat) {
    i <= |h| && text + FileText(h[i..]) == FileText(h)
  }

  lemma NothingSaved(h: seq<string>)
    ensures Saved("", h, 0)
  {
    assert h[0..] == h;
  }

  lemma OneMoreEntry(text: string, h: seq<string>, i: nat, entry: string)
    requires i < |h| && Saved(text, h, i) && entry == h[i]
    ensures Saved(text + entry + "\n", h, i + 1)
  {
    assert h[i..][1..] == h[i + 1..];
    ConcatAssociates(text, h[i], "\n");
    ConcatAssociates(text, h[i] + "\n", FileText(h[i + 1..]));
  }

  lemma NoMoreEntries(text: string, h: seq<string>)
    requires Saved(text, h, |h|)
    ensures text == FileText(h)
  {
    assert h[|h|..] == [];
  }

  /** How many characters fgets takes with a buffer of 4096: up to a newline, at most 4095. */
  function FgetsLength(file: string, taken: nat): (n: nat)
    requires taken <= |file| && taken < MAX_INPUT_SIZE
    ensures taken <= n <= |file| && n < MAX_INPUT_SIZE
    ensures taken < |file| && taken < MAX_INPUT_SIZE - 1 ==> taken < n
    decreases |file| - taken
  {
    if taken == |file| || taken == MAX_INPUT_SIZE - 1 then taken
    else if file[taken] == '\n' then taken + 1
    else FgetsLength(file, taken + 1)
  }

  function UpToNewline(line: string): string {
    if line == "" || line[0] == '\n' then "" else [line[0]] + UpToNewline(line[1..])
  }

  /** The entries a file holds, as the reading loop sees them. */
  function Lines(file: string): seq<string> {
    if file == "" then []
    else
      var n := FgetsLength(file, 0);
      [UpToNewline(file[..n])] + Lines(file[n..])
  }

  predicate FitsOnALine(entry: string) {
    '\n' !in entry && |entry| <= 4094
  }

  lemma {:induction false} FgetsStopsAtNewline(entry: string, rest: string, taken: nat)
    requires FitsOnALine(entry) && taken <= |entry|
    ensures FgetsLength(entry + "\n" + rest, taken) == |entry| + 1
    decreases |entry| - taken
  {
    var file := entry + "\n" + rest;
    if taken < |entry| {
      assert file[taken] == entry[taken] && entry[taken] in entry;
      FgetsStopsAtNewline(entry, rest, taken + 1);
    }
  }

  lemma {:induction false} UpToNewlineIsPrefix(line: string)
    ensures '\n' !in UpToNewline(line) && |UpToNewline(line)| <= |line|
    ensures UpToNewline(line) <= line
    ensures '\n' !in line ==> UpToNewline(line) == line
  {
    if line != "" && line[0] != '\n' {
      UpToNewlineIsPrefix(line[1..]);
    }
  }

  lemma {:induction false} UpToNewlineStops(entry: string)
    requires '\n' !in entry
    ensures UpToNewline(entry + "\n") == entry
  {
    if entry != "" {
      assert (entry + "\n")[1..] == entry[1..] + "\n";
      assert entry[0] in entry;
      UpToNewlineStops(entry[1..]);
    }
  }

  lemma RestOfEntry(entry: string, rest: string, n: nat)
    requires n <= |entry|
    ensures (entry + "\n" + rest)[n..] == entry[n..] + "\n" + rest
  {
  }

  lemma LinesOfEntry(entry: string, rest: string)
    requires FitsOnALine(entry)
    ensures Lines(entry + "\n" + rest) == [entry] + Lines(rest)
  {
    var file := entry + "\n" + rest;
    FgetsStopsAtNewline(entry, rest, 0);
    assert file[..|entry| + 1] == entry + "\n" && file[|entry| + 1..] == rest;
    UpToNewlineStops(entry);
  }

  lemma {:induction false} FgetsAtNewlineOrFull(file: string, taken: nat)
    requires taken < |file| && taken < MAX_INPUT_SIZE - 1
    ensures var n := FgetsLength(file, taken);
      n == |file| || n == MAX_INPUT_SIZE - 1 || file[n - 1] == '\n'
    ensures forall k | taken <= k < FgetsLength(file, taken) - 1 :: file[k] != '\n'
    decreases |file| - taken
  {
    if file[taken] != '\n' && taken + 1 < |file| && taken + 1 < MAX_INPUT_SIZE - 1 {
      FgetsAtNewlineOrFull(file, taken + 1);
    }
  }

  /** What an empty ring holds after reading the file: as many entries as there is room for. */
  function Loaded(file: string): seq<string> {
    Take(Lines(file), MAX_LOG_SIZE)
  }

  /** An entry that fills the reading buffer to its last character. */
  predicate FillsBuffer(entry: string) {
    '\n' !in entry && |entry| == 4095
  }

  /** Such an entry is read back, and behind it an empty line that is only its newline. */
  lemma LinesOfFullEntry(entry: string, rest: string)
    requires FillsBuffer(entry)
    ensures Lines(entry + "\n" + rest) == [entry, ""] + Lines(rest)
  {
    var file := entry + "\n" + rest;
    var n := FgetsLength(file, 0);
    FgetsAtNewlineOrFull(file, 0);
    FgetsStaysInEntry(entry, rest);
    assert file[n - 1] == entry[n - 1] && entry[n - 1] in entry;
    assert file[..n] == entry && file[n..] == "" + "\n" + rest;
    UpToNewlineIsPrefix(entry);
    LinesOfEntry("", rest);
  }

  /** Any other entry that does not fit on a line is not read back. */
  lemma LongEntryIsCut(entry: string, rest: string)
    requires !FitsOnALine(entry) && !FillsBuffer(entry)
    ensures Lines(entry + "\n" + rest) != [] && Lines(entry + "\n" + rest)[0] != entry
  {
    var file := entry + "\n" + rest;
    UpToNewlineIsPrefix(file[..FgetsLength(file, 0)]);
  }

  lemma {:induction false} LinesAtLeastEntries(h: seq<string>)
    ensures |Lines(FileText(h))| >= |h|
    decreases h
  {
    if h != [] {
      LinesAtLeastEntries(h[1..]);
      LinesOfAnyEntry(h[0], FileText(h[1..]));
    }
  }

  /** Whatever an entry holds, the lines behind it are those of the rest of the file. */
  lemma {:induction false} LinesOfAnyEntry(entry: string, rest: string)
    ensures exists extra :: extra != [] && Lines(entry + "\n" + rest) == extra + Lines(rest)
    decreases |entry|
  {
    var file := entry + "\n" + rest;
    if FitsOnALine(entry) {
      LinesOfEntry(entry, rest);
      assert [entry] + Lines(rest) == Lines(file);
    } else {
      var n := FgetsLength(file, 0);
      FgetsAtNewlineOrFull(file, 0);
      FgetsStaysInEntry(entry, rest);
      RestOfEntry(entry, rest, n);
      LinesOfAnyEntry(entry[n..], rest);
      var extra :| extra != [] && Lines(file[n..]) == extra + Lines(rest);
      ConcatAssociates([UpToNewline(file[..n])], extra, Lines(rest));
    }
  }

  lemma FgetsStaysInEntry(entry: string, rest: string)
    requires !FitsOnALine(entry)
    ensures 0 < FgetsLength(entry + "\n" + rest, 0) <= |entry|
  {
    var file := entry + "\n" + rest;
    FgetsAtNewlineOrFull(file, 0);
    if '\n' in entry {
      var k :| 0 <= k < |entry| && entry[k] == '\n';
      assert file[k] == '\n';
    }
  }

  ghost predicate AllFit(h: seq<string>) {
    forall e | e in h :: FitsOnALine(e)
  }

  ghost predicate AllEmpty(h: seq<string>) {
    forall e | e in h :: |e| == 0
  }

  /** Entry i fills the reading buffer, those before it fit on a line, those behind it are
      empty. */
  ghost predicate OnlyFullAt(h: seq<string>, i: nat) {
    i < |h| && AllFit(h[..i]) && FillsBuffer(h[i]) && AllEmpty(h[i + 1..])
  }

  ghost predicate EndsInFullLine(h: seq<string>) {
    exists i :: OnlyFullAt(h, i)
  }

  lemma AllFitFromHead(h: seq<string>)
    requires h != []
    ensures AllFit(h) <==> FitsOnALine(h[0]) && AllFit(h[1..])
  {
    assert h == [h[0]] + h[1..];
  }

  lemma FullLineBehindHead(h: seq<string>, i: nat)
    requires h != []
    ensures OnlyFullAt(h, i + 1) <==> FitsOnALine(h[0]) && OnlyFullAt(h[1..], i)
  {
    if i + 1 < |h| {
      AllFitFromHead(h[..i + 1]);
      assert h[..i + 1][1..] == h[1..][..i] && h[1..][i + 1..] == h[i + 2..];
    }
  }

  lemma EndsInFullLineFromHead(h: seq<string>)
    requires h != []
    ensures FitsOnALine(h[0]) ==> (EndsInFullLine(h) <==> EndsInFullLine(h[1..]))
    ensures !FitsOnALine(h[0]) ==> (EndsInFullLine(h) <==> FillsBuffer(h[0]) && AllEmpty(h[1..]))
  {
    if i: nat :| OnlyFullAt(h, i) {
      if i > 0 {
        FullLineBehindHead(h, i - 1);
      }
    }
    if i: nat :| OnlyFullAt(h[1..], i) {
      FullLineBehindHead(h, i);
    }
    if FillsBuffer(h[0]) && AllEmpty(h[1..]) {
      assert OnlyFullAt(h, 0);
    }
  }

  lemma AllEmptyFromHead(h: seq<string>)
    requires h != []
    ensures AllEmpty(h) <==> h[0] == "" && AllEmpty(h[1..])
  {
    assert h == [h[0]] + h[1..] && h[0] in h;
  }

  /** Behind a stray empty line, only empty entries keep their places. */
  lemma {:induction false} ShiftedByEmptyLine(h: seq<string>)
    ensures Take([""] + Lines(FileText(h)), |h|) == h <==> AllEmpty(h)
    decreases h
  {
    if h != [] {
      var lines := Lines(FileText(h));
      TakeFromHead([""] + lines, |h|, h);
      assert ([""] + lines)[1..] == lines;
      AllEmptyFromHead(h);
      if h[0] == "" {
        LinesOfEntry(h[0], FileText(h[1..]));
        ShiftedByEmptyLine(h[1..]);
        assert lines == [""] + Lines(FileText(h[1..]));
        assert |h[1..]| == |h| - 1;
      }
    }
  }

  lemma TakeFromHead(s: seq<string>, n: nat, h: seq<string>)
    requires s != [] && n > 0 && h != []
    ensures Take(s, n) == h <==> s[0] == h[0] && Take(s[1..], n - 1) == h[1..]
  {
    assert Take(s, n) == [s[0]] + Take(s[1..], n - 1);
    assert h == [h[0]] + h[1..];
  }

  /** Entries written to a file come back as they were, if `room` bounds how many are read,
      exactly when every entry is free of newlines and has at most 4094 characters, or the
      room ends just before it can be noticed that one of 4095 characters was cut. */
  lemma {:induction false} ReadsBackExactly(h: seq<string>, room: nat)
    requires |h| <= room
    ensures Take(Lines(FileText(h)), room) == h <==> AllFit(h) || (|h| == room && EndsInFullLine(h))
    decreases h
  {
    if h != [] {
      var lines, rest := Lines(FileText(h)), FileText(h[1..]);
      AllFitFromHead(h);
      EndsInFullLineFromHead(h);
      if FitsOnALine(h[0]) {
        LinesOfEntry(h[0], rest);
        assert lines[1..] == Lines(rest);
        ReadsBackExactly(h[1..], room - 1);
        TakeFromHead(lines, room, h);
      } else if FillsBuffer(h[0]) {
        FullEntryReadsBack(h, room);
      } else {
        LongEntryIsCut(h[0], rest);
        TakeFromHead(lines, room, h);
      }
    }
  }

  lemma DropOfTwo(a: string, b: string, rest: seq<string>)
    ensures ([a, b] + rest)[1..] == [b] + rest
  {
  }

  lemma FullEntryReadsBack(h: seq<string>, room: nat)
    requires h != [] && |h| <= room && FillsBuffer(h[0])
    ensures Take(Lines(FileText(h)), room) == h <==> |h| == room && AllEmpty(h[1..])
  {
    var lines, rest := Lines(FileText(h)), FileText(h[1..]);
    LinesOfFullEntry(h[0], rest);
    LinesAtLeastEntries(h[1..]);
    DropOfTwo(h[0], "", Lines(rest));
    ShiftedByEmptyLine(h[1..]);
    TakeFromHead(lines, room, h);
  }

  /** The history survives saving and loading. */
  ghost predicate Survives(h: seq<string>) {
    AllFit(h) || (|h| == 15 && EndsInFullLine(h))
  }

  // The ring buffer

  class Ring {
    const entries: array<string>
    var count: nat
    var start: nat

    ghost predicate Valid()
      reads this
    {
      && entries.Length == MAX_LOG_SIZE
      && count <= MAX_LOG_SIZE
      && start < MAX_LOG_SIZE
      && (count < MAX_LOG_SIZE ==> start == 0)
    }

    ghost function Contents(): (h: seq<string>)
      requires Valid()
      reads this, entries
      ensures |h| == count
    {
      Unrolled(entries[..], start)[..count]
    }

    lemma EntryAt(i: nat)
      requires Valid() && i < count
      ensures Contents()[i] == entries[(start + i) % MAX_LOG_SIZE]
    {
    }

    lemma Unrotated()
      requires Valid() && start == 0
      ensures Contents() == entries[..count]
    {
    }

    constructor ()
      ensures Valid() && fresh(entries) && Contents() == []
    {
      entries := new string[MAX_LOG_SIZE];
      count := 0;
      start := 0;
    }

    method AddToLog(command: string)
      requires Valid() && |command| < MAX_INPUT_SIZE
      modifies this, entries
      ensures Valid() && Contents() == Add(old(Contents()), command)
    {
      if FirstWord(command) == "log" {
        return;
      }
      if count > 0 {
        EntryAt(count - 1);
        var previous := (start + count - 1) % MAX_LOG_SIZE;
        if entries[previous] == command {
          return;
        }
      }
      if count < MAX_LOG_SIZE {
        Append(command);
      } else {
        Overwrite(command);
      }
    }

    /** One entry more, while there is room. */
    method Append(command: string)
      requires Valid() && count < MAX_LOG_SIZE
      modifies this, entries
      ensures Valid() && Contents() == old(Contents()) + [command]
    {
      Unrotated();
      entries[count] := command;
      count := count + 1;
      Unrotated();
    }

    /** One entry in place of the oldest. */
    method Overwrite(command: string)
      requires Valid() && count == MAX_LOG_SIZE
      modifies this, entries
      ensures Valid() && Contents() == old(Contents())[1..] + [command]
    {
      OverwritingOldest(entries[..], start, command);
      ghost var slots := entries[..];
      entries[start] := command;
      assert entries[..] == slots[start := command];
      start := (start + 1) % MAX_LOG_SIZE;
    }

    method PurgeLog()
      requires Valid()
      modifies this
      ensures Valid() && Contents() == []
    {
      count := 0;
      start := 0;
    }

    method Handle(e: Event)
      requires Valid() && (e.Enter? ==> |e.command| < MAX_INPUT_SIZE)
      modifies this, entries
      ensures Valid() && Contents() == Step(old(Contents()), e)
    {
      match e
      case Enter(command) => AddToLog(command);
      case Purge => PurgeLog();
    }

    method SaveLog() returns (file: string)
      requires Valid()
      ensures file == FileText(Contents())
    {
      file := "";
      ghost var h := Contents();
      NothingSaved(h);
      for i := 0 to count
        invariant Saved(file, h, i)
      {
        EntryAt(i);
        var entry := entries[(start + i) % MAX_LOG_SIZE];
        OneMoreEntry(file, h, i, entry);
        file := file + entry + "\n";
      }
      NoMoreEntries(file, h);
    }

    /** Reads entries until the file or the room in the ring is used up. */
    method LoadLog(file: string)
      requires Valid()
      modifies this, entries
      ensures Valid()
      ensures Contents() == old(Contents())
        + Take(Lines(file), MAX_LOG_SIZE - old(count))
    {
      var rest := file;
      ghost var was, read: seq<string> := Contents(), [];
      while rest != "" && count < MAX_LOG_SIZE
        invariant Valid() && Contents() == was + read && read + Lines(rest) == Lines(file)
        decreases |rest|
      {
        var n := FgetsLength(rest, 0);
        var line := UpToNewline(rest[..n]);
        ConcatAssociates(read, [line], Lines(rest[n..]));
        ConcatAssociates(was, read, [line]);
        rest := rest[n..];
        read := read + [line];
        Append(line);
      }
      TakeIsPrefix(read, Lines(rest), MAX_LOG_SIZE - |was|);
    }

    /** The n-th entry from the end, for n from 1. */
    method CommandByNewestIndex(n: int) returns (found: bool, command: string)
      requires Valid()
      ensures found <==> 1 <= n <= |Contents()|
      ensures found ==> command == Contents()[|Contents()| - n]
    {
      if n <= 0 || n > count {
        return false, "";
      }
      EntryAt(count - n);
      found, command := true, entries[(start + count - n) % MAX_LOG_SIZE];
    }
  }

  /** The slots of a ring from `start` on, once round. */
  function Unrolled(slots: seq<string>, start: nat): (h: seq<string>)
    requires |slots| == MAX_LOG_SIZE && start < MAX_LOG_SIZE
    ensures |h| == MAX_LOG_SIZE
  {
    slots[start..] + slots[..start]
  }

  lemma OverwritingOldest(slots: seq<string>, start: nat, command: string)
    requires |slots| == MAX_LOG_SIZE && start < MAX_LOG_SIZE
    ensures Unrolled(slots[start := command], (start + 1) % MAX_LOG_SIZE) == Unrolled(slots, start)[1..] + [command]
  {
    var slots' := slots[start := command];
    if start + 1 < MAX_LOG_SIZE {
      assert slots'[start + 1..] + slots'[..start + 1] == slots[start + 1..] + (slots[..start] + [command]);
      assert Unrolled(slots, start)[1..] == slots[start + 1..] + slots[..start];
    }
  }

  lemma AfterOneMore(loaded: seq<string>, events: seq<Event>, i: nat)
    requires i < |events|
    ensures After(loaded, events[..i + 1]) == Step(After(loaded, events[..i]), events[i])
  {
    assert events[..i + 1][..i] == events[..i];
  }

  /** A session: over every sequence of events the ring holds what the abstract history holds
      that began with the log file. */
  method Replay(file: string, events: seq<Event>) returns (ring: Ring)
    requires forall e | e in events :: e.Enter? ==> |e.command| < 4096
    ensures fresh(ring) && fresh(ring.entries) && ring.Valid()
    ensures ring.Contents() == After(Loaded(file), events)
    ensures ring.Contents() == Newest(Unbounded(Loaded(file), events), 15)
  {
    ring := new Ring();
    ring.LoadLog(file);
    for i := 0 to |events|
      invariant fresh(ring) && fresh(ring.entries) && ring.Valid()
      invariant ring.Contents() == After(Loaded(file), events[..i])
    {
      AfterOneMore(Loaded(file), events, i);
      ring.Handle(events[i]);
    }
    assert events[..|events|] == events;
    BoundedIsNewest(Loaded(file), events);
  }

  /** From any rotation, saving and loading into an empty ring restores the history exactly
      when it survives. */
  method SaveAndReload(ring: Ring) returns (reloaded: Ring)
    requires ring.Valid()
    ensures fresh(reloaded) && fresh(reloaded.entries) && reloaded.Valid()
    ensures reloaded.Contents() == ring.Contents() <==> Survives(ring.Contents())
  {
    ReadsBackExactly(ring.Contents(), MAX_LOG_SIZE);
    var file := ring.SaveLog();
    reloaded := new Ring();
    reloaded.LoadLog(file);
  }
}
