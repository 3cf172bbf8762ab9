/** The job table: a growable array changed by add, remove-with-shift, drain, fg and bg. */
module Jobs {
  import opened Numbers

  datatype State = Running | Stopped

  datatype Job = Job(pid: int, command: string, number: int, state: State)

  datatype Status = Exited | Signaled | StopDelivered

  /** One successful waitpid of the draining loop. */
  datatype Notice = Notice(pid: int, status: Status)

  /** Everything the shell remembers about its jobs. */
  datatype Table = Table(jobs: seq<Job>, next: int)

  const EMPTY := Table([], 1)

  // The operations on the abstract table

  function Remove(jobs: seq<Job>, i: int): seq<Job> {
    if 0 <= i < |jobs| then jobs[..i] + jobs[i + 1..] else jobs
  }

  function Append(t: Table, pid: int, command: string, state: State): Table {
    Table(t.jobs + [Job(pid, command, t.next, state)], t.next + 1)
  }

  /** The index of the first job that satisfies p, or -1. */
  function FirstWhere(jobs: seq<Job>, p: Job -> bool): (i: int)
    ensures i == -1 || (0 <= i < |jobs| && p(jobs[i]))
    ensures i == -1 <==> forall k | 0 <= k < |jobs| :: !p(jobs[k])
    ensures forall k | 0 <= k < i :: !p(jobs[k])
  {
    if jobs == [] then -1
    else if p(jobs[0]) then 0
    else
      var i := FirstWhere(jobs[1..], p);
      assert forall k | 1 <= k < |jobs| :: jobs[k] == jobs[1..][k - 1];
      if i == -1 then -1 else i + 1
  }

  function IndexOfPid(jobs: seq<Job>, pid: int): (i: int)
    ensures i == -1 || (0 <= i < |jobs| && jobs[i].pid == pid)
    ensures i == -1 <==> forall k | 0 <= k < |jobs| :: jobs[k].pid != pid
    ensures forall k | 0 <= k < i :: jobs[k].pid != pid
  {
    FirstWhere(jobs, (job: Job) => job.pid == pid)
  }

  function IndexOfNumber(jobs: seq<Job>, number: int): (i: int)
    ensures i == -1 || (0 <= i < |jobs| && jobs[i].number == number)
    ensures i == -1 <==> forall k | 0 <= k < |jobs| :: jobs[k].number != number
    ensures forall k | 0 <= k < i :: jobs[k].number != number
  {
    FirstWhere(jobs, (job: Job) => job.number == number)
  }

  function Deliver(jobs: seq<Job>, notice: Notice): seq<Job> {
    var i := IndexOfPid(jobs, notice.pid);
    if i == -1 then jobs
    else if notice.status == StopDelivered then jobs[i := jobs[i].(state := Stopped)]
    else Remove(jobs, i)
  }

  function Drained(jobs: seq<Job>, notices: seq<Notice>): seq<Job>
    decreases |notices|
  {
    if notices == [] then jobs else Drained(Deliver(jobs, notices[0]), notices[1..])
  }

  /** The last stopped job, or -1. */
  function LastStopped(jobs: seq<Job>): (i: int)
    ensures i == -1 || (0 <= i < |jobs| && jobs[i].state == Stopped)
    ensures forall k | i < k < |jobs| :: jobs[k].state != Stopped
  {
    if jobs == [] then -1
    else if jobs[|jobs| - 1].state == Stopped then |jobs| - 1
    else LastStopped(jobs[..|jobs| - 1])
  }

  datatype Argument = NoArgument | Given(text: string)

  /** The job an argument of fg or bg names, or -1. The number is read as a long and looked up
      as an int. */
  function Named(jobs: seq<Job>, text: string): (i: int)
    ensures -1 <= i < |jobs|
  {
    var (number, whole) := WholeNumber(text);
    if !whole || number <= 0 then -1 else IndexOfNumber(jobs, AsInt(number))
  }

  function FgIndex(jobs: seq<Job>, arg: Argument): (i: int)
    ensures -1 <= i < |jobs|
  {
    match arg
    case NoArgument => |jobs| - 1
    case Given(text) => Named(jobs, text)
  }

  function BgIndex(jobs: seq<Job>, arg: Argument): (i: int)
    ensures -1 <= i < |jobs|
  {
    match arg
    case NoArgument => LastStopped(jobs)
    case Given(text) => Named(jobs, text)
  }

  /** `stops`: the job waited for is stopped again rather than ended. */
  function Fg(t: Table, arg: Argument, stops: bool): Table {
    var i := FgIndex(t.jobs, arg);
    if i == -1 then t
    else
      var t' := t.(jobs := Remove(t.jobs, i));
      if stops then Append(t', t.jobs[i].pid, t.jobs[i].command, Stopped) else t'
  }

  function Bg(t: Table, arg: Argument): Table {
    var i := BgIndex(t.jobs, arg);
    if i == -1 then t else t.(jobs := t.jobs[i := t.jobs[i].(state := Running)])
  }

  // The array

  class JobTable {
    var jobs: array<Job>
    var count: nat
    var next: int

    ghost predicate Valid()
      reads this
    {
      count <= jobs.Length
    }

    ghost function Value(): Table
      reads this, jobs
      requires Valid()
    {
      Table(jobs[..count], next)
    }

    constructor ()
      ensures Valid() && fresh(jobs) && Value() == EMPTY
    {
      jobs := new Job[0];
      count := 0;
      next := 1;
    }

    method Expand()
      requires Valid()
      modifies this`jobs
      ensures Valid() && fresh(jobs) && Value() == old(Value())
      ensures jobs.Length == if old(jobs.Length) == 0 then 10 else 2 * old(jobs.Length)
    {
      var larger := new Job[if jobs.Length == 0 then 10 else 2 * jobs.Length];
      for i := 0 to count
        invariant unchanged(this) && larger[..i] == jobs[..i]
      {
        larger[i] := jobs[i];
      }
      jobs := larger;
    }

    method Add(pid: int, command: string, state: State)
      requires Valid()
      modifies this, jobs
      ensures Valid() && (jobs == old(jobs) || fresh(jobs))
      ensures Value() == Append(old(Value()), pid, command, state)
    {
      if count >= jobs.Length {
        Expand();
      }
      jobs[count] := Job(pid, command, next, state);
      next := next + 1;
      count := count + 1;
    }

    method RemoveJob(index: int)
      requires Valid()
      modifies this`count, jobs
      ensures Valid() && Value() == old(Value()).(jobs := Remove(old(Value()).jobs, index))
    {
      if index < 0 || index >= count {
        return;
      }
      ShiftDown(jobs, index, count);
      count := count - 1;
    }

    method FindByPid(pid: int) returns (index: int)
      requires Valid()
      ensures index == IndexOfPid(Value().jobs, pid)
    {
      for i := 0 to count
        invariant forall k | 0 <= k < i :: jobs[k].pid != pid
      {
        if jobs[i].pid == pid {
          return i;
        }
      }
      return -1;
    }

    method FindByNumber(number: int) returns (index: int)
      requires Valid()
      ensures index == IndexOfNumber(Value().jobs, number)
    {
      for i := 0 to count
        invariant forall k | 0 <= k < i :: jobs[k].number != number
      {
        if jobs[i].number == number {
          return i;
        }
      }
      return -1;
    }

    /** One turn of the draining loop. */
    method HandleNotice(notice: Notice)
      requires Valid()
      modifies this`count, jobs
      ensures Valid() && Value() == old(Value()).(jobs := Deliver(old(Value()).jobs, notice))
    {
      var index := FindByPid(notice.pid);
      if index != -1 {
        if notice.status == Exited {
          RemoveJob(index);
        } else if notice.status == Signaled {
          RemoveJob(index);
        } else {
          jobs[index] := jobs[index].(state := Stopped);
        }
      }
    }

    /** The loop around waitpid with WNOHANG, for the notices it yields. */
    method CheckBackground(notices: seq<Notice>)
      requires Valid()
      modifies this`count, jobs
      ensures Valid() && Value() == old(Value()).(jobs := Drained(old(Value()).jobs, notices))
    {
      ghost var all := Drained(Value().jobs, notices);
      assert notices[0..] == notices;
      for n := 0 to |notices|
        invariant Valid() && jobs == old(jobs) && next == old(next)
        invariant Drained(Value().jobs, notices[n..]) == all
      {
        assert notices[n..][1..] == notices[n + 1..];
        HandleNotice(notices[n]);
      }
    }

    method CmdFg(arg: Argument, stops: bool)
      requires Valid()
      modifies this, jobs
      ensures Valid() && (jobs == old(jobs) || fresh(jobs))
      ensures Value() == Fg(old(Value()), arg, stops)
    {
      var index := -1;
      match arg {
        case NoArgument =>
          if count == 0 {
            return;
          }
          index := count - 1;
        case Given(text) =>
          var (number, whole) := WholeNumber(text);
          if !whole || number <= 0 {
            return;
          }
          index := FindByNumber(AsInt(number));
          if index == -1 {
            return;
          }
      }
      var job := jobs[index];
      RemoveJob(index);
      if stops {
        Add(job.pid, job.command, Stopped);
      }
    }

    method CmdBg(arg: Argument)
      requires Valid()
      modifies jobs
      ensures Valid() && Value() == Bg(old(Value()), arg)
    {
      var index := -1;
      match arg {
        case NoArgument =>
          var i := count - 1;
          while i >= 0
            invariant -1 <= i < count
            invariant LastStopped(jobs[..i + 1]) == LastStopped(jobs[..count])
          {
            assert jobs[..i + 1][..i] == jobs[..i];
            if jobs[i].state == Stopped {
              index := i;
              break;
            }
            i := i - 1;
          }
          if index == -1 {
            return;
          }
        case Given(text) =>
          var (number, whole) := WholeNumber(text);
          if !whole || number <= 0 {
            return;
          }
          index := FindByNumber(AsInt(number));
          if index == -1 {
            return;
          }
      }
      if jobs[index].state == Running {
        assert jobs[..count][index := jobs[index].(state := Running)] == jobs[..count];
        return;
      }
      jobs[index] := jobs[index].(state := Running);
    }

    method Handle(e: Event)
      requires Valid()
      modifies this, jobs
      ensures Valid() && (jobs == old(jobs) || fresh(jobs)) && Value() == Step(old(Value()), e)
    {
      match e
      case Started(pid, command) => Add(pid, command, Running);
      case StoppedInForeground(pid, command) => Add(pid, command, Stopped);
      case Checked(notices) => CheckBackground(notices);
      case FgEntered(arg, stops) => CmdFg(arg, stops);
      case BgEntered(arg) => CmdBg(arg);
    }
  }

  /** Moves the jobs behind `index` one place to the front. */
  method ShiftDown(jobs: array<Job>, index: nat, count: nat)
    requires index < count <= jobs.Length
    modifies jobs
    ensures jobs[..count - 1] == Remove(old(jobs[..count]), index)
  {
    for i := index to count - 1
      invariant forall k | 0 <= k < index || i <= k < count :: jobs[k] == old(jobs[k])
      invariant forall k | index <= k < i :: jobs[k] == old(jobs[k + 1])
    {
      jobs[i] := jobs[i + 1];
    }
    Shifted(old(jobs[..count]), index, jobs[..count - 1]);
  }

  lemma Shifted(before: seq<Job>, index: nat, after: seq<Job>)
    requires index < |before| && |after| == |before| - 1
    requires forall k | 0 <= k < index :: after[k] == before[k]
    requires forall k | index <= k < |after| :: after[k] == before[k + 1]
    ensures after == Remove(before, index)
  {
  }

  // Draining is a filter

  ghost predicate DistinctPids(jobs: seq<Job>) {
    forall i, j | 0 <= i < j < |jobs| :: jobs[i].pid != jobs[j].pid
  }

  predicate Delivered(notices: seq<Notice>, pid: int, stop: bool) {
    exists n | n in notices :: n.pid == pid && (n.status == StopDelivered) == stop
  }

  /** What one job looks like afterwards, if it is still there. */
  function AfterNotices(job: Job, notices: seq<Notice>): Job {
    if Delivered(notices, job.pid, true) then job.(state := Stopped) else job
  }

  function Survivors(jobs: seq<Job>, notices: seq<Notice>): seq<Job> {
    if jobs == [] then []
    else (if Delivered(notices, jobs[0].pid, false) then [] else [AfterNotices(jobs[0], notices)])
         + Survivors(jobs[1..], notices)
  }

  lemma {:induction false} SurvivorsConcat(a: seq<Job>, b: seq<Job>, notices: seq<Notice>)
    ensures Survivors(a + b, notices) == Survivors(a, notices) + Survivors(b, notices)
  {
    if a == [] {
      assert a + b == b;
    } else {
      assert (a + b)[1..] == a[1..] + b;
      SurvivorsConcat(a[1..], b, notices);
    }
  }

  lemma {:induction false} SurvivorsOfNone(jobs: seq<Job>)
    ensures Survivors(jobs, []) == jobs
  {
    if jobs != [] {
      SurvivorsOfNone(jobs[1..]);
    }
  }

  /** A notice for a pid that none of the jobs has makes no difference to them. */
  lemma {:induction false} ForeignNotice(jobs: seq<Job>, notice: Notice, rest: seq<Notice>)
    requires forall job | job in jobs :: job.pid != notice.pid
    ensures Survivors(jobs, [notice] + rest) == Survivors(jobs, rest)
  {
    if jobs != [] {
      assert jobs[0] in jobs;
      DeliveredLater(notice, rest, jobs[0].pid);
      ForeignNotice(jobs[1..], notice, rest);
    }
  }

  lemma DeliveredLater(notice: Notice, rest: seq<Notice>, pid: int)
    ensures forall stop ::
      Delivered([notice] + rest, pid, stop) <==>
        (notice.pid == pid && (notice.status == StopDelivered) == stop) || Delivered(rest, pid, stop)
  {
    assert forall n :: n in [notice] + rest <==> n == notice || n in rest;
  }

  /** The job that a notice is for, on its own. */
  lemma OwnNotice(job: Job, notice: Notice, rest: seq<Notice>)
    requires job.pid == notice.pid
    ensures notice.status != StopDelivered ==> Survivors([job], [notice] + rest) == []
    ensures notice.status == StopDelivered ==>
      Survivors([job], [notice] + rest) == Survivors([job.(state := Stopped)], rest)
  {
    DeliveredLater(notice, rest, job.pid);
    assert [job][1..] == [] && [job.(state := Stopped)][1..] == [];
    var stopped := job.(state := Stopped);
    assert Survivors([stopped], rest) ==
      (if Delivered(rest, job.pid, false) then [] else [AfterNotices(stopped, rest)]) + Survivors([], rest);
  }

  lemma SurvivorsAround(a: seq<Job>, job: Job, b: seq<Job>, notices: seq<Notice>)
    ensures Survivors(a + [job] + b, notices)
         == Survivors(a, notices) + Survivors([job], notices) + Survivors(b, notices)
  {
    SurvivorsConcat(a + [job], b, notices);
    SurvivorsConcat(a, [job], notices);
  }

  lemma OwnNoticeAmong(a: seq<Job>, job: Job, b: seq<Job>, notice: Notice, rest: seq<Notice>)
    requires job.pid == notice.pid && forall other | other in a + b :: other.pid != notice.pid
    ensures notice.status != StopDelivered ==>
      Survivors(a + [job] + b, [notice] + rest) == Survivors(a + b, rest)
    ensures notice.status == StopDelivered ==>
      Survivors(a + [job] + b, [notice] + rest) == Survivors(a + [job.(state := Stopped)] + b, rest)
  {
    assert forall other | other in a :: other in a + b;
    assert forall other | other in b :: other in a + b;
    ForeignNotice(a, notice, rest);
    ForeignNotice(b, notice, rest);
    OwnNotice(job, notice, rest);
    SurvivorsAround(a, job, b, [notice] + rest);
    SurvivorsAround(a, job.(state := Stopped), b, rest);
    SurvivorsConcat(a, b, rest);
  }

  lemma OneNotice(jobs: seq<Job>, notice: Notice, rest: seq<Notice>)
    requires DistinctPids(jobs)
    ensures Survivors(jobs, [notice] + rest) == Survivors(Deliver(jobs, notice), rest)
  {
    var i := IndexOfPid(jobs, notice.pid);
    if i == -1 {
      ForeignNotice(jobs, notice, rest);
    } else {
      var a, job, b := jobs[..i], jobs[i], jobs[i + 1..];
      assert jobs == a + [job] + b;
      assert jobs[i := job.(state := Stopped)] == a + [job.(state := Stopped)] + b;
      OwnNoticeAmong(a, job, b, notice, rest);
    }
  }

  lemma DeliverKeepsDistinct(jobs: seq<Job>, notice: Notice)
    requires DistinctPids(jobs)
    ensures DistinctPids(Deliver(jobs, notice))
  {
    RemoveKeepsDistinct(jobs, IndexOfPid(jobs, notice.pid));
  }

  lemma RemoveKeepsDistinct(jobs: seq<Job>, i: int)
    requires DistinctPids(jobs)
    ensures DistinctPids(Remove(jobs, i))
    ensures 0 <= i < |jobs| ==> forall job | job in Remove(jobs, i) :: job.pid != jobs[i].pid
  {
    if 0 <= i < |jobs| {
      var jobs' := Remove(jobs, i);
      assert forall k | 0 <= k < |jobs'| :: jobs'[k] == jobs[if k < i then k else k + 1];
    }
  }

  /** However many children ended or stopped at once: exactly the jobs without a termination
      notice remain, in their order, and those with a stop notice are marked. */
  lemma {:induction false} DrainingIsAFilter(jobs: seq<Job>, notices: seq<Notice>)
    requires DistinctPids(jobs)
    ensures Drained(jobs, notices) == Survivors(jobs, notices)
    decreases |notices|
  {
    if notices == [] {
      SurvivorsOfNone(jobs);
    } else {
      OneNotice(jobs, notices[0], notices[1..]);
      DeliverKeepsDistinct(jobs, notices[0]);
      DrainingIsAFilter(Deliver(jobs, notices[0]), notices[1..]);
      assert [notices[0]] + notices[1..] == notices;
    }
  }

  /** A termination of the job with the pid was reported, or a stop. */
  ghost predicate Ended(notices: seq<Notice>, pid: int) {
    exists n | n in notices :: n.pid == pid && (n.status == Exited || n.status == Signaled)
  }

  ghost predicate WasStopped(notices: seq<Notice>, pid: int) {
    exists n | n in notices :: n.pid == pid && n.status == StopDelivered
  }

  lemma DeliveredMeans(notices: seq<Notice>, pid: int)
    ensures Delivered(notices, pid, false) <==> Ended(notices, pid)
    ensures Delivered(notices, pid, true) <==> WasStopped(notices, pid)
  {
  }

  /** What a drain leaves, element by element: the jobs of which no end was reported, marked if
      a stop was. */
  lemma DrainLeaves(jobs: seq<Job>, notices: seq<Notice>, job: Job)
    requires DistinctPids(jobs)
    ensures job in Drained(jobs, notices) <==>
      exists j | j in jobs ::
        && !Ended(notices, j.pid)
        && job == if WasStopped(notices, j.pid) then j.(state := Stopped) else j
  {
    DrainingIsAFilter(jobs, notices);
    SurvivorsAre(jobs, notices, job);
    forall j | j in jobs
      ensures Delivered(notices, j.pid, false) <==> Ended(notices, j.pid)
      ensures Delivered(notices, j.pid, true) <==> WasStopped(notices, j.pid)
    {
      DeliveredMeans(notices, j.pid);
    }
  }

  /** Survivors, element by element. */
  lemma {:induction false} SurvivorsAre(jobs: seq<Job>, notices: seq<Notice>, job: Job)
    ensures job in Survivors(jobs, notices) <==>
      exists j | j in jobs :: !Delivered(notices, j.pid, false) && job == AfterNotices(j, notices)
  {
    if jobs != [] {
      SurvivorsAre(jobs[1..], notices, job);
      assert forall j :: j in jobs <==> j == jobs[0] || j in jobs[1..];
    }
  }

  // Whole runs

  datatype Event =
    | Started(pid: int, command: string)
    | StoppedInForeground(pid: int, command: string)
    | Checked(notices: seq<Notice>)
    | FgEntered(arg: Argument, stops: bool)
    | BgEntered(arg: Argument)

  function Step(t: Table, e: Event): Table {
    match e
    case Started(pid, command) => Append(t, pid, command, Running)
    case StoppedInForeground(pid, command) => Append(t, pid, command, Stopped)
    case Checked(notices) => t.(jobs := Drained(t.jobs, notices))
    case FgEntered(arg, stops) => Fg(t, arg, stops)
    case BgEntered(arg) => Bg(t, arg)
  }

  function After(events: seq<Event>): Table {
    if events == [] then EMPTY else Step(After(events[..|events| - 1]), events[|events| - 1])
  }

  /** Numbers strictly increase along the array and all of them have been given out. */
  ghost predicate Numbered(t: Table) {
    && t.next >= 1
    && (forall i | 0 <= i < |t.jobs| :: 1 <= t.jobs[i].number < t.next)
    && (forall i, j | 0 <= i < j < |t.jobs| :: t.jobs[i].number < t.jobs[j].number)
  }

  lemma RemoveKeepsNumbered(t: Table, i: int)
    requires Numbered(t)
    ensures Numbered(t.(jobs := Remove(t.jobs, i)))
  {
    if 0 <= i < |t.jobs| {
      var jobs' := Remove(t.jobs, i);
      assert forall k | 0 <= k < |jobs'| :: jobs'[k] == t.jobs[if k < i then k else k + 1];
    }
  }

  lemma {:induction false} DrainKeepsNumbered(t: Table, notices: seq<Notice>)
    requires Numbered(t)
    ensures Numbered(t.(jobs := Drained(t.jobs, notices)))
    decreases |notices|
  {
    if notices != [] {
      RemoveKeepsNumbered(t, IndexOfPid(t.jobs, notices[0].pid));
      DrainKeepsNumbered(t.(jobs := Deliver(t.jobs, notices[0])), notices[1..]);
    }
  }

  lemma StepKeepsNumbered(t: Table, e: Event)
    requires Numbered(t)
    ensures Numbered(Step(t, e)) && t.next <= Step(t, e).next
  {
    match e
    case Checked(notices) => DrainKeepsNumbered(t, notices);
    case FgEntered(arg, stops) => FgKeepsNumbered(t, arg, stops);
    case _ =>
  }

  lemma FgKeepsNumbered(t: Table, arg: Argument, stops: bool)
    requires Numbered(t)
    ensures Numbered(Fg(t, arg, stops)) && t.next <= Fg(t, arg, stops).next
  {
    RemoveKeepsNumbered(t, FgIndex(t.jobs, arg));
  }

  lemma {:induction false} JobNumbersIncrease(events: seq<Event>)
    ensures Numbered(After(events))
  {
    if events != [] {
      JobNumbersIncrease(events[..|events| - 1]);
      StepKeepsNumbered(After(events[..|events| - 1]), events[|events| - 1]);
    }
  }

  /** In every reachable table a number names at most one job, fg without an argument takes the
      job with the greatest number and bg without one the stopped job with the greatest. */
  lemma DefaultsAreTheNewest(events: seq<Event>)
    ensures var jobs := After(events).jobs;
      && (forall i, j | 0 <= i < |jobs| && 0 <= j < |jobs| && jobs[i].number == jobs[j].number :: i == j)
      && (jobs != [] ==> forall k | 0 <= k < |jobs| :: jobs[k].number <= jobs[FgIndex(jobs, NoArgument)].number)
      && (var b := BgIndex(jobs, NoArgument);
          && (b == -1 <==> forall k | 0 <= k < |jobs| :: jobs[k].state != Stopped)
          && (b != -1 ==> jobs[b].state == Stopped)
          && (b != -1 ==> forall k | 0 <= k < |jobs| && jobs[k].state == Stopped :: jobs[k].number <= jobs[b].number))
  {
    JobNumbersIncrease(events);
    LaterIsGreater(After(events));
    LastStoppedExactly(After(events).jobs);
  }

  lemma LaterIsGreater(t: Table)
    requires Numbered(t)
    ensures forall i, j | 0 <= i <= j < |t.jobs| :: t.jobs[i].number <= t.jobs[j].number
    ensures forall i, j | 0 <= i < |t.jobs| && 0 <= j < |t.jobs| && t.jobs[i].number == t.jobs[j].number :: i == j
  {
  }

  lemma LastStoppedExactly(jobs: seq<Job>)
    ensures LastStopped(jobs) == -1 <==> forall k | 0 <= k < |jobs| :: jobs[k].state != Stopped
  {
  }

  lemma OnlyOneHasNumber(t: Table, i: nat, number: int)
    requires Numbered(t) && i < |t.jobs|
    ensures IndexOfNumber(t.jobs, number) == i <==> t.jobs[i].number == number
  {
    var k := IndexOfNumber(t.jobs, number);
    assert k != -1 && k < i ==> t.jobs[k].number < t.jobs[i].number;
  }

  lemma NumeralNames(jobs: seq<Job>, text: string, n: nat)
    requires Denotes(text, n)
    ensures Named(jobs, text) == if n == 0 then -1 else IndexOfNumber(jobs, AsInt(ReadAs(n)))
  {
    NumeralDenotes(text, n);
  }

  lemma CastOfNumeral(n: nat, number: int)
    requires 1 <= number < 0x8000_0000
    ensures n > 0 && AsInt(ReadAs(n)) == number <==> n < 0x8000_0000_0000_0000 && n % 0x1_0000_0000 == number
  {
  }

  lemma NamedExactly(t: Table, text: string, n: nat, i: nat)
    requires Numbered(t) && t.next <= 0x8000_0000 && Denotes(text, n) && i < |t.jobs|
    ensures Named(t.jobs, text) == i <==> n < 0x8000_0000_0000_0000 && n % 0x1_0000_0000 == t.jobs[i].number
  {
    NumeralNames(t.jobs, text, n);
    OnlyOneHasNumber(t, i, AsInt(ReadAs(n)));
    CastOfNumeral(n, t.jobs[i].number);
  }

  lemma SmallNumberIsKept(n: nat)
    requires n < 0x8000_0000
    ensures n < 0x8000_0000_0000_0000 && n % 0x1_0000_0000 == n
  {
  }

  lemma SmallNumberNamed(t: Table, n: nat, i: nat)
    requires Numbered(t) && t.next <= 0x8000_0000 && n < 0x8000_0000 && i < |t.jobs|
    ensures Named(t.jobs, Decimal(n)) == i <==> t.jobs[i].number == n
  {
    DecimalDenotesItself(n);
    SmallNumberIsKept(n);
    NamedExactly(t, Decimal(n), n, i);
  }

  /** In every reachable table, as long as fewer than 2^31 numbers have been given out, a numeral
      names job i for `fg` and `bg` exactly when it fits in a long and its low 32 bits are the
      job's number. The job's own number does; so does any that exceeds it by a multiple of
      2^32. */
  lemma NumeralNamesExactly(events: seq<Event>, text: string, n: nat, i: nat)
    requires Denotes(text, n) && After(events).next <= 0x8000_0000 && i < |After(events).jobs|
    ensures var jobs := After(events).jobs;
      && (FgIndex(jobs, Given(text)) == i <==> n < 0x8000_0000_0000_0000 && n % 0x1_0000_0000 == jobs[i].number)
      && (BgIndex(jobs, Given(text)) == i <==> n < 0x8000_0000_0000_0000 && n % 0x1_0000_0000 == jobs[i].number)
  {
    JobNumbersIncrease(events);
    NamedExactly(After(events), text, n, i);
  }

  lemma OwnNumberNamed(t: Table, i: nat)
    requires Numbered(t) && t.next <= 0x8000_0000 && i < |t.jobs|
    ensures t.jobs[i].number >= 0 && Named(t.jobs, Decimal(t.jobs[i].number)) == i
  {
    SmallNumberNamed(t, t.jobs[i].number, i);
  }

  lemma OwnNumberNames(events: seq<Event>, i: nat)
    requires After(events).next <= 0x8000_0000 && i < |After(events).jobs|
    ensures var jobs := After(events).jobs;
      && jobs[i].number >= 0
      && FgIndex(jobs, Given(Decimal(jobs[i].number))) == i
      && BgIndex(jobs, Given(Decimal(jobs[i].number))) == i
  {
    JobNumbersIncrease(events);
    OwnNumberNamed(After(events), i);
  }

  /** A number that no job has names none. */
  lemma UnknownNumberNamesNone(events: seq<Event>, n: nat)
    requires After(events).next <= 0x8000_0000 && n < 0x8000_0000
    requires forall job | job in After(events).jobs :: job.number != n
    ensures var jobs := After(events).jobs;
      FgIndex(jobs, Given(Decimal(n))) == -1 && BgIndex(jobs, Given(Decimal(n))) == -1
  {
    JobNumbersIncrease(events);
    NoneNamed(After(events), n);
  }

  lemma NoneNamed(t: Table, n: nat)
    requires Numbered(t) && t.next <= 0x8000_0000 && n < 0x8000_0000
    requires forall job | job in t.jobs :: job.number != n
    ensures Named(t.jobs, Decimal(n)) == -1
  {
    forall i | 0 <= i < |t.jobs| ensures Named(t.jobs, Decimal(n)) == i <==> t.jobs[i].number == n {
      SmallNumberNamed(t, n, i);
    }
  }

  /** Nor does a negative number, or a text that is no number. */
  lemma NoNumberNamesNone(jobs: seq<Job>, text: string)
    requires text == "" || !IsNumeral(text) || exists spaces, zeros, n ::
      AllSpaces(spaces) && AllZeros(zeros) && text == spaces + "-" + (zeros + Decimal(n))
    ensures FgIndex(jobs, Given(text)) == -1 && BgIndex(jobs, Given(text)) == -1
  {
    if text == "" {
      assert WholeNumber("") == (0, true);
    } else if !IsNumeral(text) {
      WholeExactly(text);
    } else {
      var spaces, zeros, n :| AllSpaces(spaces) && AllZeros(zeros) && text == spaces + "-" + (zeros + Decimal(n));
      NumeralIsRead(spaces, "-", zeros, n);
    }
  }

  /** A job that is started or stopped in the foreground is added last, under the next number. */
  lemma NewJobComesLast(events: seq<Event>, pid: int, command: string)
    ensures var t := After(events);
      && After(events + [Started(pid, command)])
           == Table(t.jobs + [Job(pid, command, t.next, Running)], t.next + 1)
      && After(events + [StoppedInForeground(pid, command)])
           == Table(t.jobs + [Job(pid, command, t.next, Stopped)], t.next + 1)
  {
    assert (events + [Started(pid, command)])[..|events|] == events;
    assert (events + [StoppedInForeground(pid, command)])[..|events|] == events;
  }

  /** `bg` with a numeral marks exactly that job as running, and touches nothing else. */
  lemma BgMarksRunning(events: seq<Event>, i: nat)
    requires After(events).next <= 0x8000_0000 && i < |After(events).jobs|
    ensures var t := After(events);
      && t.jobs[i].number >= 0
      && var t' := After(events + [BgEntered(Given(Decimal(t.jobs[i].number)))]);
         && t'.next == t.next && |t'.jobs| == |t.jobs|
         && t'.jobs[i] == Job(t.jobs[i].pid, t.jobs[i].command, t.jobs[i].number, Running)
         && forall k | 0 <= k < |t.jobs| && k != i :: t'.jobs[k] == t.jobs[k]
  {
    OwnNumberNames(events, i);
    var e := BgEntered(Given(Decimal(After(events).jobs[i].number)));
    assert (events + [e])[..|events|] == events;
  }

  /** `bg` alone does the same for the last stopped job, and nothing without one. */
  lemma BgAloneMarksLastStopped(events: seq<Event>, i: nat)
    requires i < |After(events).jobs| && After(events).jobs[i].state == Stopped
    requires forall k | i < k < |After(events).jobs| :: After(events).jobs[k].state == Running
    ensures var t, t' := After(events), After(events + [BgEntered(NoArgument)]);
      && t'.next == t.next && |t'.jobs| == |t.jobs|
      && t'.jobs[i] == Job(t.jobs[i].pid, t.jobs[i].command, t.jobs[i].number, Running)
      && forall k | 0 <= k < |t.jobs| && k != i :: t'.jobs[k] == t.jobs[k]
  {
    assert LastStopped(After(events).jobs) == i;
    assert (events + [BgEntered(NoArgument)])[..|events|] == events;
  }

  /** `fg` with a numeral takes out exactly that job if it ends. */
  lemma FgTakesOut(events: seq<Event>, i: nat)
    requires After(events).next <= 0x8000_0000 && i < |After(events).jobs|
    ensures var t := After(events);
      && t.jobs[i].number >= 0
      && After(events + [FgEntered(Given(Decimal(t.jobs[i].number)), false)])
           == Table(t.jobs[..i] + t.jobs[i + 1..], t.next)
  {
    OwnNumberNames(events, i);
    var e := FgEntered(Given(Decimal(After(events).jobs[i].number)), false);
    assert (events + [e])[..|events|] == events;
  }

  /** A job brought to the foreground and stopped again comes back last, under a number never
      given before; every other job keeps its number, state and place. */
  lemma RestoppedJobIsRenumbered(events: seq<Event>, arg: Argument)
    requires FgIndex(After(events).jobs, arg) != -1
    ensures
      var t := After(events);
      var t' := After(events + [FgEntered(arg, true)]);
      var i := FgIndex(t.jobs, arg);
      && t'.jobs == t.jobs[..i] + t.jobs[i + 1..] + [Job(t.jobs[i].pid, t.jobs[i].command, t.next, Stopped)]
      && t'.next == t.next + 1
      && forall k | 0 <= k < |t.jobs| :: t.jobs[k].number < t'.jobs[|t'.jobs| - 1].number
  {
    JobNumbersIncrease(events);
    assert (events + [FgEntered(arg, true)])[..|events|] == events;
    FgRestops(After(events), arg);
  }

  lemma FgRestops(t: Table, arg: Argument)
    requires FgIndex(t.jobs, arg) != -1
    ensures
      var i, t' := FgIndex(t.jobs, arg), Fg(t, arg, true);
      && t'.jobs == t.jobs[..i] + t.jobs[i + 1..] + [Job(t.jobs[i].pid, t.jobs[i].command, t.next, Stopped)]
      && t'.next == t.next + 1 && t'.jobs[|t'.jobs| - 1].number == t.next
  {
  }

  /** The pids of running and stopped jobs stay distinct if the system never hands out the pid
      of a job that is still in the table. */
  ghost predicate FreshPids(events: seq<Event>) {
    events == [] ||
    (var last := events[|events| - 1];
     && FreshPids(events[..|events| - 1])
     && ((last.Started? || last.StoppedInForeground?) ==>
           forall job | job in After(events[..|events| - 1]).jobs :: job.pid != last.pid))
  }

  lemma {:induction false} DrainKeepsDistinct(jobs: seq<Job>, notices: seq<Notice>)
    requires DistinctPids(jobs)
    ensures DistinctPids(Drained(jobs, notices))
    decreases |notices|
  {
    if notices != [] {
      DeliverKeepsDistinct(jobs, notices[0]);
      DrainKeepsDistinct(Deliver(jobs, notices[0]), notices[1..]);
    }
  }

  lemma {:induction false} PidsStayDistinct(events: seq<Event>)
    requires FreshPids(events)
    ensures DistinctPids(After(events).jobs)
  {
    if events != [] {
      var t := After(events[..|events| - 1]);
      PidsStayDistinct(events[..|events| - 1]);
      match events[|events| - 1]
      case Checked(notices) => DrainKeepsDistinct(t.jobs, notices);
      case FgEntered(arg, _) => RemoveKeepsDistinct(t.jobs, FgIndex(t.jobs, arg));
      case _ =>
    }
  }

  /** So over whole runs a drain removes exactly the jobs that ended. */
  lemma DrainOverRuns(events: seq<Event>, notices: seq<Notice>)
    requires FreshPids(events)
    ensures After(events + [Checked(notices)]) == Table(Survivors(After(events).jobs, notices), After(events).next)
  {
    PidsStayDistinct(events);
    DrainingIsAFilter(After(events).jobs, notices);
    assert (events + [Checked(notices)])[..|events|] == events;
  }

  lemma AfterOneMore(events: seq<Event>, i: nat)
    requires i < |events|
    ensures After(events[..i + 1]) == Step(After(events[..i]), events[i])
  {
    assert events[..i + 1][..i] == events[..i];
  }

  /** The array follows the abstract table over every sequence of events. */
  method Replay(events: seq<Event>) returns (table: JobTable)
    ensures fresh(table) && fresh(table.jobs) && table.Valid()
    ensures table.Value() == After(events)
  {
    table := new JobTable();
    for i := 0 to |events|
      invariant fresh(table) && fresh(table.jobs) && table.Valid()
      invariant table.Value() == After(events[..i])
    {
      AfterOneMore(events, i);
      table.Handle(events[i]);
    }
    assert events[..|events|] == events;
  }
}
