/** Descriptor tables of the shell and of the processes it forks: the wiring of a pipeline and
    the restoration around a built-in. */
module Descriptors {
  /** What a descriptor refers to. Every pipe ever created has a number of its own. */
  datatype File = Inherited(id: nat) | ReadEnd(pipe: nat) | WriteEnd(pipe: nat) | Opened(name: string)

  type Table = map<nat, File>

  const STDIN := 0
  const STDOUT := 1
  const DEV_NULL := Opened("/dev/null")

  // System calls on a table

  /** The descriptors below i. */
  function Below(i: nat): (fds: set<nat>)
    ensures |fds| == i && forall fd: nat :: fd in fds <==> fd < i
  {
    if i == 0 then {} else Below(i - 1) + {i - 1}
  }

  lemma {:induction false} SubsetSize(a: set<nat>, b: set<nat>)
    requires a <= b
    ensures |a| <= |b|
  {
    if a != {} {
      var x :| x in a;
      SubsetSize(a - {x}, b - {x});
    }
  }

  lemma InitialSegmentFits(t: Table, i: nat)
    requires forall j | 0 <= j < i :: j in t
    ensures i <= |t|
  {
    SubsetSize(Below(i), t.Keys);
    assert |t.Keys| == |t|;
  }

  function LowestFrom(t: Table, i: nat): (fd: nat)
    requires forall j | 0 <= j < i :: j in t
    ensures fd !in t && forall j | 0 <= j < fd :: j in t
    decreases |t| - i
  {
    InitialSegmentFits(t, i);
    if i in t then
      InitialSegmentFits(t, i + 1);
      LowestFrom(t, i + 1)
    else i
  }

  /** The descriptor a call that opens something gets: the lowest free one. */
  function Lowest(t: Table): (fd: nat)
    ensures fd !in t && forall j | 0 <= j < fd :: j in t
  {
    LowestFrom(t, 0)
  }

  /** What all processes share: the number of pipes created so far. */
  class Kernel {
    var pipes: nat

    constructor ()
      ensures pipes == 0
    {
      pipes := 0;
    }
  }

  /** All pipe ends in the table belong to one of the first `pipes` pipes. */
  ghost predicate Known(t: Table, pipes: nat) {
    forall fd | fd in t :: IsKnown(t[fd], pipes)
  }

  predicate IsKnown(file: File, pipes: nat) {
    file.ReadEnd? || file.WriteEnd? ==> file.pipe < pipes
  }

  class Process {
    const kernel: Kernel
    var fds: Table

    constructor (kernel: Kernel, fds: Table)
      ensures this.kernel == kernel && this.fds == fds
    {
      this.kernel := kernel;
      this.fds := fds;
    }

    method Open(file: File) returns (fd: nat)
      modifies this
      ensures fd == Lowest(old(fds)) && fds == old(fds)[fd := file]
    {
      fd := Lowest(fds);
      fds := fds[fd := file];
    }

    method Dup(from: nat) returns (fd: nat)
      requires from in fds
      modifies this
      ensures fd == Lowest(old(fds)) && fds == old(fds)[fd := old(fds)[from]]
    {
      fd := Open(fds[from]);
    }

    method Dup2(from: nat, to: nat)
      requires from in fds
      modifies this
      ensures fds == old(fds)[to := old(fds)[from]]
    {
      fds := fds[to := fds[from]];
    }

    method Close(fd: nat)
      modifies this
      ensures fds == old(fds) - {fd}
    {
      fds := fds - {fd};
    }

    method Pipe() returns (readEnd: nat, writeEnd: nat)
      modifies this, kernel
      ensures kernel.pipes == old(kernel.pipes) + 1
      ensures readEnd !in old(fds) && writeEnd !in old(fds) && readEnd != writeEnd
      ensures fds == old(fds)[readEnd := ReadEnd(old(kernel.pipes))][writeEnd := WriteEnd(old(kernel.pipes))]
    {
      readEnd := Open(ReadEnd(kernel.pipes));
      writeEnd := Open(WriteEnd(kernel.pipes));
      kernel.pipes := kernel.pipes + 1;
    }

    method Fork() returns (child: Process)
      ensures fresh(child) && child.kernel == kernel && child.fds == fds
    {
      child := new Process(kernel, fds);
    }
  }

  // Redirection of one descriptor

  /** How far setting up a redirection gets. */
  datatype Setup = OpenFails | Dup2Fails | Succeeds

  /** A redirection of the parsed command. For one whose file did not open while parsing,
      `setup` is what another attempt would come to. */
  datatype Redirect = NoRedirect | ToFile(name: string, setup: Setup) | FailedProbe(name: string, setup: Setup)

  /** open, dup2 onto `to`, close; the temporary descriptor is closed on every path. */
  method SetupRedirection(p: Process, file: File, to: nat, setup: Setup) returns (ok: bool)
    requires to in p.fds
    modifies p
    ensures ok <==> setup == Succeeds
    ensures p.fds == if setup == Succeeds then old(p.fds)[to := file] else old(p.fds)
  {
    if setup == OpenFails {
      return false;
    }
    var fd := p.Open(file);
    if setup == Dup2Fails {
      p.Close(fd);
      assert p.fds == old(p.fds);
      return false;
    }
    p.Dup2(fd, to);
    p.Close(fd);
    assert p.fds == old(p.fds)[to := file];
    return true;
  }

  predicate Applies(r: Redirect) {
    r == NoRedirect || (r.ToFile? && r.setup == Succeeds)
  }

  function Redirected(t: Table, to: nat, r: Redirect): Table {
    if r == NoRedirect then t else t[to := Opened(r.name)]
  }

  method ApplyRedirections(p: Process, input: Redirect, output: Redirect) returns (ok: bool)
    requires STDIN in p.fds && STDOUT in p.fds
    modifies p
    ensures ok <==> Applies(input) && Applies(output)
    ensures ok <==>
      && (input == NoRedirect || (input.ToFile? && input.setup == Succeeds))
      && (output == NoRedirect || (output.ToFile? && output.setup == Succeeds))
    ensures ok ==> p.fds == Redirected(Redirected(old(p.fds), STDIN, input), STDOUT, output)
    ensures ok ==>
      && p.fds[0] == (if input == NoRedirect then old(p.fds[0]) else Opened(input.name))
      && p.fds[1] == (if output == NoRedirect then old(p.fds[1]) else Opened(output.name))
    ensures SameButStandard(old(p.fds), p.fds)
  {
    if input.FailedProbe? || output.FailedProbe? {
      return false;
    }
    if input.ToFile? {
      var done := SetupRedirection(p, Opened(input.name), STDIN, input.setup);
      if !done {
        return false;
      }
    }
    if output.ToFile? {
      var done := SetupRedirection(p, Opened(output.name), STDOUT, output.setup);
      if !done {
        return false;
      }
    }
    return true;
  }

  /** The tables have the same descriptors and differ at most on standard input and output. */
  ghost predicate SameButStandard(a: Table, b: Table) {
    a.Keys == b.Keys && forall fd | fd in a && fd != STDIN && fd != STDOUT :: a[fd] == b[fd]
  }

  // A pipeline

  /** A pipeline, with the outcome of the system calls its children will make: how far the
      first stage gets with /dev/null, and for which stages dup2 of a pipe's end fails. */
  datatype Plan = Plan(
    stages: nat, background: bool, input: Redirect, output: Redirect,
    devNull: Setup, lostReads: set<nat>, lostWrites: set<nat>)

  function EndsOf(ends: seq<(nat, nat)>): set<nat> {
    if ends == [] then {}
    else EndsOf(ends[..|ends| - 1]) + {ends[|ends| - 1].0, ends[|ends| - 1].1}
  }

  lemma {:induction false} EndsContain(ends: seq<(nat, nat)>, i: nat)
    requires i < |ends|
    ensures ends[i].0 in EndsOf(ends) && ends[i].1 in EndsOf(ends)
  {
    if i < |ends| - 1 {
      EndsContain(ends[..|ends| - 1], i);
    }
  }

  /** Table `t` is `before` with pipe `base + i` open on the pair `ends[i]` of further
      descriptors. */
  ghost predicate PipesOpen(before: Table, t: Table, base: nat, ends: seq<(nat, nat)>) {
    && t.Keys == before.Keys + EndsOf(ends) && before.Keys !! EndsOf(ends)
    && (forall fd | fd in before :: t[fd] == before[fd])
    && (forall i | 0 <= i < |ends| :: PairOpen(t, base, i, ends[i]))
  }

  lemma EndsOfOneMore(ends: seq<(nat, nat)>, r: nat, w: nat)
    ensures EndsOf(ends + [(r, w)]) == EndsOf(ends) + {r, w}
  {
    assert (ends + [(r, w)])[..|ends|] == ends;
  }

  /** The i-th pair of descriptors refers to the two ends of pipe `base + i`. */
  ghost predicate PairOpen(t: Table, base: nat, i: nat, pair: (nat, nat)) {
    pair.0 in t && t[pair.0] == ReadEnd(base + i) && pair.1 in t && t[pair.1] == WriteEnd(base + i)
  }

  lemma OneMorePipe(before: Table, t: Table, base: nat, ends: seq<(nat, nat)>, r: nat, w: nat)
    requires PipesOpen(before, t, base, ends) && r !in t && w !in t && r != w
    ensures PipesOpen(before, t[r := ReadEnd(base + |ends|)][w := WriteEnd(base + |ends|)], base, ends + [(r, w)])
  {
    var ends', t' := ends + [(r, w)], t[r := ReadEnd(base + |ends|)][w := WriteEnd(base + |ends|)];
    EndsOfOneMore(ends, r, w);
    forall i | 0 <= i < |ends'| ensures PairOpen(t', base, i, ends'[i]) {
      assert i < |ends| ==> ends'[i] == ends[i] && PairOpen(t, base, i, ends[i]);
    }
  }

  /** Creates the pipes of a pipeline; `available` is how many pipe calls succeed. */
  method CreatePipes(p: Process, count: nat, available: nat) returns (ends: seq<(nat, nat)>)
    modifies p, p.kernel
    ensures |ends| == if available < count then available else count
    ensures p.kernel.pipes == old(p.kernel.pipes) + |ends|
    ensures PipesOpen(old(p.fds), p.fds, old(p.kernel.pipes), ends)
  {
    ends := [];
    while |ends| < count && |ends| < available
      invariant |ends| <= count && |ends| <= available
      invariant p.kernel.pipes == old(p.kernel.pipes) + |ends|
      invariant PipesOpen(old(p.fds), p.fds, old(p.kernel.pipes), ends)
    {
      ghost var t := p.fds;
      var r, w := p.Pipe();
      OneMorePipe(old(p.fds), t, old(p.kernel.pipes), ends, r, w);
      ends := ends + [(r, w)];
    }
  }

  method ClosePipes(p: Process, ends: seq<(nat, nat)>)
    modifies p
    ensures p.fds == old(p.fds) - EndsOf(ends)
  {
    for i := 0 to |ends|
      invariant p.fds == old(p.fds) - EndsOf(ends[..i])
    {
      assert ends[..i + 1][..i] == ends[..i];
      p.Close(ends[i].0);
      p.Close(ends[i].1);
    }
    assert ends[..|ends|] == ends;
  }

  /** What stage i reads, if it gets as far as its program; the pipeline's first pipe is number
      `base`. */
  function InputOf(before: Table, plan: Plan, base: nat, i: nat): File
    requires STDIN in before
  {
    if i > 0 then ReadEnd(base + i - 1)
    else if plan.input != NoRedirect then Opened(plan.input.name)
    else if plan.background && plan.devNull == Succeeds then DEV_NULL
    else before[STDIN]
  }

  /** What stage i writes to. */
  function OutputOf(before: Table, plan: Plan, base: nat, i: nat): File
    requires STDOUT in before
  {
    if i + 1 < plan.stages then WriteEnd(base + i)
    else if plan.output != NoRedirect then Opened(plan.output.name)
    else before[STDOUT]
  }

  predicate InputConnects(plan: Plan, i: nat) {
    if i > 0 then i !in plan.lostReads else plan.input != NoRedirect ==> plan.input.setup == Succeeds
  }

  predicate OutputConnects(plan: Plan, i: nat) {
    if i + 1 < plan.stages then i !in plan.lostWrites else Applies(plan.output)
  }

  /** Stage i reaches its program: neither of its two connections failed. */
  predicate Starts(plan: Plan, i: nat) {
    InputConnects(plan, i) && OutputConnects(plan, i)
  }

  method ConnectInput(
    child: Process, plan: Plan, i: nat, ends: seq<(nat, nat)>, ghost base: nat, ghost before: Table)
    returns (ok: bool)
    requires i <= |ends| && STDIN in before && PipesOpen(before, child.fds, base, ends)
    modifies child
    ensures ok <==> InputConnects(plan, i)
    ensures ok ==> child.fds == old(child.fds)[STDIN := InputOf(before, plan, base, i)]
  {
    ok := true;
    if plan.background && i == 0 && plan.input == NoRedirect {
      var _ := SetupRedirection(child, DEV_NULL, STDIN, plan.devNull);
    }
    if i == 0 && plan.input != NoRedirect {
      ok := SetupRedirection(child, Opened(plan.input.name), STDIN, plan.input.setup);
    } else if i > 0 {
      if i in plan.lostReads {
        return false;
      }
      child.Dup2(ends[i - 1].0, STDIN);
    }
  }

  method ConnectOutput(
    child: Process, plan: Plan, i: nat, ends: seq<(nat, nat)>, ghost base: nat, ghost before: Table)
    returns (ok: bool)
    requires i < plan.stages == |ends| + 1
    requires STDOUT in before && STDOUT in child.fds && child.fds[STDOUT] == before[STDOUT]
    requires i < |ends| ==> ends[i].1 in child.fds && child.fds[ends[i].1] == WriteEnd(base + i)
    modifies child
    ensures ok <==> OutputConnects(plan, i)
    ensures ok ==> child.fds == old(child.fds)[STDOUT := OutputOf(before, plan, base, i)]
  {
    ok := true;
    if i + 1 == plan.stages && plan.output != NoRedirect {
      if plan.output.FailedProbe? {
        return false;
      }
      ok := SetupRedirection(child, Opened(plan.output.name), STDOUT, plan.output.setup);
    } else if i + 1 < plan.stages {
      if i in plan.lostWrites {
        return false;
      }
      child.Dup2(ends[i].1, STDOUT);
    }
  }

  /** The table with which stage i's program starts. */
  function Wired(before: Table, plan: Plan, base: nat, i: nat): Table
    requires STDIN in before && STDOUT in before
  {
    before[STDIN := InputOf(before, plan, base, i)][STDOUT := OutputOf(before, plan, base, i)]
  }

  /** What the child for stage i does to its copy of the shell's table. */
  method SetupChild(
    child: Process, plan: Plan, i: nat, ends: seq<(nat, nat)>, ghost base: nat, ghost before: Table)
    returns (started: bool)
    requires i < plan.stages == |ends| + 1
    requires STDIN in before && STDOUT in before && PipesOpen(before, child.fds, base, ends)
    modifies child
    ensures started <==> Starts(plan, i)
    ensures started ==> child.fds == Wired(before, plan, base, i)
  {
    started := ConnectInput(child, plan, i, ends, base, before);
    if !started {
      return;
    }
    if i < |ends| {
      EndsContain(ends, i);
    }
    started := ConnectOutput(child, plan, i, ends, base, before);
    if !started {
      return;
    }
    ClosePipes(child, ends);
  }

  /** What one run of a pipeline leaves behind: for every stage whether its program started and
      with which table. */
  datatype Child = Child(started: bool, fds: Table)

  datatype Outcome = PipeFailed | ForkFailed | Running(children: seq<Child>)

  /** Creates the pipes, forks and wires the stages, closes the shell's copies. `pipes` and
      `forks` are the numbers of pipe and fork calls that succeed. */
  method ExecutePipeline(shell: Process, plan: Plan, pipes: nat, forks: nat) returns (outcome: Outcome)
    requires plan.stages >= 2 && STDIN in shell.fds && STDOUT in shell.fds
    requires Known(shell.fds, shell.kernel.pipes)
    modifies shell, shell.kernel
    ensures Known(shell.fds, shell.kernel.pipes)
    ensures outcome.PipeFailed? <==> pipes + 1 < plan.stages
    ensures outcome.ForkFailed? <==> plan.stages <= pipes + 1 && forks < plan.stages
    ensures outcome.Running? ==>
      shell.fds == old(shell.fds) && IsWired(old(shell.fds), plan, old(shell.kernel.pipes), outcome.children)
    ensures Extends(old(shell.fds), shell.fds)
    ensures shell.fds == old(shell.fds) <==> RestoresTable(plan, pipes, forks)
  {
    ghost var before, base := shell.fds, shell.kernel.pipes;
    var count := plan.stages - 1;
    var ends := CreatePipes(shell, count, pipes);
    ghost var open := shell.fds;
    OpenIsKnown(before, open, base, ends);
    LeakedEnds(before, open, base, ends);
    if |ends| < count {
      return PipeFailed;
    }
    var children := ForkStages(shell, plan, forks, ends, base, before);
    if |children| < plan.stages {
      return ForkFailed;
    }
    ClosePipes(shell, ends);
    assert shell.fds == before;
    outcome := Running(children);
  }

  /** Which descriptor refers to which pipe is settled by the pairs of ends. */
  lemma {:induction false} EndIsListed(before: Table, t: Table, base: nat, ends: seq<(nat, nat)>, fd: nat)
    requires fd in EndsOf(ends) && forall i | 0 <= i < |ends| :: PairOpen(t, base, i, ends[i])
    ensures fd in t && IsKnown(t[fd], base + |ends|)
  {
    var last := |ends| - 1;
    if fd != ends[last].0 && fd != ends[last].1 {
      EndIsListed(before, t, base, ends[..last], fd);
    }
  }

  lemma OpenIsKnown(before: Table, t: Table, base: nat, ends: seq<(nat, nat)>)
    requires PipesOpen(before, t, base, ends) && Known(before, base)
    ensures Known(t, base + |ends|)
  {
    forall fd | fd in t && fd !in before ensures IsKnown(t[fd], base + |ends|) {
      EndIsListed(before, t, base, ends, fd);
    }
  }

  /** The fork loop; it ends early at the first fork that fails. */
  method ForkStages(
    shell: Process, plan: Plan, forks: nat, ends: seq<(nat, nat)>, ghost base: nat, ghost before: Table)
    returns (children: seq<Child>)
    requires plan.stages == |ends| + 1
    requires STDIN in before && STDOUT in before && PipesOpen(before, shell.fds, base, ends)
    ensures |children| == if forks < plan.stages then forks else plan.stages
    ensures forall k | 0 <= k < |children| :: ChildIsWired(before, plan, base, k, children[k])
  {
    children := [];
    for i := 0 to plan.stages
      invariant |children| == i <= forks
      invariant forall k | 0 <= k < i :: ChildIsWired(before, plan, base, k, children[k])
    {
      if i == forks {
        return;
      }
      var child := shell.Fork();
      var started := SetupChild(child, plan, i, ends, base, before);
      children := children + [Child(started, child.fds)];
    }
  }

  /** The shell's table survives a pipeline that fails only if nothing had been opened yet: the
      error returns do not close the pipes created so far. */
  predicate RestoresTable(plan: Plan, pipes: nat, forks: nat) {
    pipes == 0 || (plan.stages <= pipes + 1 && plan.stages <= forks)
  }

  lemma LeakedEnds(before: Table, t: Table, base: nat, ends: seq<(nat, nat)>)
    requires PipesOpen(before, t, base, ends)
    ensures t == before <==> ends == []
  {
    if ends != [] {
      EndsContain(ends, 0);
    }
  }

  ghost predicate ChildIsWired(before: Table, plan: Plan, base: nat, i: nat, child: Child)
    requires STDIN in before && STDOUT in before
  {
    (child.started <==> Starts(plan, i)) && (child.started ==> child.fds == Wired(before, plan, base, i))
  }

  ghost predicate IsWired(before: Table, plan: Plan, base: nat, children: seq<Child>)
    requires STDIN in before && STDOUT in before
  {
    |children| == plan.stages && forall i | 0 <= i < |children| :: ChildIsWired(before, plan, base, i, children[i])
  }

  ghost predicate HoldsFile(child: Child, file: File) {
    exists fd :: fd in child.fds && child.fds[fd] == file
  }

  /** Which stages start, and what each of them finds on its descriptors. */
  lemma StagesAreConnected(before: Table, plan: Plan, base: nat, children: seq<Child>, i: nat)
    requires 0 in before && 1 in before && IsWired(before, plan, base, children) && i < plan.stages
    ensures children[i].started <==>
      && (if i > 0 then i !in plan.lostReads
          else plan.input == NoRedirect || plan.input.setup == Succeeds)
      && (if i + 1 < plan.stages then i !in plan.lostWrites
          else plan.output == NoRedirect || (plan.output.ToFile? && plan.output.setup == Succeeds))
    ensures children[i].started ==>
      var t := children[i].fds;
      && t.Keys == before.Keys
      && (forall fd | fd in before && fd > 1 :: t[fd] == before[fd])
      && (i > 0 ==> t[0] == ReadEnd(base + i - 1))
      && (i + 1 < plan.stages ==> t[1] == WriteEnd(base + i))
    ensures children[i].started && i == 0 ==>
      var stdin := children[i].fds[0];
      && (plan.input != NoRedirect ==> stdin == Opened(plan.input.name))
      && (plan.input == NoRedirect && !plan.background ==> stdin == before[0])
      && (plan.input == NoRedirect && plan.background ==>
            stdin == if plan.devNull == Succeeds then Opened("/dev/null") else before[0])
    ensures children[i].started && i + 1 == plan.stages ==>
      children[i].fds[1] == if plan.output == NoRedirect then before[1] else Opened(plan.output.name)
  {
    assert ChildIsWired(before, plan, base, i, children[i]);
  }

  /** When all stages start, every pipe has exactly one writing process, the stage before it,
      and exactly one reading process, the stage behind it, each on the one standard
      descriptor; and no stage holds anything else of any pipe. */
  lemma PipesAreOneToOne(before: Table, plan: Plan, base: nat, children: seq<Child>, j: nat, i: nat)
    requires STDIN in before && STDOUT in before && Known(before, base)
    requires IsWired(before, plan, base, children) && i < plan.stages && j + 1 < plan.stages
    requires children[i].started
    ensures HoldsFile(children[i], WriteEnd(base + j)) <==> i == j
    ensures HoldsFile(children[i], ReadEnd(base + j)) <==> i == j + 1
    ensures forall fd | fd in children[i].fds ::
      && (children[i].fds[fd] == WriteEnd(base + j) ==> fd == STDOUT)
      && (children[i].fds[fd] == ReadEnd(base + j) ==> fd == STDIN)
  {
    assert ChildIsWired(before, plan, base, i, children[i]);
    var t := children[i].fds;
    assert t[STDIN] == InputOf(before, plan, base, i) && t[STDOUT] == OutputOf(before, plan, base, i);
    assert forall fd | fd in t && fd != STDIN && fd != STDOUT :: t[fd] == before[fd];
  }

  // A built-in in the shell itself

  /** A command as far as the shell's own table is concerned. `nested` is the command that
      `log execute` runs from within the built-in. */
  datatype Job =
    | External
    | Builtin(input: Redirect, output: Redirect, nested: Job)
    | PipelineJob(plan: Plan, pipes: nat, forks: nat)

  /** Some pipeline in the job fails half-way. */
  predicate Leaks(job: Job) {
    match job
    case External => false
    case Builtin(input, output, nested) => Applies(input) && Applies(output) && Leaks(nested)
    case PipelineJob(plan, pipes, forks) => plan.stages >= 2 && !RestoresTable(plan, pipes, forks)
  }

  ghost predicate Extends(a: Table, b: Table) {
    forall fd | fd in a :: fd in b && b[fd] == a[fd]
  }

  /** dup of both standard descriptors, the redirections, the built-in, and dup2 back, on every
      path. The table is restored exactly unless a pipeline run from within leaks. */
  method RunJob(shell: Process, job: Job)
    requires STDIN in shell.fds && STDOUT in shell.fds && Known(shell.fds, shell.kernel.pipes)
    modifies shell, shell.kernel
    ensures Known(shell.fds, shell.kernel.pipes) && Extends(old(shell.fds), shell.fds)
    ensures shell.fds == old(shell.fds) <==> !Leaks(job)
    decreases job, 0
  {
    match job {
      case External =>
      case PipelineJob(plan, pipes, forks) =>
        if plan.stages >= 2 {
          var _ := ExecutePipeline(shell, plan, pipes, forks);
        }
      case Builtin(input, output, nested) =>
        var _, _ := RunBuiltin(shell, input, output, nested);
    }
  }

  /** `seen` is the table the built-in itself runs with, if it runs. */
  method RunBuiltin(shell: Process, input: Redirect, output: Redirect, nested: Job)
    returns (ran: bool, seen: Table)
    requires STDIN in shell.fds && STDOUT in shell.fds && Known(shell.fds, shell.kernel.pipes)
    modifies shell, shell.kernel
    ensures Known(shell.fds, shell.kernel.pipes) && Extends(old(shell.fds), shell.fds)
    ensures shell.fds == old(shell.fds) <==> !(Applies(input) && Applies(output) && Leaks(nested))
    ensures ran <==>
      && (input == NoRedirect || (input.ToFile? && input.setup == Succeeds))
      && (output == NoRedirect || (output.ToFile? && output.setup == Succeeds))
    ensures ran ==>
      && (forall fd | fd in old(shell.fds) && fd > 1 :: fd in seen && seen[fd] == old(shell.fds)[fd])
      && 0 in seen && seen[0] == (if input == NoRedirect then old(shell.fds[0]) else Opened(input.name))
      && 1 in seen && seen[1] == (if output == NoRedirect then old(shell.fds[1]) else Opened(output.name))
    decreases nested, 1
  {
    ghost var before := shell.fds;
    var stdinBackup := shell.Dup(STDIN);
    var stdoutBackup := shell.Dup(STDOUT);
    ghost var saved := shell.fds;
    var ok := ApplyRedirections(shell, input, output);
    ghost var inside := shell.fds;
    InsideIsKnown(saved, inside, shell.kernel.pipes, ok, input, output);
    ran, seen := ok, shell.fds;
    if ok {
      RunJob(shell, nested);
    }
    ghost var after := shell.fds;
    shell.Dup2(stdinBackup, STDIN);
    shell.Dup2(stdoutBackup, STDOUT);
    shell.Close(stdinBackup);
    shell.Close(stdoutBackup);
    Restored(before, inside, after, shell.fds, stdinBackup, stdoutBackup, shell.kernel.pipes);
  }

  /** The same for every descriptor but the two that are put back later. */
  ghost predicate KnownAside(t: Table, pipes: nat) {
    forall fd | fd in t && fd != STDIN && fd != STDOUT :: IsKnown(t[fd], pipes)
  }

  lemma InsideIsKnown(saved: Table, inside: Table, pipes: nat, ok: bool, input: Redirect, output: Redirect)
    requires Known(saved, pipes) && SameButStandard(saved, inside)
    requires ok ==> inside == Redirected(Redirected(saved, STDIN, input), STDOUT, output)
    ensures KnownAside(inside, pipes) && (ok ==> Known(inside, pipes))
  {
  }

  lemma Restored(before: Table, inside: Table, after: Table, last: Table, a: nat, b: nat, pipes: nat)
    requires STDIN in before && STDOUT in before && a !in before && b !in before && a != b
    requires SameButStandard(before[a := before[STDIN]][b := before[STDOUT]], inside) && Extends(inside, after)
    requires last == after[STDIN := after[a]][STDOUT := after[b]] - {a} - {b}
    requires KnownAside(after, pipes)
    ensures Extends(before, last) && Known(last, pipes)
    ensures last == before <==> after == inside
  {
    if last == before {
      forall fd | fd in after ensures fd in inside {
        assert fd == a || fd == b || fd in last;
      }
      assert after.Keys == inside.Keys;
    }
  }

  lemma ExtendsOn(a: Table, b: Table, c: Table)
    requires Extends(a, b) && Extends(b, c)
    ensures Extends(a, c) && (a == c <==> a == b && b == c)
  {
    if a == c {
      assert a.Keys == b.Keys && b.Keys == c.Keys;
    }
  }

  /** A session: whatever earlier pipelines have leaked stays open, and nothing else changes. */
  method RunJobs(shell: Process, jobs: seq<Job>)
    requires STDIN in shell.fds && STDOUT in shell.fds && Known(shell.fds, shell.kernel.pipes)
    modifies shell, shell.kernel
    ensures Known(shell.fds, shell.kernel.pipes) && Extends(old(shell.fds), shell.fds)
    ensures shell.fds == old(shell.fds) <==> forall job | job in jobs :: !Leaks(job)
  {
    for k := 0 to |jobs|
      invariant Known(shell.fds, shell.kernel.pipes) && Extends(old(shell.fds), shell.fds)
      invariant shell.fds == old(shell.fds) <==> forall job | job in jobs[..k] :: !Leaks(job)
    {
      ghost var before := shell.fds;
      RunJob(shell, jobs[k]);
      ExtendsOn(old(shell.fds), before, shell.fds);
      assert jobs[..k + 1] == jobs[..k] + [jobs[k]];
    }
    assert jobs[..|jobs|] == jobs;
  }
}
