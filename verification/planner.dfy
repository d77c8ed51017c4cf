/** `BlockCompressor::call`: from the resolved settings and what the file
    system reports to one compression task per input file, how they are
    run, and the status the run returns. */
module Planner {
  import opened Wrappers
  import opened Text
  import opened Errors
  import Options
  import Paths
  import Jobs
  import Listeners
  import opened Task
  import Aggregate

  /** What the driver learns from outside: the file list (`None` when
      `createFileList` throws), the file system, the registered listeners,
      the `InfoPrinter` it registers at high verbosity, and the contents of
      the freshly allocated `jobsPerTask` array, which C++ leaves
      indeterminate. */
  datatype Context = Context(
    listing: Option<seq<string>>,
    fs: FileSystem,
    listeners: seq<Listeners.Listener>,
    info: Listeners.Listener,
    indeterminate: nat -> int)

  /** One task runs directly; several run in a loop, or on worker threads
      when more than one job is requested. */
  datatype Mode = Single | Sequential | Concurrent

  datatype RunPlan = RunPlan(files: seq<string>, tasks: seq<TaskSpec>, mode: Mode, verbosity: int)

  /** A plan has a task, and runs it directly exactly when it has one. */
  predicate Planned(p: RunPlan) {
    |p.tasks| > 0 && (p.mode.Single? <==> |p.tasks| == 1)
  }

  /** `call()` returns an error code, or an `std::out_of_range` thrown while
      naming an output escapes it. */
  datatype PlanFailure = Refused(code: int) | UncaughtOutOfRange

  /** The input and output after the stat checks (lines 258-310): whether
      the input is a directory, the normalised input directory and the
      output name to build from. `refuseMissingOutput` selects the code as
      written, which refuses a file input whose output does not exist yet. */
  datatype Targets = Targets(inputIsDir: bool, inDir: string, outName: string)

  function CheckTargets(s: Options.Settings, fs: FileSystem, refuseMissingOutput: bool): (r: Result<Targets, int>)
    ensures r.Success? ==> |s.inputName| > 0 && !fs.kind(s.inputName).Missing?
    ensures r.Success? ==> (r.value.inputIsDir <==> fs.kind(s.inputName).Directory?)
    ensures (|s.inputName| == 0 || fs.kind(s.inputName).Missing?) ==> r == Failure(ERR_OPEN_FILE)
    ensures Paths.IsSpecialOutput(s.outputName) || |s.outputName| == 0 ==>
      (r.Success? <==> |s.inputName| > 0 && !fs.kind(s.inputName).Missing?)
    ensures r.Success? && r.value.inputIsDir && |s.outputName| > 0 && !Paths.IsSpecialOutput(s.outputName) ==>
      fs.kind(s.outputName).Directory? && r.value.outName == Paths.NormaliseOutputDir(s.outputName)
    ensures r.Success? && !r.value.inputIsDir && |s.outputName| > 0 && !Paths.IsSpecialOutput(s.outputName) ==>
      !fs.kind(s.outputName).Directory? && (refuseMissingOutput ==> !fs.kind(s.outputName).Missing?)
    ensures r.Success? && !(r.value.inputIsDir && |s.outputName| > 0 && !Paths.IsSpecialOutput(s.outputName)) ==>
      r.value.outName == s.outputName
    ensures r.Success? && r.value.inputIsDir ==> r.value.inDir == Paths.NormaliseInputDir(s.inputName)
    ensures r.Success? <==>
      |s.inputName| > 0 && !fs.kind(s.inputName).Missing?
      && (|s.outputName| == 0 || Paths.IsSpecialOutput(s.outputName)
          || (fs.kind(s.inputName).Directory? && fs.kind(s.outputName).Directory?)
          || (fs.kind(s.inputName).NotDirectory? && fs.kind(s.outputName).NotDirectory?)
          || (fs.kind(s.inputName).NotDirectory? && fs.kind(s.outputName).Missing? && !refuseMissingOutput))
    ensures (|s.inputName| > 0 && |s.outputName| > 0 && !Paths.IsSpecialOutput(s.outputName)) ==>
      && (fs.kind(s.inputName).Directory? && fs.kind(s.outputName).Missing? ==> r == Failure(ERR_OPEN_FILE))
      && (fs.kind(s.inputName).Directory? && fs.kind(s.outputName).NotDirectory? ==> r == Failure(ERR_CREATE_FILE))
      && (fs.kind(s.inputName).NotDirectory? && fs.kind(s.outputName).Directory? ==> r == Failure(ERR_CREATE_FILE))
      && (fs.kind(s.inputName).NotDirectory? && fs.kind(s.outputName).Missing? && refuseMissingOutput
          ==> r == Failure(ERR_OPEN_FILE))
  {
    var special := Paths.IsSpecialOutput(s.outputName);
    var out := s.outputName;
    if |s.inputName| == 0 || fs.kind(s.inputName).Missing? then Failure(ERR_OPEN_FILE)
    else if fs.kind(s.inputName).Directory? then
      var inDir := Paths.NormaliseInputDir(s.inputName);
      if |out| != 0 && !special then
        if fs.kind(out).Missing? then Failure(ERR_OPEN_FILE)
        else if !fs.kind(out).Directory? then Failure(ERR_CREATE_FILE)
        else Success(Targets(true, inDir, Paths.NormaliseOutputDir(out)))
      else Success(Targets(true, inDir, out))
    else if |out| != 0 && !special then
      if fs.kind(out).Missing? && refuseMissingOutput then Failure(ERR_OPEN_FILE)
      else if fs.kind(out).Directory? then Failure(ERR_CREATE_FILE)
      else Success(Targets(false, s.inputName, out))
    else Success(Targets(false, s.inputName, out))
  }

  /** The output name of every file, in order; the first `substr` out of
      range aborts the naming. */
  function NamesFor(files: seq<string>, t: Targets, special: bool): (r: Result<seq<string>, Paths.NameError>)
    ensures r.Success? <==> forall i :: 0 <= i < |files| ==> Paths.OutputNameFor(t.outName, files[i], t.inputIsDir, special, t.inDir).Success?
    ensures r.Success? ==> (|r.value| == |files|
      && forall i :: 0 <= i < |files| ==> r.value[i] == Paths.OutputNameFor(t.outName, files[i], t.inputIsDir, special, t.inDir).value)
  {
    if |files| == 0 then Success([])
    else
      match Paths.OutputNameFor(t.outName, files[0], t.inputIsDir, special, t.inDir)
      case Failure(e) => Failure(e)
      case Success(name) =>
        match NamesFor(files[1..], t, special)
        case Failure(e) => Failure(e)
        case Success(rest) =>
          assert forall i :: 1 <= i < |files| ==> files[i] == files[1..][i - 1];
          Success([name] + rest)
  }

  /** The job count each task receives: the whole budget for a single
      file, the `computeJobsPerTask` split otherwise. */
  function TaskJobs(jobs: int, n: nat, indeterminate: nat -> int): (r: seq<int>)
    requires n > 0
    ensures |r| == n
    ensures n == 1 ==> r == [jobs]
    ensures n > 1 && jobs > 0 ==> r == Jobs.Allocation(jobs, n)
    ensures n > 1 && jobs <= 0 ==> forall i :: 0 <= i < n ==> r[i] == indeterminate(i)
  {
    if n == 1 then [jobs]
    else
      var r := Jobs.JobsPerTask(seq(n, i requires 0 <= i < n => indeterminate(i)), jobs, n);
      assert jobs > 0 ==> r == Jobs.Allocation(jobs, n) by {
        if jobs > 0 {
          assert r == Jobs.Allocation(jobs, n) + seq(n, i requires 0 <= i < n => indeterminate(i))[n..];
        }
      }
      r
  }

  /** The tasks of a run (lines 324-354): one per file, in the sorted
      order, all sharing the run's settings and listeners, each with its
      output name and job count. With more than one job, several files and
      a verbosity above 1, the verbosity drops to 1 (lines 237-241); with a
      verbosity above 2 an `InfoPrinter` joins the listeners (lines
      243-244). */
  function Assemble(s: Options.Settings, ctx: Context, files: seq<string>, names: seq<string>): (p: RunPlan)
    requires |names| == |files| > 0
    ensures p.files == files && |p.tasks| == |files|
    ensures p.verbosity == if s.jobs > 1 && |files| > 1 && s.verbosity > 1 then 1 else s.verbosity
    ensures p.mode == if |files| == 1 then Single else if s.jobs > 1 then Concurrent else Sequential
    ensures forall i :: 0 <= i < |files| ==>
      var t := p.tasks[i];
      t.inputName == files[i] && t.outputName == names[i]
      && t.overwrite == s.overwrite && t.checksum == s.checksum && t.codec == s.codec
      && t.transform == s.transform && t.blockSize == s.blockSize
      && t.jobs == TaskJobs(s.jobs, |files|, ctx.indeterminate)[i]
      && t.listeners == ctx.listeners + (if p.verbosity > 2 then [ctx.info] else [])
  {
    var n := |files|;
    var verbosity := if s.jobs > 1 && n > 1 && s.verbosity > 1 then 1 else s.verbosity;
    var listeners := ctx.listeners + (if verbosity > 2 then [ctx.info] else []);
    var jobs := TaskJobs(s.jobs, n, ctx.indeterminate);
    var tasks := seq(n, i requires 0 <= i < n =>
      TaskSpec(files[i], names[i], s.overwrite, s.checksum, s.codec, s.transform,
               s.blockSize, jobs[i], listeners));
    var mode := if n == 1 then Single else if s.jobs > 1 then Concurrent else Sequential;
    RunPlan(files, tasks, mode, verbosity)
  }

  /** Everything `call()` does before the first task runs (lines 165-356):
      list and sort the files, refuse STDOUT for several jobs, check the
      input and output, name every output. `refuseMissingOutput` chooses
      between the code as written (line 299) and the corrected check. */
  function Prepare(s: Options.Settings, ctx: Context, refuseMissingOutput: bool): (r: Result<RunPlan, PlanFailure>)
    ensures (ctx.listing.None? || |ctx.listing.value| == 0) ==> r == Failure(Refused(ERR_OPEN_FILE))
    ensures ctx.listing.Some? && |ctx.listing.value| > 0 && Paths.RejectsStdout(s.outputName, s.jobs) ==>
      r == Failure(Refused(ERR_CREATE_FILE))
    ensures (ctx.listing.Some? && |ctx.listing.value| > 0 && !Paths.RejectsStdout(s.outputName, s.jobs)
      && CheckTargets(s, ctx.fs, refuseMissingOutput).Failure?) ==>
      r == Failure(Refused(CheckTargets(s, ctx.fs, refuseMissingOutput).error))
    ensures r.Success? ==> ctx.listing.Some? && !Paths.RejectsStdout(s.outputName, s.jobs)
    ensures r.Success? ==>
      var files := SortNames(ctx.listing.value);
      var targets := CheckTargets(s, ctx.fs, refuseMissingOutput);
      var names := NamesFor(files, targets.value, Paths.IsSpecialOutput(s.outputName));
      targets.Success? && names.Success? && |files| > 0 && r.value == Assemble(s, ctx, files, names.value)
    ensures (ctx.listing.Some? && |ctx.listing.value| > 0 && !Paths.RejectsStdout(s.outputName, s.jobs)
      && CheckTargets(s, ctx.fs, refuseMissingOutput).Success?) ==>
      var files := SortNames(ctx.listing.value);
      var names := NamesFor(files, CheckTargets(s, ctx.fs, refuseMissingOutput).value, Paths.IsSpecialOutput(s.outputName));
      && (names.Success? ==> |files| > 0 && r == Success(Assemble(s, ctx, files, names.value)))
      && (names.Failure? ==> r == Failure(UncaughtOutOfRange))
  {
    if ctx.listing.None? || |ctx.listing.value| == 0 then Failure(Refused(ERR_OPEN_FILE))
    else
      var files := SortNames(ctx.listing.value);
      if Paths.RejectsStdout(s.outputName, s.jobs) then Failure(Refused(ERR_CREATE_FILE))
      else
        match CheckTargets(s, ctx.fs, refuseMissingOutput)
        case Failure(code) => Failure(Refused(code))
        case Success(targets) =>
          match NamesFor(files, targets, Paths.IsSpecialOutput(s.outputName))
          case Failure(_) => Failure(UncaughtOutOfRange)
          case Success(names) => Success(Assemble(s, ctx, files, names))
  }

  /** The driver as written: a refusal carries a non-zero code, and a plan
      has one task per listed file, run alone exactly when there is one. */
  function PlanAsWritten(s: Options.Settings, ctx: Context): (r: Result<RunPlan, PlanFailure>)
    ensures r.Failure? && r.error.Refused? ==> r.error.code != 0
    ensures r.Success? ==>
      && Planned(r.value) && ctx.listing.Some?
      && multiset(r.value.files) == multiset(ctx.listing.value) && |r.value.tasks| == |r.value.files|
  {
    Prepare(s, ctx, true)
  }

  /** The driver with an output file that does not exist yet accepted for a
      file input, as the task's own checks expect. */
  function Plan(s: Options.Settings, ctx: Context): (r: Result<RunPlan, PlanFailure>)
    ensures r.Failure? && r.error.Refused? ==> r.error.code != 0
    ensures r.Success? ==>
      && Planned(r.value) && ctx.listing.Some?
      && multiset(r.value.files) == multiset(ctx.listing.value) && |r.value.tasks| == |r.value.files|
  {
    Prepare(s, ctx, false)
  }

  /** The correction only adds plans: whatever the driver as written
      accepts, the corrected one plans the same way, and the two differ
      only where the code as written refuses a file input whose ordinary
      output does not exist yet. */
  lemma PlanAsWrittenRefines(s: Options.Settings, ctx: Context)
    ensures PlanAsWritten(s, ctx).Success? ==> Plan(s, ctx) == PlanAsWritten(s, ctx)
    ensures Plan(s, ctx) != PlanAsWritten(s, ctx) ==>
      PlanAsWritten(s, ctx) == Failure(Refused(ERR_OPEN_FILE))
      && ctx.fs.kind(s.inputName).NotDirectory? && |s.outputName| > 0
      && !Paths.IsSpecialOutput(s.outputName) && ctx.fs.kind(s.outputName).Missing?
  {
    if CheckTargets(s, ctx.fs, true) != CheckTargets(s, ctx.fs, false) {
      assert CheckTargets(s, ctx.fs, true) == Failure(ERR_OPEN_FILE);
    }
  }

  /** The order in which the lister returns the files never shows: two
      listings of the same names give the same plan. */
  lemma PlanIgnoresListingOrder(s: Options.Settings, ctx: Context, refuseMissingOutput: bool, other: seq<string>)
    requires ctx.listing.Some? && multiset(ctx.listing.value) == multiset(other)
    ensures Prepare(s, ctx, refuseMissingOutput) == Prepare(s, ctx.(listing := Some(other)), refuseMissingOutput)
  {
    SortNamesDeterministic(ctx.listing.value, other);
  }

  /** The job count of every task of a plan, in task order. */
  function JobCounts(p: RunPlan): (r: seq<int>)
    ensures |r| == |p.tasks| && forall i :: 0 <= i < |p.tasks| ==> r[i] == p.tasks[i].jobs
  {
    seq(|p.tasks|, i requires 0 <= i < |p.tasks| => p.tasks[i].jobs)
  }

  /** Several files and a positive budget: the tasks receive the job split,
      in order. */
  lemma TasksCarryAllocation(s: Options.Settings, ctx: Context, refuseMissingOutput: bool)
    requires Prepare(s, ctx, refuseMissingOutput).Success?
    requires |Prepare(s, ctx, refuseMissingOutput).value.tasks| > 1 && s.jobs > 0
    ensures var p := Prepare(s, ctx, refuseMissingOutput).value;
      JobCounts(p) == Jobs.Allocation(s.jobs, |p.tasks|)
  {
    var files := SortNames(ctx.listing.value);
    var targets := CheckTargets(s, ctx.fs, refuseMissingOutput);
    var names := NamesFor(files, targets.value, Paths.IsSpecialOutput(s.outputName));
    assert Prepare(s, ctx, refuseMissingOutput).value == Assemble(s, ctx, files, names.value);
  }

  /** Several files and a positive budget: the tasks' job counts add up to
      the budget, or to one job per file when there are fewer jobs than
      files, and differ by at most one. */
  lemma JobBudgetSpread(s: Options.Settings, ctx: Context, refuseMissingOutput: bool)
    requires Prepare(s, ctx, refuseMissingOutput).Success?
    requires |Prepare(s, ctx, refuseMissingOutput).value.tasks| > 1 && s.jobs > 0
    ensures var p := Prepare(s, ctx, refuseMissingOutput).value;
      Jobs.Sum(JobCounts(p)) == if s.jobs < |p.tasks| then |p.tasks| else s.jobs
    ensures var ts := Prepare(s, ctx, refuseMissingOutput).value.tasks;
      forall i, j :: 0 <= i < |ts| && 0 <= j < |ts| ==> ts[i].jobs - ts[j].jobs <= 1
  {
    var p := Prepare(s, ctx, refuseMissingOutput).value;
    TasksCarryAllocation(s, ctx, refuseMissingOutput);
    Jobs.AllocationSum(s.jobs, |p.tasks|);
    Jobs.AllocationBalanced(s.jobs, |p.tasks|);
    forall i, j | 0 <= i < |p.tasks| && 0 <= j < |p.tasks|
      ensures p.tasks[i].jobs - p.tasks[j].jobs <= 1
    {
      assert p.tasks[i].jobs == JobCounts(p)[i] && p.tasks[j].jobs == JobCounts(p)[j];
    }
  }

  /** Several files and a job count `atoi` read as negative: the split
      leaves the array untouched, so every task receives whatever the
      uninitialised array held. */
  lemma NonPositiveBudgetLeavesIndeterminate(s: Options.Settings, ctx: Context, refuseMissingOutput: bool)
    requires Prepare(s, ctx, refuseMissingOutput).Success?
    requires |Prepare(s, ctx, refuseMissingOutput).value.tasks| > 1 && s.jobs <= 0
    ensures var ts := Prepare(s, ctx, refuseMissingOutput).value.tasks;
      forall i :: 0 <= i < |ts| ==> ts[i].jobs == ctx.indeterminate(i)
  {
  }

  /** A special output is never looked up on the file system by the
      driver: what `stat` would say about that name changes nothing. */
  lemma SpecialOutputNotStatted(s: Options.Settings, ctx: Context, refuseMissingOutput: bool, kind: string -> PathKind)
    requires Paths.IsSpecialOutput(s.outputName) && s.inputName != s.outputName
    requires forall p :: p != s.outputName ==> kind(p) == ctx.fs.kind(p)
    ensures Prepare(s, ctx, refuseMissingOutput)
      == Prepare(s, ctx.(fs := ctx.fs.(kind := kind)), refuseMissingOutput)
  {
    var ctx2 := ctx.(fs := ctx.fs.(kind := kind));
    assert kind(s.inputName) == ctx.fs.kind(s.inputName);
    assert CheckTargets(s, ctx.fs, refuseMissingOutput) == CheckTargets(s, ctx2.fs, refuseMissingOutput);
  }

  /** Without an output name every task writes next to its input with the
      `.knz` extension; with a special one every task writes to it. */
  lemma TaskOutputNames(s: Options.Settings, ctx: Context, refuseMissingOutput: bool)
    requires Prepare(s, ctx, refuseMissingOutput).Success?
    ensures var p := Prepare(s, ctx, refuseMissingOutput).value;
      |s.outputName| == 0 ==> forall i :: 0 <= i < |p.tasks| ==>
        p.tasks[i].outputName == p.files[i] + Paths.Extension
    ensures var p := Prepare(s, ctx, refuseMissingOutput).value;
      Paths.IsSpecialOutput(s.outputName) ==> forall i :: 0 <= i < |p.tasks| ==>
        p.tasks[i].outputName == s.outputName
  {
    if Paths.IsSpecialOutput(s.outputName) {
      assert |s.outputName| > 0;
    }
  }

  /** A directory input and an ordinary output name: the output must be an
      existing directory, and every task writes below it. */
  lemma DirectoryInputNeedsDirectoryOutput(s: Options.Settings, ctx: Context, refuseMissingOutput: bool)
    requires ctx.listing.Some? && |ctx.listing.value| > 0 && !Paths.RejectsStdout(s.outputName, s.jobs)
    requires |s.inputName| > 0 && ctx.fs.kind(s.inputName).Directory?
    requires |s.outputName| > 0 && !Paths.IsSpecialOutput(s.outputName)
    ensures ctx.fs.kind(s.outputName).Missing? ==>
      Prepare(s, ctx, refuseMissingOutput) == Failure(Refused(ERR_OPEN_FILE))
    ensures ctx.fs.kind(s.outputName).NotDirectory? ==>
      Prepare(s, ctx, refuseMissingOutput) == Failure(Refused(ERR_CREATE_FILE))
    ensures Prepare(s, ctx, refuseMissingOutput).Success? ==>
      var p := Prepare(s, ctx, refuseMissingOutput).value;
      forall i :: 0 <= i < |p.tasks| ==> HasPrefix(p.tasks[i].outputName, Paths.NormaliseOutputDir(s.outputName))
  {
    if Prepare(s, ctx, refuseMissingOutput).Success? {
      var p := Prepare(s, ctx, refuseMissingOutput).value;
      var out := Paths.NormaliseOutputDir(s.outputName);
      forall i | 0 <= i < |p.tasks|
        ensures HasPrefix(p.tasks[i].outputName, out)
      {
        var inDir := Paths.NormaliseInputDir(s.inputName);
        assert p.tasks[i].outputName == out + p.files[i][|inDir| + 1..] + Paths.Extension;
      }
    }
  }

  /** As written: a single file compressed to an ordinary output name that
      does not exist yet is refused with `ERR_OPEN_FILE`, although the task
      would create that file. */
  lemma MissingOutputRefused(s: Options.Settings, ctx: Context)
    requires ctx.listing.Some? && |ctx.listing.value| > 0 && !Paths.RejectsStdout(s.outputName, s.jobs)
    requires |s.inputName| > 0 && ctx.fs.kind(s.inputName).NotDirectory?
    requires |s.outputName| > 0 && !Paths.IsSpecialOutput(s.outputName) && ctx.fs.kind(s.outputName).Missing?
    ensures PlanAsWritten(s, ctx) == Failure(Refused(ERR_OPEN_FILE))
    ensures forall t: TaskSpec :: (t.outputName == s.outputName && !ctx.fs.samePath(t.inputName, t.outputName)
      && ctx.fs.canCreate(t.outputName)) ==> OpenOutput(t, ctx.fs) == Success(FileSink)
  {
  }

  /** Corrected: the same request yields one task per file, each writing to
      the given name, and the task opens that name when it can be created. */
  lemma MissingOutputAccepted(s: Options.Settings, ctx: Context)
    requires ctx.listing.Some? && |ctx.listing.value| > 0 && !Paths.RejectsStdout(s.outputName, s.jobs)
    requires |s.inputName| > 0 && ctx.fs.kind(s.inputName).NotDirectory?
    requires |s.outputName| > 0 && !Paths.IsSpecialOutput(s.outputName) && ctx.fs.kind(s.outputName).Missing?
    ensures Plan(s, ctx).Success?
    ensures forall i :: 0 <= i < |Plan(s, ctx).value.tasks| ==> Plan(s, ctx).value.tasks[i].outputName == s.outputName
    ensures forall i :: 0 <= i < |Plan(s, ctx).value.tasks| ==>
      var t := Plan(s, ctx).value.tasks[i];
      !ctx.fs.samePath(t.inputName, t.outputName) && ctx.fs.canCreate(t.outputName) ==> OpenOutput(t, ctx.fs) == Success(FileSink)
  {
    var files := SortNames(ctx.listing.value);
    var t := CheckTargets(s, ctx.fs, false);
    assert t.Success? && !t.value.inputIsDir;
    assert NamesFor(files, t.value, false).Success?;
  }

  /** How the process ends: `call()` returns a code, a task's failing close
      exits the process, or an uncaught exception aborts it. */
  datatype Status = Returns(code: int) | Exits(code: int) | Aborts

  /** What the tasks of a plan do when run, in plan order. */
  function Outcomes(p: RunPlan, outcome: TaskSpec -> TaskOutcome): (os: seq<TaskOutcome>)
    ensures |os| == |p.tasks| && forall i :: 0 <= i < |p.tasks| ==> os[i] == outcome(p.tasks[i])
  {
    seq(|p.tasks|, i requires 0 <= i < |p.tasks| => outcome(p.tasks[i]))
  }

  /** The tasks the queue handed one worker, in the order it ran them,
      given by their positions in the plan. */
  predicate Scheduled(p: RunPlan, schedule: seq<seq<nat>>) {
    forall i, j :: 0 <= i < |schedule| && 0 <= j < |schedule[i]| ==> schedule[i][j] < |p.tasks|
  }

  /** What the tasks one worker took do when run, in its order. */
  function Picked(p: RunPlan, outcome: TaskSpec -> TaskOutcome, picks: seq<nat>): (os: seq<TaskOutcome>)
    requires forall j :: 0 <= j < |picks| ==> picks[j] < |p.tasks|
    ensures |os| == |picks| && forall j :: 0 <= j < |picks| ==> os[j] == outcome(p.tasks[picks[j]])
  {
    seq(|picks|, j requires 0 <= j < |picks| => outcome(p.tasks[picks[j]]))
  }

  /** How each worker's loop ends. */
  function WorkerEnds(p: RunPlan, outcome: TaskSpec -> TaskOutcome, schedule: seq<seq<nat>>): (ends: seq<Aggregate.RunEnd>)
    requires Scheduled(p, schedule)
    ensures |ends| == |schedule|
    ensures forall i :: 0 <= i < |schedule| ==> ends[i] == Aggregate.RunSequential(Picked(p, outcome, schedule[i]))
  {
    seq(|schedule|, i requires 0 <= i < |schedule| => Aggregate.RunSequential(Picked(p, outcome, schedule[i])))
  }

  /** The status a run that got past its checks ends with. */
  function Ending(e: Aggregate.RunEnd): (st: Status)
    ensures st != Aborts
    ensures e.Exited? <==> st.Exits?
    ensures st.code == if e.Exited? then e.code else e.totals.code
  {
    match e
    case Exited(code) => Exits(code)
    case Completed(t) => Returns(t.code)
  }

  /** Running the tasks of a plan (lines 316-399): one task directly, several
      in a loop, or on worker threads. With worker threads, which tasks each
      worker takes from the shared queue depends on timing: `schedule`
      gives, for each worker, the positions of the tasks it was handed, in
      order. */
  function Execute(p: RunPlan, outcome: TaskSpec -> TaskOutcome, schedule: seq<seq<nat>>): (st: Status)
    requires Planned(p)
    requires p.mode.Concurrent? ==> Scheduled(p, schedule)
    ensures st != Aborts
    ensures p.mode.Single? ==>
      var o := outcome(p.tasks[0]);
      st == if o.ProcessExit? then Exits(o.code) else Returns(o.result.code)
    ensures p.mode.Sequential? ==> st == Ending(Aggregate.RunSequential(Outcomes(p, outcome)))
    ensures p.mode.Concurrent? ==> st == Ending(Aggregate.Join(WorkerEnds(p, outcome, schedule)))
  {
    if p.mode.Concurrent? then Ending(Aggregate.Join(WorkerEnds(p, outcome, schedule)))
    else if p.mode.Single? then
      match outcome(p.tasks[0])
      case ProcessExit(code, _) => Exits(code)
      case Returned(r, _) => Returns(r.code)
    else Ending(Aggregate.RunSequential(Outcomes(p, outcome)))
  }

  /** The whole of `call()` (lines 165-427), as written when
      `refuseMissingOutput` holds and corrected otherwise. `outcome` is
      what a task does when run; with worker threads there are `s.jobs`
      workers. */
  function Run(s: Options.Settings, ctx: Context, refuseMissingOutput: bool,
               outcome: TaskSpec -> TaskOutcome, schedule: seq<seq<nat>>): (st: Status)
    requires Prepare(s, ctx, refuseMissingOutput).Success? && Prepare(s, ctx, refuseMissingOutput).value.mode.Concurrent?
      ==> |schedule| == s.jobs && Scheduled(Prepare(s, ctx, refuseMissingOutput).value, schedule)
    ensures var r := Prepare(s, ctx, refuseMissingOutput);
      r.Failure? ==> st == if r.error.Refused? then Returns(r.error.code) else Aborts
    ensures var r := Prepare(s, ctx, refuseMissingOutput);
      r.Success? ==> Planned(r.value) && st == Execute(r.value, outcome, schedule)
    ensures st == Aborts <==> Prepare(s, ctx, refuseMissingOutput) == Failure(UncaughtOutOfRange)
  {
    match Prepare(s, ctx, refuseMissingOutput)
    case Failure(Refused(code)) => Returns(code)
    case Failure(UncaughtOutOfRange) => Aborts
    case Success(p) => Execute(p, outcome, schedule)
  }

  /** When no task ends the process, a run without worker threads returns
      the code of the first failing task, or 0 when all succeed. */
  lemma ExecuteReturnsFirstFailure(p: RunPlan, outcome: TaskSpec -> TaskOutcome, schedule: seq<seq<nat>>)
    requires Planned(p) && !p.mode.Concurrent?
    requires forall i :: 0 <= i < |p.tasks| ==> outcome(p.tasks[i]).Returned?
    ensures var rs := Aggregate.Results(Outcomes(p, outcome));
      Execute(p, outcome, schedule) == Returns(Aggregate.Expected(rs).code)
      && (Aggregate.Expected(rs).code == 0 <==> forall i :: 0 <= i < |rs| ==> rs[i].code == 0)
  {
    var os := Outcomes(p, outcome);
    var rs := Aggregate.Results(os);
    Aggregate.ExpectedCode(rs);
    if p.mode.Sequential? {
      Aggregate.SequentialRunMatchesFold(os);
    } else {
      var r := rs[0];
      assert rs == [r] + [];
      if r.code == 0 {
        Aggregate.ExpectedAfterSuccess(r, []);
      } else {
        Aggregate.ExpectedAfterFailure(r, []);
      }
    }
  }

  /** The same for the whole run, as written or corrected. */
  lemma RunReturnsFirstFailure(s: Options.Settings, ctx: Context, refuseMissingOutput: bool,
                               outcome: TaskSpec -> TaskOutcome, schedule: seq<seq<nat>>)
    requires Prepare(s, ctx, refuseMissingOutput).Success?
    requires !Prepare(s, ctx, refuseMissingOutput).value.mode.Concurrent?
    requires forall t :: outcome(t).Returned?
    ensures var rs := Aggregate.Results(Outcomes(Prepare(s, ctx, refuseMissingOutput).value, outcome));
      Run(s, ctx, refuseMissingOutput, outcome, schedule) == Returns(Aggregate.Expected(rs).code)
      && (Aggregate.Expected(rs).code == 0 <==> forall i :: 0 <= i < |rs| ==> rs[i].code == 0)
  {
    ExecuteReturnsFirstFailure(Prepare(s, ctx, refuseMissingOutput).value, outcome, schedule);
  }

  /** With worker threads and no task ending the process, the run returns
      0 exactly when every worker reports 0, and otherwise the code of the
      first worker, in join order, that reports a failure. */
  lemma ConcurrentReturnsFirstFailure(p: RunPlan, outcome: TaskSpec -> TaskOutcome, schedule: seq<seq<nat>>)
    requires Planned(p) && p.mode.Concurrent? && Scheduled(p, schedule)
    requires forall i :: 0 <= i < |p.tasks| ==> outcome(p.tasks[i]).Returned?
    ensures var ends := WorkerEnds(p, outcome, schedule);
      var st := Execute(p, outcome, schedule);
      && (forall i :: 0 <= i < |ends| ==> ends[i].Completed?)
      && st.Returns?
      && (st.code == 0 <==> forall i :: 0 <= i < |ends| ==> ends[i].totals.code == 0)
      && (st.code != 0 ==>
            exists i :: 0 <= i < |ends| && ends[i].totals.code == st.code
              && forall j :: 0 <= j < i ==> ends[j].totals.code == 0)
  {
    var ends := WorkerEnds(p, outcome, schedule);
    forall i | 0 <= i < |ends|
      ensures ends[i].Completed?
    {
      var os := Picked(p, outcome, schedule[i]);
      Aggregate.SequentialRunMatchesFold(os);
    }
  }

  /** A worker whose task ends the process ends the run, whatever the
      other workers and the join do. */
  lemma WorkerExitEndsRun(p: RunPlan, outcome: TaskSpec -> TaskOutcome, schedule: seq<seq<nat>>, w: nat, k: nat)
    requires Planned(p) && p.mode.Concurrent? && Scheduled(p, schedule)
    requires w < |schedule| && k < |schedule[w]|
    requires outcome(p.tasks[schedule[w][k]]).ProcessExit?
    requires forall j :: 0 <= j < k ==>
      outcome(p.tasks[schedule[w][j]]).Returned? && outcome(p.tasks[schedule[w][j]]).result.code == 0
    ensures Execute(p, outcome, schedule).Exits?
  {
    var ends := WorkerEnds(p, outcome, schedule);
    Aggregate.ExitEndsRun(Picked(p, outcome, schedule[w]), k);
    assert ends[w].Exited?;
  }

  /** Every exit of the process comes from a task whose stream failed to
      close, and carries that task's code. */
  lemma ExitComesFromTask(p: RunPlan, outcome: TaskSpec -> TaskOutcome, schedule: seq<seq<nat>>)
    requires Planned(p) && (p.mode.Concurrent? ==> Scheduled(p, schedule))
    ensures Execute(p, outcome, schedule).Exits? ==>
      exists i :: 0 <= i < |p.tasks| && outcome(p.tasks[i]).ProcessExit?
        && outcome(p.tasks[i]).code == Execute(p, outcome, schedule).code
  {
    var st := Execute(p, outcome, schedule);
    if st.Exits? {
      if p.mode.Sequential? {
        var os := Outcomes(p, outcome);
        Aggregate.ExitFromTask(os);
        var k :| 0 <= k < |os| && os[k].ProcessExit? && os[k].code == st.code;
        assert outcome(p.tasks[k]) == os[k];
      } else if p.mode.Concurrent? {
        var ends := WorkerEnds(p, outcome, schedule);
        var w :| 0 <= w < |ends| && ends[w] == Aggregate.Join(ends);
        var os := Picked(p, outcome, schedule[w]);
        Aggregate.ExitFromTask(os);
        var k :| 0 <= k < |os| && os[k].ProcessExit? && os[k].code == st.code;
        assert outcome(p.tasks[schedule[w][k]]) == os[k];
      } else {
        assert outcome(p.tasks[0]).ProcessExit?;
      }
    }
  }

  /** The driver running the task model: when no task's stream fails to
      close, a run without worker threads returns, with 0 exactly when
      every task returns 0, and then every task read its whole input. */
  lemma DriverRunsTasks(p: RunPlan, fs: FileSystem, env: TaskSpec -> TaskEnv,
                        outcome: TaskSpec -> TaskOutcome, schedule: seq<seq<nat>>)
    requires Planned(p) && !p.mode.Concurrent?
    requires forall t {:trigger RunTask(t, fs, env(t))} :: outcome(t) == RunTask(t, fs, env(t))
    requires forall t :: !env(t).closeFails
    ensures forall i :: 0 <= i < |p.tasks| ==> outcome(p.tasks[i]).Returned?
    ensures var st := Execute(p, outcome, schedule);
      st.Returns? && (st.code == 0 <==> forall i :: 0 <= i < |p.tasks| ==> outcome(p.tasks[i]).result.code == 0)
    ensures var st := Execute(p, outcome, schedule);
      st == Returns(0) && (forall t :: FaultCodesNonZero(env(t))) ==>
        forall i :: 0 <= i < |p.tasks| ==> ReadLoop(env(p.tasks[i]).inputs, env(p.tasks[i]).writes).end.Drained?
  {
    TasksReturn(fs, env, outcome);
    ExecuteReturnsFirstFailure(p, outcome, schedule);
    var rs := Aggregate.Results(Outcomes(p, outcome));
    assert forall i :: 0 <= i < |p.tasks| ==> rs[i] == outcome(p.tasks[i]).result;
    if Execute(p, outcome, schedule) == Returns(0) && (forall t :: FaultCodesNonZero(env(t))) {
      SucceedingTasksDrained(p.tasks, fs, env, outcome);
    }
  }

  /** Tasks whose streams close return. */
  lemma TasksReturn(fs: FileSystem, env: TaskSpec -> TaskEnv, outcome: TaskSpec -> TaskOutcome)
    requires forall t {:trigger RunTask(t, fs, env(t))} :: outcome(t) == RunTask(t, fs, env(t))
    requires forall t :: !env(t).closeFails
    ensures forall t :: outcome(t).Returned?
  {
    forall t
      ensures outcome(t).Returned?
    {
      assert outcome(t) == RunTask(t, fs, env(t));
    }
  }

  /** Tasks that all return 0 all read their whole input. */
  lemma SucceedingTasksDrained(ts: seq<TaskSpec>, fs: FileSystem, env: TaskSpec -> TaskEnv, outcome: TaskSpec -> TaskOutcome)
    requires forall t {:trigger RunTask(t, fs, env(t))} :: outcome(t) == RunTask(t, fs, env(t))
    requires forall i :: 0 <= i < |ts| ==> outcome(ts[i]).Returned? && outcome(ts[i]).result.code == 0
    requires forall t :: FaultCodesNonZero(env(t))
    ensures forall i :: 0 <= i < |ts| ==> ReadLoop(env(ts[i]).inputs, env(ts[i]).writes).end.Drained?
  {
    forall i | 0 <= i < |ts|
      ensures ReadLoop(env(ts[i]).inputs, env(ts[i]).writes).end.Drained?
    {
      assert outcome(ts[i]) == RunTask(ts[i], fs, env(ts[i]));
      assert FaultCodesNonZero(env(ts[i]));
    }
  }

  /** The driver running the task model: when the first task's stream is
      built and fails to close, a run without worker threads ends the
      process with `ERR_WRITE_FILE`. */
  lemma FirstCloseFailureExits(p: RunPlan, fs: FileSystem, env: TaskSpec -> TaskEnv,
                               outcome: TaskSpec -> TaskOutcome, schedule: seq<seq<nat>>)
    requires Planned(p) && !p.mode.Concurrent?
    requires forall t {:trigger RunTask(t, fs, env(t))} :: outcome(t) == RunTask(t, fs, env(t))
    requires OpenOutput(p.tasks[0], fs).Success? && env(p.tasks[0]).setup.Built? && env(p.tasks[0]).closeFails
    ensures Execute(p, outcome, schedule) == Exits(ERR_WRITE_FILE)
  {
    assert outcome(p.tasks[0]) == RunTask(p.tasks[0], fs, env(p.tasks[0]));
    if p.mode.Sequential? {
      Aggregate.ExitEndsRun(Outcomes(p, outcome), 0);
    }
  }
}
