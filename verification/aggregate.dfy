/** Folding the per-file results into the run's totals: the sequential
    branch of `BlockCompressor::call`, the loop of `FileCompressWorker::call`
    over the shared task queue, and the join over the workers' results. */
module Aggregate {
  import opened Wrappers
  import opened Task

  /** What a fold reports: the last code seen, the byte counts summed over
      the tasks it ran, and how many tasks it ran. */
  datatype Totals = Totals(code: int, read: int, written: int, executed: nat)

  /** Index of the first result with a non-zero code, or `|rs|`. */
  function FirstFailure(rs: seq<TaskResult>): (i: nat)
    ensures i <= |rs|
    ensures forall k :: 0 <= k < i ==> rs[k].code == 0
    ensures i < |rs| ==> rs[i].code != 0
  {
    if |rs| == 0 then 0
    else if rs[0].code != 0 then 0
    else 1 + FirstFailure(rs[1..])
  }

  /** How many tasks a fold that stops after the first failure runs. */
  function Executed(rs: seq<TaskResult>): (n: nat)
    ensures n <= |rs|
  {
    if FirstFailure(rs) < |rs| then FirstFailure(rs) + 1 else |rs|
  }

  function SumRead(rs: seq<TaskResult>): int {
    if |rs| == 0 then 0 else SumRead(rs[..|rs| - 1]) + rs[|rs| - 1].read
  }

  function SumWritten(rs: seq<TaskResult>): int {
    if |rs| == 0 then 0 else SumWritten(rs[..|rs| - 1]) + rs[|rs| - 1].written
  }

  /** The totals a stop-at-first-failure fold should report, stated
      directly: the code of the last task run (0 when none failed), and the
      counts of every task run, the failing one included. */
  function Expected(rs: seq<TaskResult>): Totals {
    var n := Executed(rs);
    Totals(if n == 0 then 0 else rs[n - 1].code, SumRead(rs[..n]), SumWritten(rs[..n]), n)
  }

  /** The sequential branch (lines 389-399); the join over the workers'
      results (lines 371-382) is the same fold over one result per worker. */
  method FoldResults(rs: seq<TaskResult>) returns (t: Totals)
    ensures t == Expected(rs)
    ensures t.code == 0 <==> forall k :: 0 <= k < |rs| ==> rs[k].code == 0
    ensures t.code == 0 ==> t.executed == |rs| && t.read == SumRead(rs)
    ensures t.code != 0 ==> (0 < t.executed <= |rs| && t.code == rs[t.executed - 1].code
      && forall k :: 0 <= k < t.executed - 1 ==> rs[k].code == 0)
  {
    var res := 0;
    var read := 0;
    var written := 0;
    var i := 0;
    while i < |rs|
      invariant i <= |rs|
      invariant forall k :: 0 <= k < i ==> rs[k].code == 0
      invariant read == SumRead(rs[..i]) && written == SumWritten(rs[..i])
      invariant res == 0
    {
      var fcr := rs[i];
      res := fcr.code;
      assert rs[..i + 1][..i] == rs[..i];
      read := read + fcr.read;
      written := written + fcr.written;
      if res != 0 {
        t := Totals(res, read, written, i + 1);
        return;
      }
      i := i + 1;
    }
    assert rs[..i] == rs;
    t := Totals(res, read, written, i);
  }

  /** The stop-at-first-failure fold, one result at a time from the
      front. */
  function FoldFrom(rs: seq<TaskResult>): Totals {
    if |rs| == 0 then Totals(0, 0, 0, 0)
    else if rs[0].code != 0 then Totals(rs[0].code, rs[0].read, rs[0].written, 1)
    else
      var t := FoldFrom(rs[1..]);
      Totals(t.code, rs[0].read + t.read, rs[0].written + t.written, t.executed + 1)
  }

  lemma {:induction false} FoldFromIsExpected(rs: seq<TaskResult>)
    ensures FoldFrom(rs) == Expected(rs)
    decreases |rs|
  {
    if |rs| > 0 {
      assert rs == [rs[0]] + rs[1..];
      if rs[0].code == 0 {
        FoldFromIsExpected(rs[1..]);
        ExpectedAfterSuccess(rs[0], rs[1..]);
      } else {
        ExpectedAfterFailure(rs[0], rs[1..]);
      }
    }
  }

  /** The task queue: `size` tasks handed out in order from `cursor`;
      `cleared` is set when the driver tells the workers to stop. The
      queue's own source is not part of this model. */
  datatype Queue = Queue(size: nat, cursor: nat, cleared: bool)

  function Fresh(size: nat): Queue {
    Queue(size, 0, false)
  }

  /** `get`: the next task's index, or nothing once the queue is drained
      or cleared. */
  function Get(q: Queue): (r: (Option<nat>, Queue))
    ensures r.0.Some? <==> !q.cleared && q.cursor < q.size
    ensures r.0.Some? ==> r.0.value == q.cursor && r.1 == q.(cursor := q.cursor + 1)
    ensures r.0.None? ==> r.1 == q
  {
    if !q.cleared && q.cursor < q.size then (Some(q.cursor), q.(cursor := q.cursor + 1))
    else (None, q)
  }

  function Clear(q: Queue): Queue {
    q.(cleared := true)
  }

  /** Once cleared, a queue hands out nothing more. */
  lemma ClearedQueueIsEmpty(q: Queue)
    ensures Get(Clear(q)).0 == None && Get(Clear(q)).1 == Clear(q)
  {
  }

  /** A worker (lines 808-827) from a given state: it takes tasks while its
      last code is 0 and the queue gives one, and adds up what they return. */
  function WorkerFrom(q: Queue, rs: seq<TaskResult>, acc: TaskResult): (r: (TaskResult, Queue))
    requires q.size == |rs| && q.cursor <= q.size
    ensures r.1.size == q.size && q.cursor <= r.1.cursor <= q.size && r.1.cleared == q.cleared
    ensures r.0.code != 0 ==> r.0.code == acc.code || (q.cursor < r.1.cursor && r.0.code == rs[r.1.cursor - 1].code)
    decreases q.size - q.cursor
  {
    if acc.code != 0 then (acc, q)
    else
      match Get(q).0
      case None => (acc, q)
      case Some(i) =>
        var fcr := rs[i];
        WorkerFrom(Get(q).1, rs, TaskResult(fcr.code, acc.read + fcr.read, acc.written + fcr.written))
  }

  /** A worker from its start: it only moves the cursor forward, and a
      failure it reports is the code of the last task it took. */
  function Worker(q: Queue, rs: seq<TaskResult>): (r: (TaskResult, Queue))
    requires q.size == |rs| && q.cursor <= q.size
    ensures r.1.size == q.size && q.cursor <= r.1.cursor <= q.size && r.1.cleared == q.cleared
    ensures r.0.code != 0 ==> q.cursor < r.1.cursor && r.0.code == rs[r.1.cursor - 1].code
  {
    WorkerFrom(q, rs, TaskResult(0, 0, 0))
  }

  /** A worker that has run tasks `[0, i)` without a failure goes on with
      the fold of the remaining results. */
  lemma {:induction false} WorkerFromMatchesFold(rs: seq<TaskResult>, i: nat, acc: TaskResult)
    requires i <= |rs| && acc.code == 0
    ensures var t := FoldFrom(rs[i..]);
      WorkerFrom(Queue(|rs|, i, false), rs, acc)
        == (TaskResult(t.code, acc.read + t.read, acc.written + t.written), Queue(|rs|, i + t.executed, false))
    decreases |rs| - i
  {
    if i < |rs| {
      assert rs[i..][0] == rs[i] && rs[i..][1..] == rs[i + 1..];
      if rs[i].code == 0 {
        WorkerFromMatchesFold(rs, i + 1, TaskResult(0, acc.read + rs[i].read, acc.written + rs[i].written));
      }
    }
  }

  /** A single worker on a fresh queue reports what the sequential branch
      reports, and leaves the queue's cursor just past the last task it ran:
      the two loops are the same fold. */
  lemma OneWorkerIsSequential(rs: seq<TaskResult>)
    ensures var r := Worker(Fresh(|rs|), rs);
      r.0 == TaskResult(Expected(rs).code, Expected(rs).read, Expected(rs).written)
      && r.1.cursor == Expected(rs).executed
  {
    WorkerFromMatchesFold(rs, 0, TaskResult(0, 0, 0));
    assert rs[0..] == rs;
    FoldFromIsExpected(rs);
  }

  /** A worker started on a cleared queue runs nothing and reports zero. */
  lemma WorkerOnClearedQueue(q: Queue, rs: seq<TaskResult>)
    requires q.size == |rs| && q.cursor <= q.size && q.cleared
    ensures Worker(q, rs) == (TaskResult(0, 0, 0), q)
  {
  }

  /** How a sequential run ends: with totals, or with the process exiting
      because a task's stream failed to close. */
  datatype RunEnd = Completed(totals: Totals) | Exited(code: int)

  /** The sequential branch over task outcomes, from the first task on: an
      exit ends everything, a failure stops after that task. */
  function RunSequential(os: seq<TaskOutcome>): (e: RunEnd)
    ensures e.Completed? ==> e.totals.executed <= |os|
  {
    if |os| == 0 then Completed(Totals(0, 0, 0, 0))
    else match os[0]
      case ProcessExit(code, _) => Exited(code)
      case Returned(r, _) =>
        if r.code != 0 then Completed(Totals(r.code, r.read, r.written, 1))
        else match RunSequential(os[1..])
          case Exited(code) => Exited(code)
          case Completed(t) => Completed(Totals(t.code, r.read + t.read, r.written + t.written, t.executed + 1))
  }

  function Results(os: seq<TaskOutcome>): (rs: seq<TaskResult>)
    requires forall k :: 0 <= k < |os| ==> os[k].Returned?
    ensures |rs| == |os| && forall k :: 0 <= k < |os| ==> rs[k] == os[k].result
  {
    seq(|os|, k requires 0 <= k < |os| => os[k].result)
  }

  lemma {:induction false} SumReadCons(r: TaskResult, rs: seq<TaskResult>)
    ensures SumRead([r] + rs) == r.read + SumRead(rs)
    ensures SumWritten([r] + rs) == r.written + SumWritten(rs)
    decreases |rs|
  {
    if |rs| > 0 {
      assert ([r] + rs)[..|rs|] == [r] + rs[..|rs| - 1];
      SumReadCons(r, rs[..|rs| - 1]);
    }
  }

  lemma ResultsCons(os: seq<TaskOutcome>)
    requires |os| > 0 && forall k :: 0 <= k < |os| ==> os[k].Returned?
    ensures Results(os) == [os[0].result] + Results(os[1..])
  {
    assert Results(os)[1..] == Results(os[1..]);
  }

  /** Stop-at-first-failure totals of a list that starts with a success:
      that task's counts added to the totals of the rest. */
  lemma ExpectedAfterSuccess(r: TaskResult, rs: seq<TaskResult>)
    requires r.code == 0
    ensures var e := Expected(rs);
      Expected([r] + rs) == Totals(e.code, r.read + e.read, r.written + e.written, e.executed + 1)
  {
    var all := [r] + rs;
    assert all[1..] == rs;
    var n := Executed(rs);
    assert Executed(all) == n + 1;
    assert all[..n + 1] == [r] + rs[..n];
    SumReadCons(r, rs[..n]);
  }

  /** A list that starts with a failure stops after that task. */
  lemma ExpectedAfterFailure(r: TaskResult, rs: seq<TaskResult>)
    requires r.code != 0
    ensures Expected([r] + rs) == Totals(r.code, r.read, r.written, 1)
  {
    var all := [r] + rs;
    assert all[..1] == [r];
    assert SumRead(all[..1]) == SumRead([]) + r.read;
    assert SumWritten(all[..1]) == SumWritten([]) + r.written;
  }

  lemma {:induction false} RunSequentialIsFold(os: seq<TaskOutcome>)
    requires forall k :: 0 <= k < |os| ==> os[k].Returned?
    ensures RunSequential(os) == Completed(FoldFrom(Results(os)))
    decreases |os|
  {
    if |os| > 0 {
      ResultsCons(os);
      if os[0].result.code == 0 {
        RunSequentialIsFold(os[1..]);
      }
    }
  }

  /** When no task ends the process, the sequential run reports exactly the
      stop-at-first-failure totals. */
  lemma SequentialRunMatchesFold(os: seq<TaskOutcome>)
    requires forall k :: 0 <= k < |os| ==> os[k].Returned?
    ensures RunSequential(os) == Completed(Expected(Results(os)))
  {
    RunSequentialIsFold(os);
    FoldFromIsExpected(Results(os));
  }

  /** A task that ends the process ends the run, unless an earlier task
      already failed and stopped it. */
  lemma {:induction false} ExitEndsRun(os: seq<TaskOutcome>, k: nat)
    requires k < |os| && os[k].ProcessExit?
    requires forall j :: 0 <= j < k ==> os[j].Returned? && os[j].result.code == 0
    ensures RunSequential(os) == Exited(os[k].code)
    decreases k
  {
    if k > 0 {
      ExitEndsRun(os[1..], k - 1);
    }
  }

  /** An exit of the sequential run is the exit of one of its tasks. */
  lemma {:induction false} ExitFromTask(os: seq<TaskOutcome>)
    ensures RunSequential(os).Exited? ==>
      exists k :: 0 <= k < |os| && os[k].ProcessExit? && os[k].code == RunSequential(os).code
    decreases |os|
  {
    if |os| > 0 && os[0].Returned? && os[0].result.code == 0 && RunSequential(os).Exited? {
      ExitFromTask(os[1..]);
      var k :| 0 <= k < |os[1..]| && os[1..][k].ProcessExit? && os[1..][k].code == RunSequential(os).code;
      assert os[k + 1] == os[1..][k];
    }
  }

  /** The code of a stop-at-first-failure fold: 0 exactly when every
      result is 0, and otherwise the code of the first failure. */
  lemma ExpectedCode(rs: seq<TaskResult>)
    ensures Expected(rs).code == 0 <==> forall k :: 0 <= k < |rs| ==> rs[k].code == 0
    ensures Expected(rs).code != 0 ==> Expected(rs).code == rs[FirstFailure(rs)].code
  {
  }

  /** What a worker hands to the join: the sums its loop returns. */
  function Report(e: RunEnd): TaskResult
    requires e.Completed?
  {
    TaskResult(e.totals.code, e.totals.read, e.totals.written)
  }

  /** Index of the first worker whose task ended the process, or `|ends|`. */
  function FirstExit(ends: seq<RunEnd>): (k: nat)
    ensures k <= |ends|
    ensures forall j :: 0 <= j < k ==> ends[j].Completed?
    ensures k < |ends| ==> ends[k].Exited?
  {
    if |ends| == 0 then 0
    else if ends[0].Exited? then 0
    else 1 + FirstExit(ends[1..])
  }

  function Reports(ends: seq<RunEnd>): (rs: seq<TaskResult>)
    requires forall k :: 0 <= k < |ends| ==> ends[k].Completed?
    ensures |rs| == |ends| && forall k :: 0 <= k < |ends| ==> rs[k] == Report(ends[k])
  {
    seq(|ends|, k requires 0 <= k < |ends| => Report(ends[k]))
  }

  /** The join over the workers (lines 360-387). Each worker runs the tasks
      the queue hands it with the sequential branch's loop (lines 808-827),
      so a task's failing close ends the process from that worker's thread;
      the futures' destructors wait for every worker, so such an exit ends
      the run whatever the join has read. Otherwise the join folds the
      workers' sums in worker order and stops at the first non-zero code. */
  function Join(ends: seq<RunEnd>): (e: RunEnd)
    ensures e.Exited? <==> exists k :: 0 <= k < |ends| && ends[k].Exited?
    ensures e.Exited? ==> exists k :: 0 <= k < |ends| && ends[k] == e
    ensures e.Completed? ==>
      (e.totals.code == 0 <==> forall k :: 0 <= k < |ends| ==> ends[k].totals.code == 0)
    ensures e.Completed? && e.totals.code != 0 ==>
      exists k :: 0 <= k < |ends| && ends[k].totals.code == e.totals.code
        && forall j :: 0 <= j < k ==> ends[j].totals.code == 0
  {
    var k := FirstExit(ends);
    if k < |ends| then ends[k]
    else
      var rs := Reports(ends);
      ExpectedCode(rs);
      Completed(Expected(rs))
  }

  /** With a single worker the join changes nothing: the run ends as that
      worker's loop ends, which is the sequential branch's fold. */
  lemma JoinOfOneWorker(os: seq<TaskOutcome>)
    ensures RunSequential(os).Exited? ==> Join([RunSequential(os)]) == RunSequential(os)
    ensures RunSequential(os).Completed? ==>
      Join([RunSequential(os)]).Completed?
      && Join([RunSequential(os)]).totals.code == RunSequential(os).totals.code
  {
    var e := RunSequential(os);
    if e.Completed? {
      var r := Report(e);
      assert Reports([e]) == [r];
      if r.code == 0 {
        ExpectedAfterSuccess(r, []);
      } else {
        ExpectedAfterFailure(r, []);
      }
      assert [r] + [] == [r];
    }
  }
}
