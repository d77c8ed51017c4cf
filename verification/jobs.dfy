/** `BlockCompressor::computeJobsPerTask`: splitting the job budget of a
    run over the files it compresses. */
module Jobs {

  function Sum(s: seq<int>): int {
    if |s| == 0 then 0 else Sum(s[..|s| - 1]) + s[|s| - 1]
  }

  /** The share every task receives before the remainder is handed out:
      one job each when there are at least as many tasks as jobs. */
  function BaseShare(jobs: int, tasks: int): int
    requires jobs > 0 && tasks > 0
  {
    if jobs <= tasks then 1 else jobs / tasks
  }

  /** The jobs left over once every task has its base share. */
  function Leftover(jobs: int, tasks: int): int
    requires jobs > 0 && tasks > 0
  {
    if jobs <= tasks then 0 else jobs - BaseShare(jobs, tasks) * tasks
  }

  /** Fills `slots[0..tasks)` with the per-task job counts, handing the
      leftover out one at a time from task 0 onwards (with a wrap back to 0
      that the leftover is too small ever to reach). A non-positive budget
      or task count leaves `slots` as it was. */
  method ComputeJobsPerTask(slots: seq<int>, jobs: int, tasks: int) returns (r: seq<int>)
    requires jobs > 0 && tasks > 0 ==> tasks <= |slots|
    ensures |r| == |slots|
    ensures jobs <= 0 || tasks <= 0 ==> r == slots
    ensures jobs > 0 && tasks > 0 ==> r[tasks..] == slots[tasks..]
    ensures jobs >= tasks > 0 ==>
      forall i :: 0 <= i < tasks ==> r[i] == jobs / tasks + (if i < jobs % tasks then 1 else 0)
    ensures 0 < jobs < tasks ==> forall i :: 0 <= i < tasks ==> r[i] == 1
    ensures jobs > 0 && tasks > 0 ==> Sum(r[..tasks]) == (if jobs < tasks then tasks else jobs)
    ensures r == JobsPerTask(slots, jobs, tasks)
  {
    if jobs <= 0 || tasks <= 0 {
      return slots;
    }
    var a := new int[|slots|](k requires 0 <= k < |slots| => slots[k]);
    var q := if jobs <= tasks then 1 else jobs / tasks;
    var rem := if jobs <= tasks then 0 else jobs - q * tasks;
    ghost var rem0 := rem;
    assert rem0 == Leftover(jobs, tasks) && q == BaseShare(jobs, tasks);
    ShareIsDivision(jobs, tasks);
    var i := 0;
    while i < tasks
      invariant 0 <= i <= tasks
      invariant forall k :: 0 <= k < i ==> a[k] == q
      invariant forall k :: tasks <= k < a.Length ==> a[k] == slots[k]
    {
      a[i] := q;
      i := i + 1;
    }
    var n := 0;
    while rem != 0
      invariant 0 <= rem <= rem0
      invariant n == rem0 - rem
      invariant 0 <= n < tasks
      invariant forall k :: 0 <= k < n ==> a[k] == q + 1
      invariant forall k :: n <= k < tasks ==> a[k] == q
      invariant forall k :: tasks <= k < a.Length ==> a[k] == slots[k]
      decreases rem
    {
      a[n] := a[n] + 1;
      rem := rem - 1;
      n := n + 1;
      if n == tasks {
        n := 0;
      }
    }
    r := a[..];
    assert r[tasks..] == slots[tasks..];
    ComputeMatchesAllocation(jobs, tasks, r);
    assert r == r[..tasks] + r[tasks..];
  }

  /** When jobs outnumber tasks, the code's base share and leftover are the
      quotient and remainder of dividing the budget by the task count. */
  lemma ShareIsDivision(jobs: int, tasks: int)
    requires jobs > 0 && tasks > 0
    ensures jobs >= tasks ==> BaseShare(jobs, tasks) == jobs / tasks >= 1
    ensures jobs >= tasks ==> Leftover(jobs, tasks) == jobs % tasks
    ensures 0 <= Leftover(jobs, tasks) < tasks
  {
    if jobs > tasks {
      var q := jobs / tasks;
      assert jobs == q * tasks + jobs % tasks;
      if q <= 0 {
        NonPositiveProduct(q, tasks);
      }
    } else if jobs == tasks {
      assert jobs / tasks == 1;
    }
  }

  lemma NonPositiveProduct(q: int, t: int)
    requires q <= 0 && t > 0
    ensures q * t <= 0
  {
  }

  /** Reference description of the allocation: the base share plus one for
      each of the first `Leftover` tasks. */
  function Allocation(jobs: int, tasks: int): (r: seq<int>)
    requires jobs > 0 && tasks > 0
    ensures |r| == tasks
  {
    seq(tasks, i requires 0 <= i < tasks =>
      BaseShare(jobs, tasks) + (if i < Leftover(jobs, tasks) then 1 else 0))
  }

  /** The slots after the call, stated through the reference allocation:
      the first `tasks` slots hold it and the rest keep their contents. */
  function JobsPerTask(slots: seq<int>, jobs: int, tasks: int): (r: seq<int>)
    requires jobs > 0 && tasks > 0 ==> tasks <= |slots|
    ensures |r| == |slots|
  {
    if jobs <= 0 || tasks <= 0 then slots else Allocation(jobs, tasks) + slots[tasks..]
  }

  lemma {:induction false} SumOfStep(s: seq<int>, q: int, extra: int)
    requires 0 <= extra <= |s|
    requires forall i :: 0 <= i < |s| ==> s[i] == q + (if i < extra then 1 else 0)
    ensures Sum(s) == q * |s| + extra
    decreases |s|
  {
    if |s| > 0 {
      var init := s[..|s| - 1];
      var e := if extra == |s| then extra - 1 else extra;
      assert forall i :: 0 <= i < |init| ==> init[i] == q + (if i < e then 1 else 0);
      SumOfStep(init, q, e);
    }
  }

  /** The allocation uses the whole budget when there are at least as many
      jobs as tasks, and one job per task (more than the budget) otherwise. */
  lemma AllocationSum(jobs: int, tasks: int)
    requires jobs > 0 && tasks > 0
    ensures jobs >= tasks ==> Sum(Allocation(jobs, tasks)) == jobs
    ensures jobs < tasks ==> Sum(Allocation(jobs, tasks)) == tasks
  {
    SumOfStep(Allocation(jobs, tasks), BaseShare(jobs, tasks), Leftover(jobs, tasks));
  }

  /** Every task gets the floor or the ceiling of the even share (or 1 when
      jobs are scarce), and earlier tasks never get less than later ones. */
  lemma AllocationBalanced(jobs: int, tasks: int)
    requires jobs > 0 && tasks > 0
    ensures jobs >= tasks ==> forall i :: 0 <= i < tasks ==>
      jobs / tasks <= Allocation(jobs, tasks)[i] <= jobs / tasks + 1
    ensures forall i, j :: 0 <= i <= j < tasks ==> Allocation(jobs, tasks)[i] >= Allocation(jobs, tasks)[j]
    ensures forall i :: 0 <= i < tasks ==> Allocation(jobs, tasks)[i] >= 1
    ensures forall i, j :: 0 <= i < tasks && 0 <= j < tasks ==>
      Allocation(jobs, tasks)[i] - Allocation(jobs, tasks)[j] <= 1
  {
    ShareIsDivision(jobs, tasks);
    assert BaseShare(jobs, tasks) >= 1;
    assert Leftover(jobs, tasks) >= 0;
  }

  /** The method fills the first `tasks` slots with exactly the reference
      allocation, whatever they held before. */
  lemma ComputeMatchesAllocation(jobs: int, tasks: int, r: seq<int>)
    requires jobs > 0 && tasks > 0 && tasks <= |r|
    requires jobs >= tasks ==>
      forall i :: 0 <= i < tasks ==> r[i] == jobs / tasks + (if i < jobs % tasks then 1 else 0)
    requires jobs < tasks ==> forall i :: 0 <= i < tasks ==> r[i] == 1
    ensures r[..tasks] == Allocation(jobs, tasks)
    ensures Sum(r[..tasks]) == (if jobs < tasks then tasks else jobs)
  {
    ShareIsDivision(jobs, tasks);
    forall i | 0 <= i < tasks
      ensures r[..tasks][i] == Allocation(jobs, tasks)[i]
    {
      if jobs < tasks {
        assert BaseShare(jobs, tasks) == 1 && Leftover(jobs, tasks) == 0;
      }
    }
    assert r[..tasks] == Allocation(jobs, tasks);
    AllocationSum(jobs, tasks);
  }
}
