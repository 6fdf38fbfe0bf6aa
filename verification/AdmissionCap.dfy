/** The B2 planner of `generate_policy_scenario.py`: in high-carbon time flexible jobs start only within a node cap. */
module AdmissionCap {
  import opened Basics
  import opened Intensity

  datatype Scheduled = Scheduled(start: real, end: real, nodes: real)

  datatype Job = Job(release: real, runtime: real, nodes: real, flexible: bool)

  function ActiveNodes(scheduled: seq<Scheduled>, at: real): real {
    if scheduled == [] then 0.0
    else
      var last := scheduled[|scheduled| - 1];
      ActiveNodes(scheduled[..|scheduled| - 1], at) + if last.start <= at < last.end then last.nodes else 0.0
  }

  /** Only the jobs that run at the instant count: one that has ended or not begun may be left out, one that runs adds
      its nodes, wherever it stands in the schedule. */
  lemma {:induction false} OnlyRunningCount(before: seq<Scheduled>, s: Scheduled, after: seq<Scheduled>, at: real)
    ensures ActiveNodes(before + [s] + after, at)
            == ActiveNodes(before + after, at) + if at < s.start || at >= s.end then 0.0 else s.nodes
    ensures ActiveNodes([], at) == 0.0
    decreases |after|
  {
    if after == [] {
      assert before + [s] + after == before + [s] && before + after == before;
      assert (before + [s])[..|before|] == before;
    } else {
      var n := |after| - 1;
      OnlyRunningCount(before, s, after[..n], at);
      assert (before + [s] + after)[..|before| + 1 + n] == before + [s] + after[..n];
      assert (before + after)[..|before| + n] == before + after[..n];
    }
  }

  /** A job may start where the intensity is below the threshold or the nodes stay within the cap. */
  predicate MayStart(carbon: seq<Row>, scheduled: seq<Scheduled>, threshold: real, cap: real, nodes: real, at: real)
    requires RowAt(carbon, at).Some?
  {
    RowAt(carbon, at).value.level < threshold || ActiveNodes(scheduled, at) + nodes <= cap
  }

  function Later(a: real, b: real): real {
    Max(a + 1.0, b)
  }

  /** Where the search goes on from an instant at which the job may not start. */
  function NextTry(row: Row, at: real, deadline: real): real {
    Min(deadline, Later(at, row.right))
  }

  /** Whole seconds of search left. */
  function Remaining(at: real, deadline: real): nat {
    if at < deadline then (deadline - at).Floor + 1 else 0
  }

  lemma SearchProgresses(row: Row, at: real, deadline: real)
    requires at < deadline
    ensures at < NextTry(row, at, deadline) <= deadline
    ensures Remaining(NextTry(row, at, deadline), deadline) < Remaining(at, deadline)
  {
  }

  /** What is promised about the start the search returns. */
  predicate Admissible(
    carbon: seq<Row>, scheduled: seq<Scheduled>, threshold: real, cap: real, job: Job, maxDelay: real, at: real)
  {
    && job.release <= at <= Max(job.release, job.release + maxDelay)
    && (!job.flexible ==> at == job.release)
    && (job.flexible && at < job.release + maxDelay ==>
          RowAt(carbon, at).Some? && MayStart(carbon, scheduled, threshold, cap, job.nodes, at))
    && (at > job.release ==>
          RowAt(carbon, job.release).Some? && !MayStart(carbon, scheduled, threshold, cap, job.nodes, job.release))
  }

  /** A flexible job whose window holds an instant no row covers. */
  ghost predicate Stuck(carbon: seq<Row>, job: Job, maxDelay: real) {
    job.flexible && exists at :: job.release <= at < job.release + maxDelay && RowAt(carbon, at).None?
  }

  /** A low-carbon row of at least a second that ends after the job's release. */
  predicate LowRow(row: Row, threshold: real, job: Job) {
    row.level < threshold && row.left + 1.0 <= row.right && job.release < row.right
  }

  /** No such row is passed over: after its first second the job has started. */
  predicate Prompt(carbon: seq<Row>, threshold: real, job: Job, at: real) {
    forall i :: 0 <= i < |carbon| && LowRow(carbon[i], threshold, job) ==>
      at == job.release || at < carbon[i].left + 1.0
  }

  lemma StartsPrompt(carbon: seq<Row>, threshold: real, job: Job)
    ensures Prompt(carbon, threshold, job, job.release)
  {
  }

  /** A try in high-carbon time moves on at most to the start, or into the first second, of the next low row. */
  lemma NextPrompt(carbon: seq<Row>, threshold: real, job: Job, at: real, deadline: real)
    requires Ordered(carbon) && Prompt(carbon, threshold, job, at)
    requires RowAt(carbon, at).Some? && RowAt(carbon, at).value.level >= threshold
    ensures Prompt(carbon, threshold, job, NextTry(RowAt(carbon, at).value, at, deadline))
  {
    hide RowAt;
    var i := RowFound(carbon, at);
    forall j | 0 <= j < |carbon| && LowRow(carbon[j], threshold, job)
      ensures NextTry(carbon[i], at, deadline) < carbon[j].left + 1.0
    {
    }
  }

  /** From instant `at`, where the job may not start, the search goes on at the end of the row there or a second later,
      whichever is later, but not past the deadline. */
  ghost predicate GoesOn(carbon: seq<Row>, scheduled: seq<Scheduled>, threshold: real, cap: real, job: Job,
                         deadline: real, at: real, next: real)
  {
    && at < deadline && RowAt(carbon, at).Some?
    && var row := RowAt(carbon, at).value;
       && row.level >= threshold && ActiveNodes(scheduled, at) + job.nodes > cap
       && next == (if row.right >= at + 1.0 && row.right <= deadline then row.right
                   else if row.right < at + 1.0 <= deadline then at + 1.0
                   else deadline)
  }

  /** The instants looked at: from the release on, at none but the last could the job start. */
  ghost predicate Tried(carbon: seq<Row>, scheduled: seq<Scheduled>, threshold: real, cap: real, job: Job,
                        deadline: real, tries: seq<real>)
  {
    && tries != [] && tries[0] == job.release
    && forall i :: 0 < i < |tries| ==> GoesOn(carbon, scheduled, threshold, cap, job, deadline, tries[i - 1], tries[i])
  }

  lemma TriedOnce(carbon: seq<Row>, scheduled: seq<Scheduled>, threshold: real, cap: real, job: Job, deadline: real)
    ensures Tried(carbon, scheduled, threshold, cap, job, deadline, [job.release])
  {
  }

  lemma TriedAgain(carbon: seq<Row>, scheduled: seq<Scheduled>, threshold: real, cap: real, job: Job, deadline: real,
                   tries: seq<real>, at: real)
    requires Tried(carbon, scheduled, threshold, cap, job, deadline, tries) && tries[|tries| - 1] == at < deadline
    requires RowAt(carbon, at).Some? && !MayStart(carbon, scheduled, threshold, cap, job.nodes, at)
    ensures Tried(carbon, scheduled, threshold, cap, job, deadline,
                  tries + [NextTry(RowAt(carbon, at).value, at, deadline)])
  {
    hide GoesOn;
    NextGoesOn(carbon, scheduled, threshold, cap, job, deadline, at);
  }

  lemma NextGoesOn(
    carbon: seq<Row>, scheduled: seq<Scheduled>, threshold: real, cap: real, job: Job, deadline: real, at: real)
    requires at < deadline && RowAt(carbon, at).Some?
    requires !MayStart(carbon, scheduled, threshold, cap, job.nodes, at)
    ensures GoesOn(carbon, scheduled, threshold, cap, job, deadline, at,
                   NextTry(RowAt(carbon, at).value, at, deadline))
  {
    hide RowAt, ActiveNodes;
  }

  /** One job's search. It ends, and fails only where no row covers an instant it looks at. */
  method Search(carbon: seq<Row>, scheduled: seq<Scheduled>, threshold: real, cap: real, job: Job, maxDelay: real)
    returns (r: Option<real>)
    ensures r.Some? ==> Admissible(carbon, scheduled, threshold, cap, job, maxDelay, r.value)
    ensures r.Some? && Ordered(carbon) && job.flexible ==> Prompt(carbon, threshold, job, r.value)
    ensures r.Some? ==> exists tries :: Tried(carbon, scheduled, threshold, cap, job, job.release + maxDelay, tries)
                                        && r.value == tries[|tries| - 1]
    ensures r.None? ==> Stuck(carbon, job, maxDelay)
  {
    hide RowAt, ActiveNodes, Remaining, NextTry, Max, Ordered, Prompt, Tried;
    StartsPrompt(carbon, threshold, job);
    TriedOnce(carbon, scheduled, threshold, cap, job, job.release + maxDelay);
    ghost var tries := [job.release];
    MaxBounds(job.release, job.release + maxDelay);
    var at := job.release;
    var deadline := job.release + maxDelay;
    if job.flexible {
      while at < deadline
        invariant job.release <= at && (at <= deadline || at == job.release)
        invariant at > job.release ==>
                    && RowAt(carbon, job.release).Some?
                    && !MayStart(carbon, scheduled, threshold, cap, job.nodes, job.release)
        invariant Ordered(carbon) ==> Prompt(carbon, threshold, job, at)
        invariant tries != [] && tries[|tries| - 1] == at
        invariant Tried(carbon, scheduled, threshold, cap, job, deadline, tries)
        decreases Remaining(at, deadline)
      {
        var row := RowAt(carbon, at);
        if row.None? {
          return None;
        }
        if row.value.level < threshold || ActiveNodes(scheduled, at) + job.nodes <= cap {
          break;
        }
        SearchProgresses(row.value, at, deadline);
        if Ordered(carbon) {
          NextPrompt(carbon, threshold, job, at, deadline);
        }
        TriedAgain(carbon, scheduled, threshold, cap, job, deadline, tries, at);
        at := NextTry(row.value, at, deadline);
        tries := tries + [at];
      }
    }
    r := Some(at);
  }

  lemma MaxBounds(a: real, b: real)
    ensures a <= Max(a, b) && b <= Max(a, b) && (Max(a, b) == a || Max(a, b) == b)
  {
  }

  function Placed(job: Job, at: real): Scheduled {
    Scheduled(at, at + job.runtime, job.nodes)
  }

  /** The starts already chosen, as the schedule the next job is checked against. */
  function Schedule(jobs: seq<Job>, starts: seq<real>, n: nat): seq<Scheduled>
    requires n <= |jobs| && n <= |starts|
  {
    if n == 0 then [] else Schedule(jobs, starts, n - 1) + [Placed(jobs[n - 1], starts[n - 1])]
  }

  lemma {:induction false} ScheduleOfPrefix(jobs: seq<Job>, starts: seq<real>, more: seq<real>, n: nat)
    requires n <= |jobs| && n <= |starts|
    ensures Schedule(jobs, starts, n) == Schedule(jobs, starts + more, n)
  {
    if n > 0 {
      ScheduleOfPrefix(jobs, starts, more, n - 1);
    }
  }

  /** The nodes of the jobs among the first n that run at the instant. */
  ghost function RunningNodes(jobs: seq<Job>, starts: seq<real>, n: nat, at: real): real
    requires n <= |jobs| && n <= |starts|
  {
    if n == 0 then 0.0
    else
      var runs := starts[n - 1] <= at < starts[n - 1] + jobs[n - 1].runtime;
      RunningNodes(jobs, starts, n - 1, at) + if runs then jobs[n - 1].nodes else 0.0
  }

  lemma {:induction false} ActiveAreRunning(jobs: seq<Job>, starts: seq<real>, n: nat, at: real)
    requires n <= |jobs| && n <= |starts|
    ensures ActiveNodes(Schedule(jobs, starts, n), at) == RunningNodes(jobs, starts, n, at)
  {
    if n > 0 {
      var before := Schedule(jobs, starts, n - 1);
      ActiveAreRunning(jobs, starts, n - 1, at);
      OnlyRunningCount(before, Placed(jobs[n - 1], starts[n - 1]), [], at);
      assert before + [Placed(jobs[n - 1], starts[n - 1])] + [] == Schedule(jobs, starts, n) && before + [] == before;
    }
  }

  /** The promise about start number k, in terms of the jobs planned before it that run at an instant: it lies in its
      window; before the deadline it is in low-carbon time or within the cap; and it moved only if it had to. */
  ghost predicate CapKept(carbon: seq<Row>, jobs: seq<Job>, threshold: real, cap: real, maxDelay: real,
                          starts: seq<real>, k: nat)
    requires k < |jobs| && k < |starts|
  {
    var job, at := jobs[k], starts[k];
    && job.release <= at && (at <= job.release + maxDelay || at == job.release)
    && (!job.flexible ==> at == job.release)
    && (job.flexible && at < job.release + maxDelay ==>
          && RowAt(carbon, at).Some?
          && (RowAt(carbon, at).value.level < threshold || RunningNodes(jobs, starts, k, at) + job.nodes <= cap))
    && (at > job.release ==>
          && RowAt(carbon, job.release).Some? && RowAt(carbon, job.release).value.level >= threshold
          && RunningNodes(jobs, starts, k, job.release) + job.nodes > cap)
  }

  lemma CapIsKept(
    carbon: seq<Row>, jobs: seq<Job>, threshold: real, cap: real, maxDelay: real, starts: seq<real>, k: nat)
    requires |starts| <= |jobs| && k < |starts| && AllAdmissible(carbon, jobs, threshold, cap, maxDelay, starts)
    ensures CapKept(carbon, jobs, threshold, cap, maxDelay, starts, k)
  {
    hide RowAt, ActiveNodes, RunningNodes, Schedule;
    ActiveAreRunning(jobs, starts, k, starts[k]);
    ActiveAreRunning(jobs, starts, k, jobs[k].release);
  }

  /** Every start chosen so far is admissible against the jobs planned before it. */
  ghost predicate AllAdmissible(
    carbon: seq<Row>, jobs: seq<Job>, threshold: real, cap: real, maxDelay: real, starts: seq<real>)
    requires |starts| <= |jobs|
  {
    forall i :: 0 <= i < |starts| ==>
      Admissible(carbon, Schedule(jobs, starts, i), threshold, cap, jobs[i], maxDelay, starts[i])
  }

  ghost predicate AllPrompt(carbon: seq<Row>, jobs: seq<Job>, threshold: real, starts: seq<real>)
    requires |starts| <= |jobs|
  {
    forall i :: 0 <= i < |starts| && jobs[i].flexible ==> Prompt(carbon, threshold, jobs[i], starts[i])
  }

  lemma NothingPlanned(carbon: seq<Row>, jobs: seq<Job>, threshold: real, cap: real, maxDelay: real)
    ensures Schedule(jobs, [], 0) == [] && AllAdmissible(carbon, jobs, threshold, cap, maxDelay, [])
  {
  }

  lemma PlannedKept(
    carbon: seq<Row>, jobs: seq<Job>, threshold: real, cap: real, maxDelay: real, starts: seq<real>, at: real)
    requires |starts| < |jobs| && AllAdmissible(carbon, jobs, threshold, cap, maxDelay, starts)
    requires Admissible(carbon, Schedule(jobs, starts, |starts|), threshold, cap, jobs[|starts|], maxDelay, at)
    ensures AllAdmissible(carbon, jobs, threshold, cap, maxDelay, starts + [at])
    ensures Schedule(jobs, starts + [at], |starts| + 1)
            == Schedule(jobs, starts, |starts|) + [Placed(jobs[|starts|], at)]
  {
    hide Admissible, Schedule;
    var n := |starts|;
    LastPlanned(jobs, starts, at);
    forall i | 0 <= i < n + 1
      ensures Admissible(carbon, Schedule(jobs, starts + [at], i), threshold, cap, jobs[i], maxDelay,
                         (starts + [at])[i])
    {
      ScheduleOfPrefix(jobs, starts, [at], i);
      if i == n {
        assert (starts + [at])[i] == at;
      } else {
        assert (starts + [at])[i] == starts[i];
      }
    }
  }

  lemma LastPlanned(jobs: seq<Job>, starts: seq<real>, at: real)
    requires |starts| < |jobs|
    ensures Schedule(jobs, starts + [at], |starts| + 1)
            == Schedule(jobs, starts, |starts|) + [Placed(jobs[|starts|], at)]
  {
    ScheduleOfPrefix(jobs, starts, [at], |starts|);
  }

  /** The whole planner: every job's start is admissible against all jobs planned before it and passes over no
      low-carbon row; a table that covers every flexible job's window always gives a plan. */
  method Plan(carbon: seq<Row>, jobs: seq<Job>, threshold: real, cap: real, maxDelay: real)
    returns (r: Option<seq<real>>)
    ensures r.Some? ==> |r.value| == |jobs| && AllAdmissible(carbon, jobs, threshold, cap, maxDelay, r.value)
    ensures r.Some? ==> forall k :: 0 <= k < |jobs| ==> CapKept(carbon, jobs, threshold, cap, maxDelay, r.value, k)
    ensures r.Some? && Ordered(carbon) ==> AllPrompt(carbon, jobs, threshold, r.value)
    ensures r.None? ==> exists k :: 0 <= k < |jobs| && Stuck(carbon, jobs[k], maxDelay)
  {
    hide Admissible, Schedule, AllAdmissible, Prompt, Stuck, Ordered, CapKept, Tried;
    NothingPlanned(carbon, jobs, threshold, cap, maxDelay);
    var scheduled: seq<Scheduled> := [];
    var starts: seq<real> := [];
    for k := 0 to |jobs|
      invariant |starts| == k && scheduled == Schedule(jobs, starts, k)
      invariant AllAdmissible(carbon, jobs, threshold, cap, maxDelay, starts)
      invariant Ordered(carbon) ==> AllPrompt(carbon, jobs, threshold, starts)
    {
      var found := Search(carbon, scheduled, threshold, cap, jobs[k], maxDelay);
      if found.None? {
        return None;
      }
      PlannedKept(carbon, jobs, threshold, cap, maxDelay, starts, found.value);
      starts := starts + [found.value];
      scheduled := scheduled + [Placed(jobs[k], found.value)];
    }
    forall k | 0 <= k < |jobs|
      ensures CapKept(carbon, jobs, threshold, cap, maxDelay, starts, k)
    {
      CapIsKept(carbon, jobs, threshold, cap, maxDelay, starts, k);
    }
    r := Some(starts);
  }
}
