/** The greedy planners that delay jobs under per-user budgets: `generate_low_impact_dynamic_scenario.py` and
    `generate_safe_rolling_scenario.py`. */
module DelayBudgets {
  import opened Basics
  import opened Intensity

  type User = string

  /** What the loop knows of a job: its limits, and whether any reason rules a delay out before the budgets do. */
  datatype Job = Job(user: User, eligible: real, release: int, runtimeLimit: real, declaredLimit: real, barred: bool)

  datatype Limits = Limits(maxDelay: real, userBudget: real, userJobs: int)

  /** How a candidate delay fares against the forecast; the forecast depends on the delays chosen so far. */
  datatype Assessment = Assessment(feasible: bool, utility: real)

  // ---------- totals per user ----------

  function UserDelay(jobs: seq<Job>, delays: seq<real>, n: nat, u: User): real
    requires n <= |jobs| && n <= |delays|
  {
    if n == 0 then 0.0
    else UserDelay(jobs, delays, n - 1, u) + if jobs[n - 1].user == u then delays[n - 1] else 0.0
  }

  function UserDelayed(jobs: seq<Job>, delays: seq<real>, n: nat, u: User): nat
    requires n <= |jobs| && n <= |delays|
  {
    if n == 0 then 0
    else UserDelayed(jobs, delays, n - 1, u) + if jobs[n - 1].user == u && delays[n - 1] > 0.0 then 1 else 0
  }

  lemma {:induction false} TotalsOfPrefix(jobs: seq<Job>, delays: seq<real>, more: seq<real>, n: nat, u: User)
    requires n <= |jobs| && n <= |delays|
    ensures UserDelay(jobs, delays, n, u) == UserDelay(jobs, delays + more, n, u)
    ensures UserDelayed(jobs, delays, n, u) == UserDelayed(jobs, delays + more, n, u)
  {
    if n > 0 {
      TotalsOfPrefix(jobs, delays, more, n - 1, u);
    }
  }

  function Spent(m: map<User, real>, u: User): real {
    if u in m then m[u] else 0.0
  }

  function Count(m: map<User, nat>, u: User): nat {
    if u in m then m[u] else 0
  }

  /** `allowed_wait_budget_s`. */
  function Allowed(limits: Limits, job: Job, spent: real): real {
    Min(Min(limits.maxDelay, job.runtimeLimit), Min(job.declaredLimit, Max(limits.userBudget - spent, 0.0)))
  }

  /** A delay is within the budget exactly when every limit allows it; what the user has used up allows none. */
  lemma AllowedExactly(limits: Limits, job: Job, spent: real, d: real)
    ensures d <= Allowed(limits, job, spent) <==>
              && d <= limits.maxDelay && d <= job.runtimeLimit && d <= job.declaredLimit
              && (d <= 0.0 || spent + d <= limits.userBudget)
  {
  }

  // ---------- rounding ----------

  /** Rounding as Python does: the nearest integer, halves to the even one. */
  function Rounded(x: real): int {
    var low := x.Floor;
    var rest := x - low as real;
    if rest < 0.5 then low else if rest > 0.5 then low + 1 else if low % 2 == 0 then low else low + 1
  }

  lemma RoundedIsNear(x: real, n: int)
    ensures -0.5 <= Rounded(x) as real - x <= 0.5
    ensures x == n as real ==> Rounded(x) == n
  {
  }

  /** A half goes to the even neighbour. */
  lemma HalfToEven(n: int)
    ensures Rounded(n as real + 0.5) == if n % 2 == 0 then n else n + 1
  {
    assert (n as real + 0.5).Floor == n;
  }

  // ---------- candidate delays ----------

  /** The run ends within the carbon table. */
  predicate Fits(carbon: seq<Row>, release: real, runtime: real) {
    carbon != [] && release + runtime <= carbon[|carbon| - 1].right
  }

  function Step(k: int, step: real): real {
    k as real * step
  }

  /** A carbon boundary after eligibility, at most `budget` later, from which the run fits. */
  predicate Boundary(row: Row, carbon: seq<Row>, eligible: real, budget: real, runtime: real) {
    eligible < row.left <= eligible + budget && Fits(carbon, row.left, runtime)
  }

  predicate GridDelay(k: int, carbon: seq<Row>, eligible: real, budget: real, runtime: real, step: real) {
    k >= 1 && Step(k, step) < budget && Fits(carbon, eligible + Step(k, step), runtime)
  }

  /** Low impact: no delay, carbon boundaries, a fine grid and the exact deadline, as delays after eligibility. */
  ghost predicate LowImpactOffer(d: real, carbon: seq<Row>, eligible: real, budget: real, runtime: real, step: real) {
    || d == 0.0
    || IsBoundary(d, carbon, carbon, eligible, budget, runtime)
    || (exists k :: GridDelay(k, carbon, eligible, budget, runtime, step) && d == Step(k, step))
    || (d == budget && Fits(carbon, eligible + budget, runtime))
  }

  ghost predicate IsBoundary(d: real, carbon: seq<Row>, all: seq<Row>, eligible: real, budget: real, runtime: real) {
    exists row :: row in carbon && Boundary(row, all, eligible, budget, runtime) && d == row.left - eligible
  }

  /** The run, delayed by d, ends within the carbon table. */
  ghost predicate EndsInside(d: real, carbon: seq<Row>, eligible: real, runtime: real) {
    carbon != [] && eligible + d + runtime <= carbon[|carbon| - 1].right
  }

  ghost predicate AreSteps(d: real, k: int, step: real) {
    d == k as real * step
  }

  /** What is offered: no delay; and, if the run then ends within the table, the delay to a boundary of the table or a
      whole number of steps, both within the budget, and the budget itself. */
  lemma LowImpactExactly(d: real, carbon: seq<Row>, eligible: real, budget: real, runtime: real, step: real)
    ensures LowImpactOffer(d, carbon, eligible, budget, runtime, step) <==>
              || d == 0.0
              || (EndsInside(d, carbon, eligible, runtime)
                  && (|| (0.0 < d <= budget && exists row :: row in carbon && row.left == eligible + d)
                      || (d < budget && exists k :: k >= 1 && AreSteps(d, k, step))
                      || d == budget))
  {
    if row :| row in carbon && row.left == eligible + d && 0.0 < d <= budget
              && EndsInside(d, carbon, eligible, runtime) {
      assert Boundary(row, carbon, eligible, budget, runtime);
    }
    forall k | k >= 1 && d < budget && EndsInside(d, carbon, eligible, runtime)
      ensures AreSteps(d, k, step) <==> GridDelay(k, carbon, eligible, budget, runtime, step) && d == Step(k, step)
    {
    }
    forall k | GridDelay(k, carbon, eligible, budget, runtime, step) && d == Step(k, step)
      ensures k >= 1 && AreSteps(d, k, step) && d < budget && EndsInside(d, carbon, eligible, runtime)
    {
    }
  }

  /** `candidate_release_times`, as delays. */
  method BoundaryDelays(carbon: seq<Row>, eligible: real, budget: real, runtime: real) returns (delays: set<real>)
    ensures forall d :: d in delays <==> d == 0.0 || IsBoundary(d, carbon, carbon, eligible, budget, runtime)
  {
    hide Boundary, IsBoundary;
    delays := {0.0};
    NoBoundary(carbon, eligible, budget, runtime);
    for i := 0 to |carbon|
      invariant forall d :: d in delays <==> d == 0.0 || IsBoundary(d, carbon[..i], carbon, eligible, budget, runtime)
    {
      OneMoreRow(carbon, i, eligible, budget, runtime);
      if Boundary(carbon[i], carbon, eligible, budget, runtime) {
        delays := delays + {carbon[i].left - eligible};
      }
    }
    assert carbon[..|carbon|] == carbon;
  }

  lemma NoBoundary(carbon: seq<Row>, eligible: real, budget: real, runtime: real)
    ensures forall d :: !IsBoundary(d, carbon[..0], carbon, eligible, budget, runtime)
  {
  }

  lemma OneMoreRow(carbon: seq<Row>, i: nat, eligible: real, budget: real, runtime: real)
    requires i < |carbon|
    ensures forall d :: IsBoundary(d, carbon[..i + 1], carbon, eligible, budget, runtime) <==>
              IsBoundary(d, carbon[..i], carbon, eligible, budget, runtime)
              || (Boundary(carbon[i], carbon, eligible, budget, runtime) && d == carbon[i].left - eligible)
  {
    hide Boundary;
    assert carbon[..i + 1] == carbon[..i] + [carbon[i]];
    forall d
      ensures IsBoundary(d, carbon[..i + 1], carbon, eligible, budget, runtime) <==>
                IsBoundary(d, carbon[..i], carbon, eligible, budget, runtime)
                || (Boundary(carbon[i], carbon, eligible, budget, runtime) && d == carbon[i].left - eligible)
    {
      if IsBoundary(d, carbon[..i], carbon, eligible, budget, runtime) {
        var row :| row in carbon[..i] && Boundary(row, carbon, eligible, budget, runtime) && d == row.left - eligible;
        assert row in carbon[..i + 1];
      }
      assert carbon[i] in carbon[..i + 1];
    }
  }

  /** The fine grid: every whole step before the deadline from which the run fits. */
  method GridDelays(
    carbon: seq<Row>, eligible: real, budget: real, runtime: real, step: real) returns (delays: set<real>)
    requires step > 0.0
    ensures forall d :: d in delays <==>
              exists k :: GridDelay(k, carbon, eligible, budget, runtime, step) && d == Step(k, step)
    ensures forall d :: d in delays ==> 0.0 <= d <= budget
  {
    hide Fits, Step;
    delays := {};
    var k := 1;
    while Step(k, step) < budget
      invariant k >= 1
      invariant forall d :: d in delays <==>
                  exists j :: j < k && GridDelay(j, carbon, eligible, budget, runtime, step) && d == Step(j, step)
      invariant forall d :: d in delays ==> 0.0 <= d <= budget
      decreases GridLeft(budget, step, k)
    {
      GridShrinks(budget, step, k);
      if Fits(carbon, eligible + Step(k, step), runtime) {
        assert GridDelay(k, carbon, eligible, budget, runtime, step);
        delays := delays + {Step(k, step)};
      }
      k := k + 1;
    }
    GridDone(step, k, budget);
  }

  method BoundedDelays(
    carbon: seq<Row>, eligible: real, budget: real, runtime: real, step: real) returns (delays: set<real>)
    requires step > 0.0 && budget > 0.0
    ensures forall d :: d in delays ==> 0.0 <= d <= budget
    ensures forall d :: d in delays <==> LowImpactOffer(d, carbon, eligible, budget, runtime, step)
  {
    hide Fits, Step, GridDelay;
    var boundaries := BoundaryDelays(carbon, eligible, budget, runtime);
    var grid := GridDelays(carbon, eligible, budget, runtime, step);
    delays := boundaries + grid;
    if Fits(carbon, eligible + budget, runtime) {
      delays := delays + {budget};
    }
  }

  function GridLeft(budget: real, step: real, k: int): nat
    requires step > 0.0
  {
    var left := budget / step - k as real;
    if left > 0.0 then left.Floor + 1 else 0
  }

  lemma GridShrinks(budget: real, step: real, k: int)
    requires step > 0.0 && k >= 1 && Step(k, step) < budget
    ensures 0.0 < Step(k, step) && GridLeft(budget, step, k + 1) < GridLeft(budget, step, k)
  {
    var q := budget / step;
    assert q * step == budget;
    assert (q - k as real) * step > 0.0;
    assert q > k as real;
  }

  lemma GridDone(step: real, k: int, budget: real)
    requires step > 0.0 && Step(k, step) >= budget
    ensures forall j :: j >= k ==> Step(j, step) >= budget
  {
    forall j | j >= k
      ensures Step(j, step) >= budget
    {
      assert (j - k) as real * step >= 0.0;
      assert Step(j, step) == Step(k, step) + (j - k) as real * step;
    }
  }

  function WholeSteps(m: nat, step: int): int {
    m * step
  }

  ghost predicate SafeOffer(d: real, budget: real, step: int) {
    exists m: nat :: m > 0 && d == WholeSteps(m, step) as real && d <= budget
  }

  /** Safe rolling: every whole step within the budget. */
  method SteppedDelays(budget: real, step: int) returns (delays: seq<int>)
    requires step > 0 && budget >= 0.0
    ensures forall i :: 0 <= i < |delays| ==>
              delays[i] == (i + 1) * step && 0 < delays[i] && delays[i] as real <= budget
    ensures ((|delays| + 1) * step) as real > budget
  {
    delays := [];
    var d := step;
    while d < budget.Floor + 1
      invariant d == (|delays| + 1) * step && d > 0
      invariant forall i :: 0 <= i < |delays| ==>
                delays[i] == (i + 1) * step && 0 < delays[i] && delays[i] as real <= budget
      decreases budget.Floor + 1 - d
    {
      delays := delays + [d];
      d := d + step;
      NextStep(|delays|, step);
    }
  }

  lemma NextStep(n: int, step: int)
    ensures (n + 1) * step == n * step + step
  {
  }

  // ---------- the greedy loop ----------

  /** The decision about one job: the delays offered, in order, each judged against everything chosen before. */
  ghost predicate Decided(offers: set<real>, assess: real -> Assessment, delay: real) {
    || (delay == 0.0 && forall d :: d in offers && d > 0.0 ==> !assess(d).feasible)
    || (delay in offers && delay > 0.0 && assess(delay).feasible
        && forall d :: d in offers && d > 0.0 && assess(d).feasible ==>
             || assess(d).utility < assess(delay).utility
             || (assess(d).utility == assess(delay).utility && delay <= d))
  }

  /** A higher utility, or the same and earlier. */
  predicate Better(assess: real -> Assessment, d: real, e: real) {
    assess(d).utility > assess(e).utility || (assess(d).utility == assess(e).utility && d < e)
  }

  /** The offered delay of the best utility, the earlier of equals; no delay when nothing is feasible. */
  method Decide(offers: set<real>, assess: real -> Assessment) returns (delay: real)
    ensures Decided(offers, assess, delay)
  {
    delay := 0.0;
    var rest := offers;
    while rest != {}
      invariant rest <= offers && Decided(offers - rest, assess, delay)
      decreases |rest|
    {
      ghost var member := Member(rest);
      var d :| d in rest;
      ghost var before := offers - rest;
      rest := rest - {d};
      assert offers - rest == before + {d};
      if d > 0.0 && assess(d).feasible && (delay == 0.0 || Better(assess, d, delay)) {
        delay := d;
      }
    }
    assert offers - rest == offers;
  }

  /** What the planner writes for a job: the rounded release of a delayed job, the old release otherwise. */
  function Written(job: Job, delay: real): int {
    if delay > 0.0 then Rounded(job.eligible + delay) else job.release
  }

  /** Within the budgets after n jobs. */
  ghost predicate WithinBudgets(limits: Limits, jobs: seq<Job>, delays: seq<real>, n: nat)
    requires n <= |jobs| && n <= |delays|
  {
    && (forall u :: UserDelay(jobs, delays, n, u) <= Max(limits.userBudget, 0.0))
    && (forall u :: UserDelayed(jobs, delays, n, u) <= if limits.userJobs > 0 then limits.userJobs else 0)
  }

  ghost predicate WithinLimits(limits: Limits, job: Job, delay: real) {
    && delay >= 0.0
    && (job.barred ==> delay == 0.0)
    && (delay > 0.0 ==> delay <= limits.maxDelay && delay <= job.runtimeLimit && delay <= job.declaredLimit)
  }

  lemma OneMoreTotal(jobs: seq<Job>, delays: seq<real>, delay: real, k: nat, u: User)
    requires k == |delays| < |jobs|
    ensures UserDelay(jobs, delays + [delay], k + 1, u)
            == UserDelay(jobs, delays, k, u) + (if jobs[k].user == u then delay else 0.0)
    ensures UserDelayed(jobs, delays + [delay], k + 1, u)
            == UserDelayed(jobs, delays, k, u) + (if jobs[k].user == u && delay > 0.0 then 1 else 0)
  {
    TotalsOfPrefix(jobs, delays, [delay], k, u);
  }

  /** The books the loop keeps per user. */
  ghost predicate BooksKept(
    jobs: seq<Job>, delays: seq<real>, k: nat, userDelay: map<User, real>, userJobs: map<User, nat>)
    requires k <= |jobs| && k <= |delays|
  {
    && (forall u :: Spent(userDelay, u) == UserDelay(jobs, delays, k, u))
    && (forall u :: Count(userJobs, u) == UserDelayed(jobs, delays, k, u))
  }

  /** One more job: what it may add to its user's total. */
  lemma OneMoreJob(limits: Limits, jobs: seq<Job>, delays: seq<real>, delay: real, k: nat,
                   userDelay: map<User, real>, userJobs: map<User, nat>)
    requires k == |delays| < |jobs| && WithinBudgets(limits, jobs, delays, k) && delay >= 0.0
    requires BooksKept(jobs, delays, k, userDelay, userJobs)
    requires delay > 0.0 ==> delay <= limits.userBudget - Spent(userDelay, jobs[k].user)
                             && Count(userJobs, jobs[k].user) < limits.userJobs
    ensures WithinBudgets(limits, jobs, delays + [delay], k + 1)
    ensures BooksKept(jobs, delays + [delay], k + 1,
                      if delay > 0.0 then userDelay[jobs[k].user := Spent(userDelay, jobs[k].user) + delay]
                      else userDelay,
                      if delay > 0.0 then userJobs[jobs[k].user := Count(userJobs, jobs[k].user) + 1] else userJobs)
  {
    hide UserDelay, UserDelayed;
    var next, n := delays + [delay], k + 1;
    var nextDelay :=
      if delay > 0.0 then userDelay[jobs[k].user := Spent(userDelay, jobs[k].user) + delay] else userDelay;
    var nextJobs := if delay > 0.0 then userJobs[jobs[k].user := Count(userJobs, jobs[k].user) + 1] else userJobs;
    forall u
      ensures UserDelay(jobs, next, n, u) <= Max(limits.userBudget, 0.0)
      ensures UserDelayed(jobs, next, n, u) <= if limits.userJobs > 0 then limits.userJobs else 0
      ensures Spent(nextDelay, u) == UserDelay(jobs, next, n, u)
      ensures Count(nextJobs, u) == UserDelayed(jobs, next, n, u)
    {
      OneMoreTotal(jobs, delays, delay, k, u);
      assert Spent(userDelay, u) == UserDelay(jobs, delays, k, u);
      assert Count(userJobs, u) == UserDelayed(jobs, delays, k, u);
      assert UserDelay(jobs, delays, k, u) <= Max(limits.userBudget, 0.0);
      assert UserDelayed(jobs, delays, k, u) <= if limits.userJobs > 0 then limits.userJobs else 0;
    }
    assert WithinBudgets(limits, jobs, next, n) && BooksKept(jobs, next, n, nextDelay, nextJobs);
  }

  /** The low-impact decision about job i, given everything chosen before it: no delay where the budgets or a bar rule
      it out, otherwise the best feasible offer. */
  ghost predicate LowImpactChoice(
    carbon: seq<Row>, jobs: seq<Job>, runtimes: seq<real>, limits: Limits, step: real,
    assess: (nat, seq<real>) -> (real -> Assessment), delays: seq<real>, i: nat, delay: real)
    requires i < |jobs| == |runtimes| && i <= |delays|
  {
    var job := jobs[i];
    var budget := Allowed(limits, job, UserDelay(jobs, delays, i, job.user));
    if job.barred || UserDelayed(jobs, delays, i, job.user) >= limits.userJobs || budget <= 0.0 then delay == 0.0
    else exists offers: set<real> ::
           && (forall d :: d in offers <==> LowImpactOffer(d, carbon, job.eligible, budget, runtimes[i], step))
           && Decided(offers, assess(i, delays[..i]), delay)
  }

  /** The safe-rolling decision about job i. */
  ghost predicate SafeRollingChoice(
    jobs: seq<Job>, limits: Limits, step: int, assess: (nat, seq<real>) -> (real -> Assessment),
    delays: seq<real>, i: nat, delay: real)
    requires i < |jobs| && i <= |delays|
  {
    var job := jobs[i];
    var budget := Allowed(limits, job, UserDelay(jobs, delays, i, job.user));
    if job.barred || UserDelayed(jobs, delays, i, job.user) >= limits.userJobs || budget < step as real
    then delay == 0.0
    else exists offers: set<real> ::
           && (forall d :: d in offers <==> SafeOffer(d, budget, step))
           && Decided(offers, assess(i, delays[..i]), delay)
  }

  /** A decision depends on the earlier delays only. */
  lemma ChoicesStand(
    carbon: seq<Row>, jobs: seq<Job>, runtimes: seq<real>, limits: Limits, step: real, whole: int,
    assess: (nat, seq<real>) -> (real -> Assessment), delays: seq<real>, more: seq<real>, i: nat, delay: real)
    requires i < |jobs| == |runtimes| && i <= |delays|
    ensures LowImpactChoice(carbon, jobs, runtimes, limits, step, assess, delays, i, delay)
            == LowImpactChoice(carbon, jobs, runtimes, limits, step, assess, delays + more, i, delay)
    ensures SafeRollingChoice(jobs, limits, whole, assess, delays, i, delay)
            == SafeRollingChoice(jobs, limits, whole, assess, delays + more, i, delay)
  {
    hide LowImpactOffer, SafeOffer, Decided, Allowed;
    TotalsOfPrefix(jobs, delays, more, i, jobs[i].user);
    assert (delays + more)[..i] == delays[..i];
  }

  /** What any decision respects. */
  ghost predicate Respects(limits: Limits, job: Job, spent: real, count: nat, delay: real) {
    && WithinLimits(limits, job, delay)
    && (delay > 0.0 ==> delay <= limits.userBudget - spent && count < limits.userJobs)
  }

  lemma BudgetRespected(limits: Limits, job: Job, spent: real, count: nat, delay: real)
    requires 0.0 <= delay
    requires delay > 0.0 ==> !job.barred && count < limits.userJobs && delay <= Allowed(limits, job, spent)
    ensures Respects(limits, job, spent, count, delay)
  {
  }

  method ChooseLowImpact(
    carbon: seq<Row>, jobs: seq<Job>, runtimes: seq<real>, limits: Limits, step: real,
    assess: (nat, seq<real>) -> (real -> Assessment), delays: seq<real>, spent: real, count: nat)
    returns (delay: real)
    requires step > 0.0 && |delays| < |jobs| == |runtimes|
    requires var u := jobs[|delays|].user;
             spent == UserDelay(jobs, delays, |delays|, u) && count == UserDelayed(jobs, delays, |delays|, u)
    ensures LowImpactChoice(carbon, jobs, runtimes, limits, step, assess, delays, |delays|, delay)
    ensures Respects(limits, jobs[|delays|], spent, count, delay)
  {
    hide LowImpactOffer, Decided, Allowed, UserDelay, UserDelayed, Respects;
    var k := |delays|;
    var job := jobs[k];
    var budget := Allowed(limits, job, spent);
    delay := 0.0;
    if !job.barred && count < limits.userJobs && budget > 0.0 {
      var offers := BoundedDelays(carbon, job.eligible, budget, runtimes[k], step);
      assert delays[..k] == delays;
      delay := Decide(offers, assess(k, delays));
      DecidedWithin(offers, assess(k, delays), delay, budget);
    }
    BudgetRespected(limits, job, spent, count, delay);
  }

  method ChooseSafeRolling(
    jobs: seq<Job>, limits: Limits, step: int, assess: (nat, seq<real>) -> (real -> Assessment),
    delays: seq<real>, spent: real, count: nat)
    returns (delay: real)
    requires step > 0 && |delays| < |jobs|
    requires var u := jobs[|delays|].user;
             spent == UserDelay(jobs, delays, |delays|, u) && count == UserDelayed(jobs, delays, |delays|, u)
    ensures SafeRollingChoice(jobs, limits, step, assess, delays, |delays|, delay)
    ensures Respects(limits, jobs[|delays|], spent, count, delay) && OnSteps(delay, step)
  {
    hide SafeOffer, Decided, Allowed, UserDelay, UserDelayed, Respects, OnSteps;
    var k := |delays|;
    var job := jobs[k];
    var budget := Allowed(limits, job, spent);
    delay := 0.0;
    NoDelayOnSteps(step);
    if !job.barred && count < limits.userJobs && budget >= step as real {
      var steps := SteppedDelays(budget, step);
      var offers := set i | 0 <= i < |steps| :: steps[i] as real;
      SteppedAreOffers(steps, offers, budget, step);
      assert delays[..k] == delays;
      delay := Decide(offers, assess(k, delays));
      DecidedWithin(offers, assess(k, delays), delay, budget);
      DecidedOnSteps(offers, assess(k, delays), delay, budget, step);
    }
    BudgetRespected(limits, job, spent, count, delay);
  }

  lemma NoDelayOnSteps(step: int)
    ensures OnSteps(0.0, step)
  {
  }

  lemma SteppedAreOffers(steps: seq<int>, offers: set<real>, budget: real, step: int)
    requires step > 0 && offers == (set i | 0 <= i < |steps| :: steps[i] as real)
    requires forall i :: 0 <= i < |steps| ==> steps[i] == (i + 1) * step && steps[i] as real <= budget
    requires ((|steps| + 1) * step) as real > budget
    ensures forall d :: d in offers <==> SafeOffer(d, budget, step)
  {
    forall d | d in offers
      ensures SafeOffer(d, budget, step)
    {
      var i :| 0 <= i < |steps| && d == steps[i] as real;
      assert d == WholeSteps(i + 1, step) as real;
    }
    forall d | SafeOffer(d, budget, step)
      ensures d in offers
    {
      var m: nat :| m > 0 && d == WholeSteps(m, step) as real && d <= budget;
      if m > |steps| {
        MoreSteps(|steps| + 1, m, step);
      }
      assert steps[m - 1] as real == d;
    }
  }

  lemma MoreSteps(a: int, b: int, step: int)
    requires a <= b && step > 0
    ensures a * step <= b * step
  {
    assert (b - a) * step >= 0;
  }

  predicate Integral(x: real) {
    x == x.Floor as real
  }

  ghost predicate OnSteps(delay: real, step: int) {
    delay > 0.0 ==> exists m: nat :: delay == WholeSteps(m, step) as real && m > 0
  }

  lemma DecidedOnSteps(offers: set<real>, assess: real -> Assessment, delay: real, budget: real, step: int)
    requires (forall d :: d in offers <==> SafeOffer(d, budget, step)) && Decided(offers, assess, delay)
    ensures OnSteps(delay, step)
  {
    hide WholeSteps;
  }

  lemma ExactOnSteps(eligible: real, delay: real, step: int)
    requires Integral(eligible) && OnSteps(delay, step) && delay > 0.0
    ensures Rounded(eligible + delay) as real == eligible + delay
  {
    hide Rounded;
    var m: nat :| delay == WholeSteps(m, step) as real && m > 0;
    RoundedIsNear(eligible + delay, eligible.Floor + WholeSteps(m, step));
  }

  lemma DecidedWithin(offers: set<real>, assess: real -> Assessment, delay: real, budget: real)
    requires Decided(offers, assess, delay) && budget >= 0.0 && forall d :: d in offers ==> d <= budget
    ensures 0.0 <= delay <= budget
  {
  }

  lemma NothingChosen(jobs: seq<Job>, limits: Limits)
    ensures WithinBudgets(limits, jobs, [], 0)
    ensures BooksKept(jobs, [], 0, map[], map[])
  {
  }

  lemma BooksAt(
    jobs: seq<Job>, delays: seq<real>, k: nat, userDelay: map<User, real>, userJobs: map<User, nat>, u: User)
    requires k <= |jobs| && k <= |delays| && BooksKept(jobs, delays, k, userDelay, userJobs)
    ensures Spent(userDelay, u) == UserDelay(jobs, delays, k, u)
    ensures Count(userJobs, u) == UserDelayed(jobs, delays, k, u)
  {
  }

  lemma RespectsBudget(limits: Limits, job: Job, spent: real, count: nat, delay: real)
    requires Respects(limits, job, spent, count, delay)
    ensures WithinLimits(limits, job, delay) && delay >= 0.0
    ensures delay > 0.0 ==> delay <= limits.userBudget - spent && count < limits.userJobs
  {
  }

  /** The low-impact planner over the whole job list. The forecast enters through `assess`: how a delay of job i fares
      after the given earlier delays. Every decision is the greedy one, nobody exceeds a budget or a limit, barred jobs
      stay where they are, and what is written is at most half a second off. */
  method PlanLowImpact(carbon: seq<Row>, jobs: seq<Job>, runtimes: seq<real>, limits: Limits, step: real,
                       assess: (nat, seq<real>) -> (real -> Assessment))
    returns (delays: seq<real>, written: seq<int>)
    requires step > 0.0 && |runtimes| == |jobs|
    ensures |delays| == |written| == |jobs| && WithinBudgets(limits, jobs, delays, |jobs|)
    ensures forall i :: 0 <= i < |jobs| ==>
              LowImpactChoice(carbon, jobs, runtimes, limits, step, assess, delays, i, delays[i])
    ensures forall i :: 0 <= i < |jobs| ==>
              && WithinLimits(limits, jobs[i], delays[i])
              && (delays[i] == 0.0 ==> written[i] == jobs[i].release)
              && (delays[i] > 0.0 ==> -0.5 <= written[i] as real - (jobs[i].eligible + delays[i]) <= 0.5)
  {
    hide WithinBudgets, BooksKept, Rounded, LowImpactChoice, Respects, WithinLimits;
    delays, written := [], [];
    var userDelay: map<User, real> := map[];
    var userJobs: map<User, nat> := map[];
    NothingChosen(jobs, limits);
    for k := 0 to |jobs|
      invariant |delays| == |written| == k && WithinBudgets(limits, jobs, delays, k)
      invariant BooksKept(jobs, delays, k, userDelay, userJobs)
      invariant forall i :: 0 <= i < k ==> WithinLimits(limits, jobs[i], delays[i])
      invariant forall i :: 0 <= i < k ==>
                  LowImpactChoice(carbon, jobs, runtimes, limits, step, assess, delays, i, delays[i])
      invariant forall i :: 0 <= i < k ==> written[i] == Written(jobs[i], delays[i])
    {
      var u := jobs[k].user;
      BooksAt(jobs, delays, k, userDelay, userJobs, u);
      var delay := ChooseLowImpact(carbon, jobs, runtimes, limits, step, assess, delays, Spent(userDelay, u),
                                   Count(userJobs, u));
      RespectsBudget(limits, jobs[k], Spent(userDelay, u), Count(userJobs, u), delay);
      OneMoreJob(limits, jobs, delays, delay, k, userDelay, userJobs);
      forall i | 0 <= i <= k
        ensures LowImpactChoice(carbon, jobs, runtimes, limits, step, assess, delays + [delay], i,
                                (delays + [delay])[i])
      {
        ChoicesStand(carbon, jobs, runtimes, limits, step, 1, assess, delays, [delay], i, (delays + [delay])[i]);
      }
      if delay > 0.0 {
        userDelay := userDelay[u := Spent(userDelay, u) + delay];
        userJobs := userJobs[u := Count(userJobs, u) + 1];
      }
      delays, written := delays + [delay], written + [Written(jobs[k], delay)];
    }
    forall i | 0 <= i < |jobs| && delays[i] > 0.0
      ensures -0.5 <= written[i] as real - (jobs[i].eligible + delays[i]) <= 0.5
    {
      RoundedIsNear(jobs[i].eligible + delays[i], 0);
    }
  }

  /** The safe-rolling planner: delays are whole steps, so a job eligible at a whole second is released exactly on
      one. */
  method PlanSafeRolling(jobs: seq<Job>, limits: Limits, step: int, assess: (nat, seq<real>) -> (real -> Assessment))
    returns (delays: seq<real>, written: seq<int>)
    requires step > 0
    ensures |delays| == |written| == |jobs| && WithinBudgets(limits, jobs, delays, |jobs|)
    ensures forall i :: 0 <= i < |jobs| ==> SafeRollingChoice(jobs, limits, step, assess, delays, i, delays[i])
    ensures forall i :: 0 <= i < |jobs| ==>
              && WithinLimits(limits, jobs[i], delays[i]) && OnSteps(delays[i], step)
              && (delays[i] == 0.0 ==> written[i] == jobs[i].release)
              && (delays[i] > 0.0 && Integral(jobs[i].eligible) ==> written[i] as real == jobs[i].eligible + delays[i])
  {
    hide WithinBudgets, BooksKept, Rounded, SafeRollingChoice, Respects, WithinLimits, OnSteps, Integral;
    delays, written := [], [];
    var userDelay: map<User, real> := map[];
    var userJobs: map<User, nat> := map[];
    NothingChosen(jobs, limits);
    for k := 0 to |jobs|
      invariant |delays| == |written| == k && WithinBudgets(limits, jobs, delays, k)
      invariant BooksKept(jobs, delays, k, userDelay, userJobs)
      invariant forall i :: 0 <= i < k ==> WithinLimits(limits, jobs[i], delays[i]) && OnSteps(delays[i], step)
      invariant forall i :: 0 <= i < k ==> SafeRollingChoice(jobs, limits, step, assess, delays, i, delays[i])
      invariant forall i :: 0 <= i < k ==> written[i] == Written(jobs[i], delays[i])
    {
      var u := jobs[k].user;
      BooksAt(jobs, delays, k, userDelay, userJobs, u);
      var delay := ChooseSafeRolling(jobs, limits, step, assess, delays, Spent(userDelay, u), Count(userJobs, u));
      RespectsBudget(limits, jobs[k], Spent(userDelay, u), Count(userJobs, u), delay);
      OneMoreJob(limits, jobs, delays, delay, k, userDelay, userJobs);
      forall i | 0 <= i <= k
        ensures SafeRollingChoice(jobs, limits, step, assess, delays + [delay], i, (delays + [delay])[i])
      {
        ChoicesStand([], jobs, seq(|jobs|, _ => 0.0), limits, 1.0, step, assess, delays, [delay], i,
                     (delays + [delay])[i]);
      }
      if delay > 0.0 {
        userDelay := userDelay[u := Spent(userDelay, u) + delay];
        userJobs := userJobs[u := Count(userJobs, u) + 1];
      }
      delays, written := delays + [delay], written + [Written(jobs[k], delay)];
    }
    forall i | 0 <= i < |jobs| && delays[i] > 0.0 && Integral(jobs[i].eligible)
      ensures written[i] as real == jobs[i].eligible + delays[i]
    {
      ExactOnSteps(jobs[i].eligible, delays[i], step);
    }
  }
}
