/** The admission controller of `policy_v2/feedback.py`: its state, and one step as a function. */
module Controller {
  import opened Basics
  import opened Intensity
  import opened Selection

  type JobId = nat
  type User = string

  datatype Meta = Meta(user: User, pool: string, fraction: real, runtime: real, reliable: bool, flexible: bool)

  /** `sumError` is what floating point adds to the sum of a time and k ticks, at most `sumSlack` either way. */
  datatype Config = Config(
    jobs: map<JobId, Meta>, signal: Signal, tick: real, maxDelay: real, delayRatio: real,
    minSaving: real, userBudget: real, baseline: bool, sumError: (real, int) -> real, sumSlack: real)

  ghost predicate ValidConfig(cfg: Config) {
    && ValidSignal(cfg.signal) && 0.0 <= cfg.sumSlack < cfg.tick
    && forall x: real, k: int :: -cfg.sumSlack <= cfg.sumError(x, k) <= cfg.sumSlack
  }

  /** Sums that do not round. */
  ghost predicate ExactSums(cfg: Config) {
    forall x: real, k: int :: cfg.sumError(x, k) == 0.0
  }

  const BUDGET_SLACK_S: real := 0.00000001
  const IDLE_WAKE_S: real := 86400.0

  datatype Phase = Pending | Running | Completed

  datatype Observation = Observation(id: JobId, phase: Phase, start: real)

  datatype Arrival = Arrival(job: JobId, arrived: real)

  datatype Request = Request(now: real, arrivals: seq<Arrival>, states: seq<Observation>)

  datatype Response = Response(release: seq<JobId>, nextWake: real)

  datatype Hold = Hold(job: JobId, arrived: real, release: real, reserved: real)

  /** `held` keeps the insertion order of the source's dictionary. */
  datatype State = State(
    held: seq<Hold>, seen: set<JobId>, released: set<JobId>,
    spent: map<User, real>, reserved: map<User, real>, lastNow: Option<real>)

  const START := State([], {}, {}, map[], map[], None)

  datatype Error = ClockBackwards | UnsubmittedSnapshot | DuplicateRelease | DuplicateArrival | UnknownJob

  datatype Result<+T> = Ok(value: T) | Err(error: Error) {
    predicate IsFailure() {
      Err?
    }

    function PropagateFailure<U>(): Result<U>
      requires Err?
    {
      Err(error)
    }

    function Extract(): T
      requires Ok?
    {
      value
    }
  }

  /** Reading a `defaultdict(float)`. */
  function Get(m: map<User, real>, u: User): real {
    if u in m then m[u] else 0.0
  }

  function Add(m: map<User, real>, u: User, x: real): map<User, real> {
    m[u := Get(m, u) + x]
  }

  // ---------- one job against the observed backlog ----------

  datatype Totals = Totals(work: real, load: real, pending: bool)

  /** Backlog of one pool: capacity-seconds left, running load, and whether anything waits. */
  function PoolTotals(cfg: Config, pool: string, states: seq<Observation>, now: real): Totals
    requires forall s :: s in states ==> s.id in cfg.jobs
  {
    if states == [] then Totals(0.0, 0.0, false)
    else
      var t := PoolTotals(cfg, pool, states[..|states| - 1], now);
      AddToTotals(cfg, pool, t, states[|states| - 1], now)
  }

  function AddToTotals(cfg: Config, pool: string, t: Totals, s: Observation, now: real): Totals
    requires s.id in cfg.jobs
  {
    var m := cfg.jobs[s.id];
    if m.pool != pool then t
    else if s.phase.Running? then
      var remaining := Max(m.runtime - Max(now - s.start, 0.0), cfg.tick);
      Totals(t.work + m.fraction * remaining, t.load + m.fraction, t.pending)
    else if s.phase.Pending? then
      Totals(t.work + m.fraction * m.runtime, t.load, true)
    else t
  }

  function Backlog(cfg: Config, job: JobId, states: seq<Observation>, now: real): real
    requires job in cfg.jobs && forall s :: s in states ==> s.id in cfg.jobs
  {
    var t := PoolTotals(cfg, cfg.jobs[job].pool, states, now);
    if t.pending || t.load + cfg.jobs[job].fraction > 1.0 then t.work else 0.0
  }

  datatype Choice = Choice(
    release: real, gain: Score, saving: Score, utility: Score, predictedStart: real, incrementalWait: real)

  /** Expected effect of releasing a job at `release`; an uncovered window gives minus infinity. */
  function OptionAt(cfg: Config, job: JobId, now: real, release: real, backlog: real): Choice
    requires ValidConfig(cfg) && job in cfg.jobs
  {
    var m := cfg.jobs[job];
    var baselineStart := now + backlog;
    var predictedStart := Max(release, baselineStart);
    var before := SignalMean(cfg.signal, baselineStart, m.runtime);
    var after := SignalMean(cfg.signal, predictedStart, m.runtime);
    var gain :=
      if before.Some? && after.Some? && before.value != 0.0
      then Finite((before.value - after.value) / before.value * 100.0) else Unusable;
    var saving :=
      if before.Some? && after.Some?
      then Finite((before.value - after.value) * (m.fraction * m.runtime / 3600.0)) else Unusable;
    var utility := if saving.Finite? then Finite(saving.value / Max(release - now, 1.0)) else Unusable;
    Choice(release, gain, saving, utility, predictedStart, predictedStart - baselineStart)
  }

  predicate EnoughGain(cfg: Config, c: Choice) {
    c.gain.Finite? && c.gain.value >= cfg.minSaving
  }

  function AdmissionRules(cfg: Config): Rules<Choice> {
    Rules([Gate("insufficient_carbon_gain", c => EnoughGain(cfg, c)),
           Gate("no_effect_on_predicted_start", (c: Choice) => c.incrementalWait > 0.0)],
          (c: Choice) => c.utility, (c: Choice) => c.release, true)
  }

  /** Longest hold the job may get. */
  function Allowance(cfg: Config, job: JobId): real
    requires job in cfg.jobs
  {
    Min(cfg.maxDelay, cfg.jobs[job].runtime * cfg.delayRatio)
  }

  /** k ticks after the given time, as the sum comes out. */
  function GridPoint(cfg: Config, from: real, k: int): real {
    from + k as real * cfg.tick + cfg.sumError(from, k)
  }

  /** Release grid: whole ticks after arrival, within the allowance and still in the future. */
  function Grid(cfg: Config, arrived: real, now: real, steps: int): (r: seq<real>)
    decreases if steps < 0 then 0 else steps
  {
    if steps <= 0 then []
    else
      var rest := Grid(cfg, arrived, now, steps - 1);
      var release := GridPoint(cfg, arrived, steps);
      if release > now then rest + [release] else rest
  }

  function GridSteps(cfg: Config, job: JobId): int
    requires ValidConfig(cfg) && job in cfg.jobs
  {
    (Allowance(cfg, job) / cfg.tick).Floor
  }

  function OptionsOf(cfg: Config, job: JobId, now: real, releases: seq<real>, backlog: real): (r: seq<Choice>)
    requires ValidConfig(cfg) && job in cfg.jobs
    ensures |r| == |releases|
  {
    seq(|releases|, i requires 0 <= i < |releases| => OptionAt(cfg, job, now, releases[i], backlog))
  }

  datatype Candidate = Candidate(job: JobId, arrived: real, option: Choice)

  /** The options that pass both gates and have a finite utility, as candidates for the budget. */
  function Keep(cfg: Config, a: Arrival, options: seq<Choice>): seq<Candidate> {
    if options == [] then []
    else
      var rest := Keep(cfg, a, options[..|options| - 1]);
      var o := options[|options| - 1];
      if Feasible(o, AdmissionRules(cfg)) then rest + [Candidate(a.job, a.arrived, o)] else rest
  }

  /** Jobs the controller never holds: baseline mode, protected, or no reliable runtime. */
  predicate Immediate(cfg: Config, job: JobId)
    requires job in cfg.jobs
  {
    cfg.baseline || !cfg.jobs[job].flexible || !cfg.jobs[job].reliable
  }

  function CandidatesOf(cfg: Config, a: Arrival, states: seq<Observation>, now: real): seq<Candidate>
    requires ValidConfig(cfg) && a.job in cfg.jobs && forall s :: s in states ==> s.id in cfg.jobs
  {
    if Immediate(cfg, a.job) then []
    else
      var releases := Grid(cfg, a.arrived, now, GridSteps(cfg, a.job));
      Keep(cfg, a, OptionsOf(cfg, a.job, now, releases, Backlog(cfg, a.job, states, now)))
  }

  // ---------- release ----------

  function HoldOf(held: seq<Hold>, job: JobId): Option<Hold> {
    if held == [] then None
    else if held[|held| - 1].job == job then Some(held[|held| - 1])
    else HoldOf(held[..|held| - 1], job)
  }

  function Without(held: seq<Hold>, job: JobId): seq<Hold> {
    if held == [] then []
    else
      var rest := Without(held[..|held| - 1], job);
      if held[|held| - 1].job == job then rest else rest + [held[|held| - 1]]
  }

  function HeldJobs(held: seq<Hold>): set<JobId> {
    set h | h in held :: h.job
  }

  /** The step in progress: the state so far and the jobs released so far. */
  datatype Work = Work(st: State, output: seq<JobId>)

  function ReleaseJob(cfg: Config, w: Work, job: JobId, now: real): Result<Work>
    requires job in cfg.jobs
  {
    var user := cfg.jobs[job].user;
    var st :=
      match HoldOf(w.st.held, job)
      case Some(h) =>
        w.st.(held := Without(w.st.held, job),
              reserved := Add(w.st.reserved, user, -h.reserved),
              spent := Add(w.st.spent, user, Max(now - h.arrived, 0.0)))
      case None => w.st;
    if job in st.released then Err(DuplicateRelease)
    else Ok(Work(st.(released := st.released + {job}), w.output + [job]))
  }

  // ---------- phase 1: outstanding holds ----------

  /** A hold ends when it is due, or when its benefit is gone at the current backlog. */
  predicate Ends(cfg: Config, h: Hold, states: seq<Observation>, now: real)
    requires ValidConfig(cfg) && h.job in cfg.jobs && forall s :: s in states ==> s.id in cfg.jobs
  {
    now >= h.release
    || !EnoughGain(cfg, OptionAt(cfg, h.job, now, h.release, Backlog(cfg, h.job, states, now)))
  }

  function Recheck(cfg: Config, w: Work, holds: seq<Hold>, states: seq<Observation>, now: real): Result<Work>
    requires ValidConfig(cfg) && (forall h :: h in holds ==> h.job in cfg.jobs)
    requires forall s :: s in states ==> s.id in cfg.jobs
    decreases |holds|
  {
    if holds == [] then Ok(w)
    else if Ends(cfg, holds[0], states, now) then
      var next :- ReleaseJob(cfg, w, holds[0].job, now);
      Recheck(cfg, next, holds[1..], states, now)
    else Recheck(cfg, w, holds[1..], states, now)
  }

  // ---------- phase 2: arrivals ----------

  datatype Gathered = Gathered(work: Work, candidates: seq<Candidate>)

  function TakeArrival(cfg: Config, g: Gathered, a: Arrival, states: seq<Observation>, now: real): Result<Gathered>
    requires ValidConfig(cfg) && forall s :: s in states ==> s.id in cfg.jobs
  {
    if a.job in g.work.st.seen then Err(DuplicateArrival)
    else if a.job !in cfg.jobs then Err(UnknownJob)
    else
      var w := g.work.(st := g.work.st.(seen := g.work.st.seen + {a.job}));
      var found := CandidatesOf(cfg, a, states, now);
      if found == [] then
        var next :- ReleaseJob(cfg, w, a.job, now);
        Ok(g.(work := next))
      else Ok(Gathered(w, g.candidates + found))
  }

  function Gather(
    cfg: Config, g: Gathered, arrivals: seq<Arrival>, states: seq<Observation>, now: real): Result<Gathered>
    requires ValidConfig(cfg) && forall s :: s in states ==> s.id in cfg.jobs
    decreases |arrivals|
  {
    if arrivals == [] then Ok(g)
    else
      var next :- TakeArrival(cfg, g, arrivals[0], states, now);
      Gather(cfg, next, arrivals[1..], states, now)
  }

  // ---------- phase 3: ranking under the user budgets ----------

  function UtilityOf(c: Candidate): real {
    if c.option.utility.Finite? then c.option.utility.value else 0.0
  }

  /** The sort key (-utility, release, job). */
  predicate Precedes(a: Candidate, b: Candidate) {
    UtilityOf(a) > UtilityOf(b)
    || (UtilityOf(a) == UtilityOf(b)
        && (a.option.release < b.option.release || (a.option.release == b.option.release && a.job < b.job)))
  }

  function Insert(c: Candidate, sorted: seq<Candidate>): seq<Candidate> {
    if sorted == [] || Precedes(c, sorted[0]) then [c] + sorted
    else [sorted[0]] + Insert(c, sorted[1..])
  }

  /** A stable sort by the key. */
  function Rank(cs: seq<Candidate>): seq<Candidate> {
    if cs == [] then [] else Insert(cs[|cs| - 1], Rank(cs[..|cs| - 1]))
  }

  function AdmitOne(cfg: Config, st: State, c: Candidate): State
    requires c.job in cfg.jobs
  {
    if c.job in HeldJobs(st.held) then st
    else
      var user := cfg.jobs[c.job].user;
      var reserved := c.option.release - c.arrived;
      if Get(st.spent, user) + Get(st.reserved, user) + reserved > cfg.userBudget + BUDGET_SLACK_S then st
      else st.(held := st.held + [Hold(c.job, c.arrived, c.option.release, reserved)],
               reserved := Add(st.reserved, user, reserved))
  }

  function Admit(cfg: Config, st: State, ranked: seq<Candidate>): State
    requires forall c :: c in ranked ==> c.job in cfg.jobs
    decreases |ranked|
  {
    if ranked == [] then st else Admit(cfg, AdmitOne(cfg, st, ranked[0]), ranked[1..])
  }

  // ---------- phase 4: candidates that found no budget ----------

  function ReleaseRest(cfg: Config, w: Work, ranked: seq<Candidate>, now: real): Result<Work>
    requires forall c :: c in ranked ==> c.job in cfg.jobs
    decreases |ranked|
  {
    if ranked == [] then Ok(w)
    else if ranked[0].job in HeldJobs(w.st.held) || ranked[0].job in w.output then
      ReleaseRest(cfg, w, ranked[1..], now)
    else
      var next :- ReleaseJob(cfg, w, ranked[0].job, now);
      ReleaseRest(cfg, next, ranked[1..], now)
  }

  // ---------- the step ----------

  function EarliestRelease(held: seq<Hold>, default: real): real {
    if held == [] then default
    else if |held| == 1 then held[0].release
    else Min(EarliestRelease(held[..|held| - 1], default), held[|held| - 1].release)
  }

  function NextWake(cfg: Config, held: seq<Hold>, now: real): real {
    var wake := EarliestRelease(held, now + IDLE_WAKE_S);
    if held != [] then Min(wake, GridPoint(cfg, now, 1)) else wake
  }

  predicate Known(cfg: Config, st: State) {
    st.released <= cfg.jobs.Keys && forall h :: h in st.held ==> h.job in cfg.jobs
  }

  function Step(cfg: Config, st: State, r: Request): Result<(State, Response)>
    requires ValidConfig(cfg) && Known(cfg, st)
  {
    if st.lastNow.Some? && r.now < st.lastNow.value then Err(ClockBackwards)
    else if exists s :: s in r.states && s.id !in st.released then Err(UnsubmittedSnapshot)
    else
      var st0 := st.(lastNow := Some(r.now));
      var w1 :- Recheck(cfg, Work(st0, []), st.held, r.states, r.now);
      var g :- Gather(cfg, Gathered(w1, []), r.arrivals, r.states, r.now);
      assert forall c :: c in Rank(g.candidates) ==> c.job in cfg.jobs by {
        GatheredKnown(cfg, Gathered(w1, []), r.arrivals, r.states, r.now);
        RankSameElements(g.candidates);
      }
      var ranked := Rank(g.candidates);
      var st3 := Admit(cfg, g.work.st, ranked);
      var w4 :- ReleaseRest(cfg, g.work.(st := st3), ranked, r.now);
      Ok((w4.st, Response(w4.output, NextWake(cfg, w4.st.held, r.now))))
  }

  /** `Keep` keeps exactly the options that pass both gates with a finite utility. */
  lemma {:induction false} KeepExactly(cfg: Config, a: Arrival, options: seq<Choice>)
    ensures forall c :: c in Keep(cfg, a, options) <==>
              c.job == a.job && c.arrived == a.arrived && c.option in options && Feasible(c.option, AdmissionRules(cfg))
  {
    hide Feasible, AdmissionRules;
    if options != [] {
      KeepExactly(cfg, a, options[..|options| - 1]);
      assert options == options[..|options| - 1] + [options[|options| - 1]];
    }
  }

  lemma {:induction false} GatheredKnown(
    cfg: Config, g: Gathered, arrivals: seq<Arrival>, states: seq<Observation>, now: real)
    requires ValidConfig(cfg) && forall s :: s in states ==> s.id in cfg.jobs
    requires forall c :: c in g.candidates ==> c.job in cfg.jobs
    ensures var r := Gather(cfg, g, arrivals, states, now);
            r.Ok? ==> forall c :: c in r.value.candidates ==> c.job in cfg.jobs
    decreases |arrivals|
  {
    hide ValidConfig, ReleaseJob, Keep, OptionsOf, Grid, Backlog, AdmissionRules, Feasible, GridSteps;
    if arrivals != [] && TakeArrival(cfg, g, arrivals[0], states, now).Ok? {
      var a := arrivals[0];
      var releases := Grid(cfg, a.arrived, now, GridSteps(cfg, a.job));
      KeepExactly(cfg, a, OptionsOf(cfg, a.job, now, releases, Backlog(cfg, a.job, states, now)));
      GatheredKnown(cfg, TakeArrival(cfg, g, a, states, now).value, arrivals[1..], states, now);
    }
  }

  lemma {:induction false} InsertSameElements(c: Candidate, s: seq<Candidate>)
    ensures multiset(Insert(c, s)) == multiset(s) + multiset{c}
  {
    hide Precedes;
    if s != [] && !Precedes(c, s[0]) {
      InsertSameElements(c, s[1..]);
      assert s == [s[0]] + s[1..];
    }
  }

  lemma {:induction false} RankSameElements(cs: seq<Candidate>)
    ensures multiset(Rank(cs)) == multiset(cs)
    ensures forall c :: c in Rank(cs) <==> c in cs
  {
    hide Insert;
    if cs != [] {
      RankSameElements(cs[..|cs| - 1]);
      InsertSameElements(cs[|cs| - 1], Rank(cs[..|cs| - 1]));
      assert cs == cs[..|cs| - 1] + [cs[|cs| - 1]];
    }
    forall c
      ensures c in Rank(cs) <==> c in cs
    {
      assert c in Rank(cs) <==> c in multiset(Rank(cs));
    }
  }
}
