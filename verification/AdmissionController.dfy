/** The controller as the program runs it: an object whose methods update its fields in place. */
module AdmissionController {
  import opened Basics
  import opened Selection
  import opened Controller
  import opened ControllerBooks
  import opened ControllerStep
  import opened ControllerOffers
  import opened ControllerBudget
  import opened ControllerRuns

  class Admission {
    const cfg: Config
    var held: seq<Hold>
    var seen: set<JobId>
    var released: set<JobId>
    var spent: map<User, real>
    var reserved: map<User, real>
    var lastNow: Option<real>

    ghost function Contents(): State
      reads this
    {
      State(held, seen, released, spent, reserved, lastNow)
    }

    constructor (cfg: Config)
      requires ValidConfig(cfg)
      ensures this.cfg == cfg && Contents() == START && Sound(cfg, Contents())
    {
      this.cfg := cfg;
      held, seen, released, spent, reserved, lastNow := [], {}, {}, map[], map[], None;
      new;
      StartIsSound(cfg);
    }

    /** The work of the job's pool, when something waits there or the job does not fit beside what runs. */
    method Pressure(job: JobId, states: seq<Observation>, now: real) returns (r: real)
      requires job in cfg.jobs && forall s :: s in states ==> s.id in cfg.jobs
      ensures r == Backlog(cfg, job, states, now)
      ensures var pool := cfg.jobs[job].pool;
              r == if SomethingWaits(cfg, pool, states)
                      || RunningLoad(cfg, pool, states) + cfg.jobs[job].fraction > 1.0
                   then WaitingWork(cfg, pool, states) + RunningWork(cfg, pool, states, now)
                   else 0.0
    {
      hide Max, SomethingWaits, RunningLoad, WaitingWork, RunningWork, PoolTotals, AddToTotals, Backlog;
      BacklogExactly(cfg, job, states, now);
      NoTotals(cfg, cfg.jobs[job].pool, now);
      var pool := cfg.jobs[job].pool;
      var work, load, pending := 0.0, 0.0, false;
      for i := 0 to |states|
        invariant Totals(work, load, pending) == PoolTotals(cfg, pool, states[..i], now)
      {
        OneMoreTotal(cfg, pool, states, i, now);
        var metadata := cfg.jobs[states[i].id];
        if metadata.pool == pool {
          if states[i].phase.Running? {
            var elapsed := Max(now - states[i].start, 0.0);
            var remaining := Max(metadata.runtime - elapsed, cfg.tick);
            work := work + metadata.fraction * remaining;
            load := load + metadata.fraction;
          } else if states[i].phase.Pending? {
            work := work + metadata.fraction * metadata.runtime;
            pending := true;
          }
        }
      }
      assert states[..|states|] == states;
      BacklogUnfolds(cfg, job, states, now);
      r := if pending || load + cfg.jobs[job].fraction > 1.0 then work else 0.0;
    }

    method Release(job: JobId, now: real, output: seq<JobId>) returns (r: Result<seq<JobId>>)
      requires job in cfg.jobs
      modifies this
      ensures match ReleaseJob(cfg, Work(old(Contents()), output), job, now)
              case Ok(w) => r == Ok(w.output) && Contents() == w.st
              case Err(e) => r == Err(e)
    {
      hide Get, Max, Without, HoldOf;
      var hold := HoldOf(held, job);
      if hold.Some? {
        held := Without(held, job);
        var user := cfg.jobs[job].user;
        reserved := Add(reserved, user, -hold.value.reserved);
        spent := Add(spent, user, Max(now - hold.value.arrived, 0.0));
      }
      if job in released {
        return Err(DuplicateRelease);
      }
      released := released + {job};
      r := Ok(output + [job]);
    }

    /** The release options of an arrival that pass both gates, in grid order, taken from the audit of `Choose`. */
    method Offers(a: Arrival, states: seq<Observation>, now: real) returns (found: seq<Candidate>)
      requires ValidConfig(cfg) && a.job in cfg.jobs && forall s :: s in states ==> s.id in cfg.jobs
      ensures found == CandidatesOf(cfg, a, states, now)
    {
      hide ValidConfig, OptionAt, GridPoint, FinalRow, EnoughGain, Backlog, IsChoice, GridSteps, BestOf, RunningLoad,
           SomethingWaits, WaitingWork, RunningWork, Keep, Grid, Feasible;
      found := [];
      if Immediate(cfg, a.job) {
        return;
      }
      var backlog := Pressure(a.job, states, now);
      var steps := GridSteps(cfg, a.job);
      var releases: seq<real> := [];
      var i := 1;
      GridEmpty(cfg, a.arrived, now, steps);
      while i <= steps
        invariant i >= 1 && (i <= steps + 1 || i == 1)
        invariant releases == Grid(cfg, a.arrived, now, i - 1)
      {
        GridUnfolds(cfg, a.arrived, now, i);
        var release := GridPoint(cfg, a.arrived, i);
        if release > now {
          releases := releases + [release];
        }
        i := i + 1;
      }
      var options := OptionsOf(cfg, a.job, now, releases, backlog);
      var rules := AdmissionRules(cfg);
      var best, audit := Choose(options, rules);
      if best == None {
        KeepNothing(cfg, a, options, best);
        return;
      }
      NothingKept(cfg, a);
      for n := 0 to |options|
        invariant found == Keep(cfg, a, options[..n])
      {
        KeepUnfolds(cfg, a, options, n);
        AuditTellsFeasible(options, n, rules, best);
        if audit[n].accepted || audit[n].reasons == ["feasible_lower_rank"] {
          found := found + [Candidate(a.job, a.arrived, options[n])];
        }
      }
      assert options[..|options|] == options;
    }

    /** One request: from a sound state it fails exactly on an invalid one, and otherwise has the outcome of a step. A
        failed step leaves the object in the middle of its work; the process then stops. */
    method Step(r: Request) returns (reply: Result<Response>)
      requires ValidConfig(cfg) && Known(cfg, Contents())
      modifies this
      ensures match Controller.Step(cfg, old(Contents()), r)
              case Ok(s) => reply == Ok(s.1) && Contents() == s.0
              case Err(e) => reply == Err(e)
      ensures Sound(cfg, old(Contents())) ==>
                && (reply.Ok? <==> Valid(cfg, old(Contents()), r))
                && (reply.Ok? ==>
                      Sound(cfg, Contents()) && Outcome(cfg, old(Contents()), r, Contents(), reply.value))
    {
      hide ValidConfig, Recheck, Gather, Admit, ReleaseRest, Rank, NextWake, EarliestRelease, Sound, Outcome, Valid;
      if Sound(cfg, Contents()) {
        StepKeepsSound(cfg, Contents(), r);
        StepSucceedsExactly(cfg, Contents(), r);
      }
      if lastNow.Some? && r.now < lastNow.value {
        return Err(ClockBackwards);
      }
      if exists s :: s in r.states && s.id !in released {
        return Err(UnsubmittedSnapshot);
      }
      lastNow := Some(r.now);
      var failure, output1 := RecheckHolds(r.states, r.now);
      if failure.Some? {
        return Err(failure.value);
      }
      var failure2, output2, candidates := TakeArrivals(r.arrivals, r.states, r.now, output1);
      if failure2.Some? {
        return Err(failure2.value);
      }
      var ranked := Rank(candidates);
      RankSameElements(candidates);
      AdmitRanked(ranked);
      var failure3, output3 := ReleaseUnheld(ranked, r.now, output2);
      if failure3.Some? {
        return Err(failure3.value);
      }
      var wake := Wake(r.now);
      reply := Ok(Response(output3, wake));
    }

    method RecheckHolds(states: seq<Observation>, now: real) returns (failure: Option<Error>, output: seq<JobId>)
      requires ValidConfig(cfg) && Known(cfg, Contents()) && Readable(cfg, states)
      modifies this
      ensures match Recheck(cfg, Work(old(Contents()), []), old(held), states, now)
              case Ok(w) => failure == None && Work(Contents(), output) == w && Known(cfg, w.st)
              case Err(e) => failure == Some(e)
    {
      hide ValidConfig, ReleaseJob, Ends, OptionAt, Backlog;
      var holds := held;
      output, failure := [], None;
      for i := 0 to |holds|
        invariant Known(cfg, Contents()) && failure == None
        invariant Recheck(cfg, Work(Contents(), output), holds[i..], states, now)
               == Recheck(cfg, Work(old(Contents()), []), holds, states, now)
      {
        var h := holds[i];
        assert holds[i..][0] == h && holds[i..][1..] == holds[i + 1..];
        var ends := now >= h.release;
        if !ends {
          var backlog := Pressure(h.job, states, now);
          ends := !EnoughGain(cfg, OptionAt(cfg, h.job, now, h.release, backlog));
        }
        EndsUnfolds(cfg, h, states, now);
        if ends {
          ReleaseKeepsKnown(cfg, Work(Contents(), output), h.job, now);
          var out := Release(h.job, now, output);
          if out.Err? {
            failure := Some(out.error);
            return;
          }
          output := out.value;
        }
      }
    }

    method TakeArrivals(arrivals: seq<Arrival>, states: seq<Observation>, now: real, before: seq<JobId>)
      returns (failure: Option<Error>, output: seq<JobId>, candidates: seq<Candidate>)
      requires ValidConfig(cfg) && Known(cfg, Contents()) && Readable(cfg, states)
      modifies this
      ensures match Gather(cfg, Gathered(Work(old(Contents()), before), []), arrivals, states, now)
              case Ok(g) =>
                failure == None && Gathered(Work(Contents(), output), candidates) == g && Known(cfg, g.work.st)
                            && forall c :: c in candidates ==> c.job in cfg.jobs
              case Err(e) => failure == Some(e)
    {
      hide ValidConfig, ReleaseJob, CandidatesOf;
      output, candidates, failure := before, [], None;
      ghost var g0 := Gathered(Work(Contents(), before), []);
      for i := 0 to |arrivals|
        invariant Known(cfg, Contents()) && failure == None
        invariant forall c :: c in candidates ==> c.job in cfg.jobs
        invariant Gather(cfg, Gathered(Work(Contents(), output), candidates), arrivals[i..], states, now)
               == Gather(cfg, g0, arrivals, states, now)
      {
        var a := arrivals[i];
        assert arrivals[i..][0] == a && arrivals[i..][1..] == arrivals[i + 1..];
        if a.job in seen {
          failure := Some(DuplicateArrival);
          return;
        }
        if a.job !in cfg.jobs {
          failure := Some(UnknownJob);
          return;
        }
        seen := seen + {a.job};
        var found := Offers(a, states, now);
        if found == [] {
          ReleaseKeepsKnown(cfg, Work(Contents(), output), a.job, now);
          var out := Release(a.job, now, output);
          if out.Err? {
            failure := Some(out.error);
            return;
          }
          output := out.value;
        } else {
          CandidatesKnown(cfg, a, states, now);
          candidates := candidates + found;
        }
      }
    }

    method AdmitRanked(ranked: seq<Candidate>)
      requires Known(cfg, Contents()) && forall c :: c in ranked ==> c.job in cfg.jobs
      modifies this`held, this`reserved
      ensures Contents() == Admit(cfg, old(Contents()), ranked) && Known(cfg, Contents())
    {
      hide Get;
      for i := 0 to |ranked|
        invariant Known(cfg, Contents())
        invariant Admit(cfg, Contents(), ranked[i..]) == Admit(cfg, old(Contents()), ranked)
      {
        var c := ranked[i];
        assert ranked[i..][0] == c && ranked[i..][1..] == ranked[i + 1..];
        if c.job !in HeldJobs(held) {
          var user := cfg.jobs[c.job].user;
          var wanted := c.option.release - c.arrived;
          if Get(spent, user) + Get(reserved, user) + wanted <= cfg.userBudget + BUDGET_SLACK_S {
            held := held + [Hold(c.job, c.arrived, c.option.release, wanted)];
            reserved := Add(reserved, user, wanted);
          }
        }
      }
    }

    method ReleaseUnheld(ranked: seq<Candidate>, now: real, before: seq<JobId>)
      returns (failure: Option<Error>, output: seq<JobId>)
      requires Known(cfg, Contents()) && forall c :: c in ranked ==> c.job in cfg.jobs
      modifies this
      ensures match ReleaseRest(cfg, Work(old(Contents()), before), ranked, now)
              case Ok(w) => failure == None && Work(Contents(), output) == w && Known(cfg, w.st)
              case Err(e) => failure == Some(e)
    {
      hide ReleaseJob;
      output, failure := before, None;
      for i := 0 to |ranked|
        invariant Known(cfg, Contents()) && failure == None
        invariant ReleaseRest(cfg, Work(Contents(), output), ranked[i..], now)
               == ReleaseRest(cfg, Work(old(Contents()), before), ranked, now)
      {
        var c := ranked[i];
        assert ranked[i..][0] == c && ranked[i..][1..] == ranked[i + 1..];
        if c.job !in HeldJobs(held) && c.job !in output {
          ReleaseKeepsKnown(cfg, Work(Contents(), output), c.job, now);
          var out := Release(c.job, now, output);
          if out.Err? {
            failure := Some(out.error);
            return;
          }
          output := out.value;
        }
      }
    }

    method Wake(now: real) returns (wake: real)
      ensures wake == NextWake(cfg, held, now)
    {
      wake := now + IDLE_WAKE_S;
      if held != [] {
        wake := held[0].release;
        for i := 1 to |held|
          invariant wake == EarliestRelease(held[..i], now + IDLE_WAKE_S)
        {
          assert held[..i + 1][..i] == held[..i];
          wake := Min(wake, held[i].release);
        }
        assert held[..|held|] == held;
        wake := Min(wake, GridPoint(cfg, now, 1));
      }
    }
  }

  lemma NoTotals(cfg: Config, pool: string, now: real)
    ensures PoolTotals(cfg, pool, [], now) == Totals(0.0, 0.0, false)
  {
  }

  lemma OneMoreTotal(cfg: Config, pool: string, states: seq<Observation>, i: nat, now: real)
    requires i < |states| && Readable(cfg, states)
    ensures var t, s, m := PoolTotals(cfg, pool, states[..i], now), states[i], cfg.jobs[states[i].id];
            PoolTotals(cfg, pool, states[..i + 1], now)
            == if m.pool == pool && s.phase.Running? then
                 Totals(t.work + m.fraction * Max(m.runtime - Max(now - s.start, 0.0), cfg.tick),
                        t.load + m.fraction, t.pending)
               else if m.pool == pool && s.phase.Pending? then
                 Totals(t.work + m.fraction * m.runtime, t.load, true)
               else t
  {
    hide Max;
    assert states[..i + 1][..i] == states[..i];
  }

  lemma BacklogUnfolds(cfg: Config, job: JobId, states: seq<Observation>, now: real)
    requires job in cfg.jobs && Readable(cfg, states)
    ensures var t := PoolTotals(cfg, cfg.jobs[job].pool, states, now);
            Backlog(cfg, job, states, now) == if t.pending || t.load + cfg.jobs[job].fraction > 1.0 then t.work else 0.0
  {
    hide PoolTotals;
  }

  lemma GridEmpty(cfg: Config, arrived: real, now: real, steps: int)
    ensures Grid(cfg, arrived, now, 0) == []
    ensures steps <= 0 ==> Grid(cfg, arrived, now, steps) == []
  {
  }

  lemma GridUnfolds(cfg: Config, arrived: real, now: real, i: int)
    requires i >= 1
    ensures Grid(cfg, arrived, now, i)
            == Grid(cfg, arrived, now, i - 1)
               + if GridPoint(cfg, arrived, i) > now then [GridPoint(cfg, arrived, i)] else []
  {
    hide GridPoint;
  }

  lemma KeepUnfolds(cfg: Config, a: Arrival, options: seq<Choice>, n: nat)
    requires n < |options|
    ensures Keep(cfg, a, options[..n + 1])
            == Keep(cfg, a, options[..n])
               + if Feasible(options[n], AdmissionRules(cfg)) then [Candidate(a.job, a.arrived, options[n])] else []
  {
    hide Feasible, AdmissionRules;
    assert options[..n + 1][..n] == options[..n];
  }

  lemma NothingKept(cfg: Config, a: Arrival)
    ensures Keep(cfg, a, []) == []
  {
  }

  lemma {:induction false} KeepNothing(cfg: Config, a: Arrival, options: seq<Choice>, best: Option<nat>)
    requires IsChoice(options, |options|, AdmissionRules(cfg), best) && best == None
    ensures Keep(cfg, a, options) == []
  {
    hide Feasible, AdmissionRules;
    KeepExactly(cfg, a, options);
    FirstIsElement(Keep(cfg, a, options));
  }

  lemma FirstIsElement<T>(s: seq<T>)
    ensures s != [] ==> s[0] in s
  {
  }

  lemma EndsUnfolds(cfg: Config, h: Hold, states: seq<Observation>, now: real)
    requires ValidConfig(cfg) && h.job in cfg.jobs && Readable(cfg, states)
    ensures Ends(cfg, h, states, now) <==>
              now >= h.release
              || !EnoughGain(cfg, OptionAt(cfg, h.job, now, h.release, Backlog(cfg, h.job, states, now)))
  {
    hide ValidConfig, OptionAt, Backlog, EnoughGain;
  }

  lemma ReleaseKeepsKnown(cfg: Config, w: Work, job: JobId, now: real)
    requires Known(cfg, w.st) && job in cfg.jobs
    ensures ReleaseJob(cfg, w, job, now).Ok? ==> Known(cfg, ReleaseJob(cfg, w, job, now).value.st)
  {
    WithoutElements(w.st.held, job);
  }

  lemma CandidatesKnown(cfg: Config, a: Arrival, states: seq<Observation>, now: real)
    requires ValidConfig(cfg) && Readable(cfg, states) && a.job in cfg.jobs
    ensures forall c :: c in CandidatesOf(cfg, a, states, now) ==> c.job == a.job
  {
    CandidatesExactly(cfg, a, states, now);
  }
}
