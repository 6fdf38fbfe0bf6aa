/** What every controller step and every whole run of the controller guarantees. */
module ControllerRuns {
  import opened Basics
  import opened Selection
  import opened Controller
  import opened ControllerBooks
  import opened ControllerStep
  import opened ControllerBudget
  import opened ControllerGreedy

  // ---------- one step ----------

  /** A step fails exactly on a request that breaks the protocol. */
  lemma StepSucceedsExactly(cfg: Config, st: State, r: Request)
    requires ValidConfig(cfg) && Sound(cfg, st)
    ensures Known(cfg, st)
    ensures Step(cfg, st, r).Ok? <==> Valid(cfg, st, r)
  {
    hide ValidConfig, Recheck, Gather, Admit, ReleaseRest, Rank, NextWake, Books, Fresh, StepFacts;
    SoundIsKnown(cfg, st);
    if Valid(cfg, st, r) {
      var p := StepInPhases(cfg, st, r);
    } else if (st.lastNow.Some? ==> st.lastNow.value <= r.now) && (forall s :: s in r.states ==> s.id in st.released) {
      SoundStart(cfg, st, r.now);
      var w0 := Work(st.(lastNow := Some(r.now)), []);
      RecheckEffect(cfg, w0, st.held, r.states, r.now, st.released);
      var w1 := Recheck(cfg, w0, st.held, r.states, r.now).value;
      GatherRejects(cfg, Gathered(w1, []), r.arrivals, r.states, r.now);
    }
  }

  lemma StepSound(cfg: Config, st: State, r: Request, p: Phases)
    requires ValidConfig(cfg) && Sound(cfg, st) && Valid(cfg, st, r)
    requires StepPhases(cfg, st, r, p) && StepFacts(cfg, st, r, p)
    ensures Sound(cfg, p.final.st)
  {
    hide ValidConfig, OnGrid, ReservedExact, AllPlanned, Partition, Get, OptionAt, Backlog, AdmissionRules, Offered,
         EnoughGain, AfterArrivals, Recheck, Admit, ReleaseRest, NextWake, Rank, AllCandidates, Fresh, Step;
    SoundIsKnown(cfg, st);
    ValidKnown(cfg, st, r);
    assert p.gathered.st.held == p.rechecked.st.held && p.gathered.st.lastNow == p.rechecked.st.lastNow by {
      AfterKeeps(cfg, p.rechecked, r.arrivals, r.states, r.now);
    }
    NewHoldsArrived(cfg, r, p.gathered.st.held, p.final.st.held, p.ranked);
    forall h | h in p.final.st.held
      ensures h.release > r.now
    {
      if h in p.gathered.st.held {
        assert !Ends(cfg, h, r.states, r.now);
      }
    }
  }

  lemma NewHoldsArrived(cfg: Config, r: Request, held: seq<Hold>, next: seq<Hold>, ranked: seq<Candidate>)
    requires ValidConfig(cfg) && Readable(cfg, r.states) && forall a :: a in r.arrivals ==> a.job in cfg.jobs
    requires forall c :: c in ranked ==> OfferedTo(cfg, r.arrivals, r.states, r.now, c)
    requires forall h :: h in next ==> h in held || exists c :: c in ranked && h == HoldFor(c)
    ensures forall h :: h in next && h !in held ==> h.job in ArrivalJobs(r.arrivals) && h.release > r.now
  {
    hide ValidConfig, OfferedTo, ArrivalJobs;
    forall h | h in next && h !in held
      ensures h.job in ArrivalJobs(r.arrivals) && h.release > r.now
    {
      var c :| c in ranked && h == HoldFor(c);
      OfferedPlannable(cfg, r.arrivals, r.states, r.now, c);
    }
  }

  lemma AfterKeeps(cfg: Config, w: Work, arrivals: seq<Arrival>, states: seq<Observation>, now: real)
    requires ValidConfig(cfg) && Readable(cfg, states) && forall a :: a in arrivals ==> a.job in cfg.jobs
    ensures var r := AfterArrivals(cfg, w, arrivals, states, now).st;
            r == w.st.(seen := r.seen, released := r.released)
  {
  }

  /** Released jobs: each once, and exactly the holds and arrivals that are not held afterwards. */
  ghost predicate ReleasesPart(cfg: Config, st: State, r: Request, next: State, output: seq<JobId>) {
    && NoDuplicates(output)
    && next.released == st.released + Elements(output)
    && Elements(output) == HeldJobs(st.held) + ArrivalJobs(r.arrivals) - HeldJobs(next.held)
    && next.seen == st.seen + ArrivalJobs(r.arrivals)
    && next.lastNow == Some(r.now)
  }

  /** A hold ends exactly when it is due or its benefit is gone; new holds are offered candidates; whoever had
      candidates and is not held does not fit into its user's budget with any of them. */
  ghost predicate HoldsPart(cfg: Config, st: State, r: Request, next: State)
    requires ValidConfig(cfg) && Sound(cfg, st) && Valid(cfg, st, r)
  {
    SoundIsKnown(cfg, st);
    && (forall h :: h in st.held ==> (h in next.held <==> !Ends(cfg, h, r.states, r.now)))
    && (forall h :: h in next.held ==>
          h in st.held || exists c :: OfferedTo(cfg, r.arrivals, r.states, r.now, c) && h == HoldFor(c))
    && (forall c :: OfferedTo(cfg, r.arrivals, r.states, r.now, c) ==>
          c.job in cfg.jobs && (c.job in HeldJobs(next.held) || Overflows(cfg, next, c)))
  }

  /** The budgets are shared out greedily: an offer becomes a hold exactly when no better offer of its job does and it
      fits beside the holds kept and the holds from better offers. */
  ghost predicate GreedyPart(cfg: Config, st: State, r: Request, next: State)
    requires ValidConfig(cfg) && Sound(cfg, st) && Valid(cfg, st, r)
  {
    SoundIsKnown(cfg, st);
    var offers := AllCandidates(cfg, r.arrivals, r.states, r.now);
    && AllFinite(offers) && (forall h :: h in next.held ==> h.job in cfg.jobs)
    && (forall d :: d in offers <==> OfferedTo(cfg, r.arrivals, r.states, r.now, d))
    && (forall d :: d in offers ==> d.job in cfg.jobs && Greedy(cfg, next.spent, st.held, next.held, offers, d))
  }

  /** Spent grows by the waits that really ended; spent plus reserved grows by lateness only, up to the budget. */
  ghost predicate BudgetsPart(cfg: Config, st: State, r: Request, next: State)
    requires ValidConfig(cfg) && Sound(cfg, st) && Valid(cfg, st, r)
  {
    SoundIsKnown(cfg, st);
    && (forall u :: Get(next.spent, u) == Get(st.spent, u) + EndedWait(cfg, st.held, r.states, r.now, u))
    && (forall u :: Committed(next, u)
          <= Max(Committed(st, u) + LatenessOf(cfg, st.held, r.now, u), cfg.userBudget + BUDGET_SLACK_S))
  }

  /** Everything a valid request does: who leaves, who stays, who is held, the budgets and the next wake. */
  ghost predicate Outcome(cfg: Config, st: State, r: Request, next: State, reply: Response)
    requires ValidConfig(cfg) && Sound(cfg, st) && Valid(cfg, st, r)
  {
    && ReleasesPart(cfg, st, r, next, reply.release)
    && HoldsPart(cfg, st, r, next)
    && GreedyPart(cfg, st, r, next)
    && BudgetsPart(cfg, st, r, next)
    && reply.nextWake == NextWake(cfg, next.held, r.now)
  }

  lemma StepOutcome(cfg: Config, st: State, r: Request)
    requires ValidConfig(cfg) && Sound(cfg, st) && Valid(cfg, st, r)
    ensures Known(cfg, st)
    ensures var s := Step(cfg, st, r);
            s.Ok? && Sound(cfg, s.value.0) && Outcome(cfg, st, r, s.value.0, s.value.1)
  {
    hide ValidConfig, Sound, StepFacts, Step, Recheck, Gather, Admit, ReleaseRest, Rank, NextWake, Valid,
         ReleasesPart, HoldsPart, GreedyPart, BudgetsPart;
    SoundIsKnown(cfg, st);
    var p := StepInPhases(cfg, st, r);
    StepSound(cfg, st, r, p);
    OutcomeReleases(cfg, st, r, p);
    OutcomeHolds(cfg, st, r, p);
    OutcomeGreedy(cfg, st, r, p);
    OutcomeBudgets(cfg, st, r, p);
  }

  lemma OutcomeReleases(cfg: Config, st: State, r: Request, p: Phases)
    requires ValidConfig(cfg) && Sound(cfg, st) && Valid(cfg, st, r)
    requires StepPhases(cfg, st, r, p) && StepFacts(cfg, st, r, p)
    ensures ReleasesPart(cfg, st, r, p.final.st, p.final.output)
  {
    hide ValidConfig, AllPlanned, ReservedExact, OfferedTo, Ends, Recheck, Admit, ReleaseRest, Rank, NextWake,
         AllCandidates, AtOnce, Step, Committed, Overflows, EndedWait, LatenessOf;
    AfterKeeps(cfg, p.rechecked, r.arrivals, r.states, r.now);
    var next := p.final.st;
    NewHoldsArrived(cfg, r, p.gathered.st.held, next.held, p.ranked);
    assert HeldJobs(next.held) <= HeldJobs(st.held) + ArrivalJobs(r.arrivals);
    assert ArrivalJobs(r.arrivals) !! st.seen;
    assert next.seen == HeldJobs(next.held) + next.released;
    assert st.seen == HeldJobs(st.held) + st.released;
  }

  lemma OutcomeHolds(cfg: Config, st: State, r: Request, p: Phases)
    requires ValidConfig(cfg) && Sound(cfg, st) && Valid(cfg, st, r)
    requires StepPhases(cfg, st, r, p) && StepFacts(cfg, st, r, p)
    ensures HoldsPart(cfg, st, r, p.final.st)
  {
    hide ValidConfig, AllPlanned, ReservedExact, OfferedTo, Ends, Recheck, Admit, ReleaseRest, Rank, NextWake,
         AllCandidates, AtOnce, Step, Get, EndedWait, LatenessOf, ReserveOf;
    AfterKeeps(cfg, p.rechecked, r.arrivals, r.states, r.now);
    var next := p.final.st;
    NewHoldsArrived(cfg, r, p.gathered.st.held, next.held, p.ranked);
    forall h | h in st.held
      ensures h in next.held <==> !Ends(cfg, h, r.states, r.now)
    {
      assert h.job in HeldJobs(st.held) && h.job !in ArrivalJobs(r.arrivals);
      assert h in p.gathered.st.held <==> !Ends(cfg, h, r.states, r.now);
    }
    forall h | h in next.held && h !in st.held
      ensures exists c :: OfferedTo(cfg, r.arrivals, r.states, r.now, c) && h == HoldFor(c)
    {
      var c :| c in p.ranked && h == HoldFor(c);
      assert OfferedTo(cfg, r.arrivals, r.states, r.now, c);
    }
    forall c | OfferedTo(cfg, r.arrivals, r.states, r.now, c)
      ensures c.job in cfg.jobs && (c.job in HeldJobs(next.held) || Overflows(cfg, next, c))
    {
      assert c in p.ranked;
      if c.job !in HeldJobs(next.held) {
        assert Overflows(cfg, p.admitted, c);
      }
    }
  }

  lemma OutcomeGreedy(cfg: Config, st: State, r: Request, p: Phases)
    requires ValidConfig(cfg) && Sound(cfg, st) && Valid(cfg, st, r)
    requires StepPhases(cfg, st, r, p) && StepFacts(cfg, st, r, p)
    ensures GreedyPart(cfg, st, r, p.final.st)
  {
    hide ValidConfig, Sound, AllPlanned, ReservedExact, OfferedTo, Ends, Recheck, Admit, ReleaseRest, Rank, NextWake,
         AllCandidates, AtOnce, Step, Get, Fresh, Admitted, Books, Rechecked, Greedy, Plannable, Account, HeldJobs;
    SoundIsKnown(cfg, st);
    ValidKnown(cfg, st, r);
    var offers, next := AllCandidates(cfg, r.arrivals, r.states, r.now), p.final.st;
    OffersRanked(cfg, r.arrivals, r.states, r.now, st.seen);
    RankedPlannable(cfg, r, p.ranked);
    AfterKeeps(cfg, p.rechecked, r.arrivals, r.states, r.now);
    AdmittedFrame(cfg, p.gathered.st, p.admitted, p.ranked);
    assert next.held == p.admitted.held && next.spent == p.gathered.st.spent;
    KeptAgree(cfg, st, r, p);
    forall d | d in offers
      ensures d.job in cfg.jobs && Greedy(cfg, next.spent, st.held, next.held, offers, d)
    {
      GreedyAdmit(cfg, p.gathered.st, p.ranked, r.now, CandidateJobs(p.ranked), d);
      GreedySame(cfg, next.spent, p.gathered.st.held, st.held, next.held, p.ranked, offers, d);
    }
  }

  /** Among the holds after the step, those kept are those that were held before it. */
  lemma KeptAgree(cfg: Config, st: State, r: Request, p: Phases)
    requires ValidConfig(cfg) && Sound(cfg, st) && Valid(cfg, st, r)
    requires StepPhases(cfg, st, r, p) && StepFacts(cfg, st, r, p)
    ensures forall h :: h in p.final.st.held ==> (h in p.gathered.st.held <==> h in st.held)
    ensures forall h :: h in p.final.st.held ==> h.job in cfg.jobs
  {
    hide ValidConfig, AllPlanned, ReservedExact, OfferedTo, Ends, Recheck, Admit, ReleaseRest, Rank, NextWake,
         AllCandidates, AtOnce, Step, Get, EndedWait, LatenessOf, ReserveOf;
    AfterKeeps(cfg, p.rechecked, r.arrivals, r.states, r.now);
    NewHoldsArrived(cfg, r, p.gathered.st.held, p.final.st.held, p.ranked);
    forall h | h in p.final.st.held && h in st.held
      ensures h in p.gathered.st.held
    {
      assert h.job in HeldJobs(st.held) && h.job !in ArrivalJobs(r.arrivals);
    }
  }

  lemma OutcomeBudgets(cfg: Config, st: State, r: Request, p: Phases)
    requires ValidConfig(cfg) && Sound(cfg, st) && Valid(cfg, st, r)
    requires StepPhases(cfg, st, r, p) && StepFacts(cfg, st, r, p)
    ensures BudgetsPart(cfg, st, r, p.final.st)
  {
    hide ValidConfig, Sound, Valid, Books, OfferedTo, Ends, Recheck, Admit, ReleaseRest, Rank, NextWake,
         AllCandidates, AtOnce, Step, Get, EndedWait, LatenessOf, HeldJobs, Overflows, AfterArrivals;
    SoundIsKnown(cfg, st);
    ValidKnown(cfg, st, r);
    AfterKeeps(cfg, p.rechecked, r.arrivals, r.states, r.now);
    forall u
      ensures Get(p.final.st.spent, u) == Get(st.spent, u) + EndedWait(cfg, st.held, r.states, r.now, u)
      ensures Committed(p.final.st, u)
              <= Max(Committed(st, u) + LatenessOf(cfg, st.held, r.now, u), cfg.userBudget + BUDGET_SLACK_S)
    {
      assert Committed(p.admitted, u) <= Max(Committed(p.gathered.st, u), cfg.userBudget + BUDGET_SLACK_S);
      assert Committed(p.rechecked.st, u)
          <= Committed(st.(lastNow := Some(r.now)), u) + LatenessOf(cfg, st.held, r.now, u);
    }
  }

  lemma ValidKnown(cfg: Config, st: State, r: Request)
    requires Known(cfg, st) && Valid(cfg, st, r)
    ensures Readable(cfg, r.states) && forall a :: a in r.arrivals ==> a.job in cfg.jobs
  {
  }

  // ---------- the wake time ----------

  lemma {:induction false} EarliestIsLeast(held: seq<Hold>, default: real)
    requires held != []
    ensures forall h :: h in held ==> EarliestRelease(held, default) <= h.release
    ensures exists h :: h in held && EarliestRelease(held, default) == h.release
  {
    if |held| == 1 {
      assert held[0] in held;
    } else {
      var front, last := held[..|held| - 1], held[|held| - 1];
      EarliestIsLeast(front, default);
      assert last in held && forall h :: h in held <==> h in front || h == last;
    }
  }

  /** The next wake is the earlier of the first planned release and one tick from now, or a day when idle. */
  lemma WakeIsEarliest(cfg: Config, held: seq<Hold>, now: real)
    ensures held == [] ==> NextWake(cfg, held, now) == now + IDLE_WAKE_S
    ensures held != [] ==>
              && NextWake(cfg, held, now) <= GridPoint(cfg, now, 1)
              && (forall h :: h in held ==> NextWake(cfg, held, now) <= h.release)
              && (NextWake(cfg, held, now) == GridPoint(cfg, now, 1)
                  || exists h :: h in held && NextWake(cfg, held, now) == h.release)
  {
    if held != [] {
      EarliestIsLeast(held, now + IDLE_WAKE_S);
    }
  }

  /** The controller always asks to be woken strictly in the future. */
  lemma WakeInFuture(cfg: Config, st: State)
    requires ValidConfig(cfg) && Sound(cfg, st) && st.lastNow.Some?
    ensures NextWake(cfg, st.held, st.lastNow.value) > st.lastNow.value
  {
    WakeIsEarliest(cfg, st.held, st.lastNow.value);
    ErrorWithin(cfg, st.lastNow.value, 1);
  }

  // ---------- admission wait ----------

  lemma StepKeepsSound(cfg: Config, st: State, r: Request)
    requires ValidConfig(cfg) && Sound(cfg, st)
    ensures Known(cfg, st)
    ensures var s := Step(cfg, st, r);
            s.Ok? ==> Valid(cfg, st, r) && Sound(cfg, s.value.0) && Outcome(cfg, st, r, s.value.0, s.value.1)
  {
    hide ValidConfig, Sound, Step, Outcome, Valid;
    StepSucceedsExactly(cfg, st, r);
    if Valid(cfg, st, r) {
      StepOutcome(cfg, st, r);
    }
  }

  /** A due hold leaves at once, and no hold lasts longer than its allowance plus the step's lateness, up to the
      rounding of its planned release. */
  lemma WaitIsBounded(cfg: Config, st: State, r: Request, h: Hold)
    requires ValidConfig(cfg) && Sound(cfg, st) && Valid(cfg, st, r) && h in st.held
    ensures Known(cfg, st) && h.job in cfg.jobs && Step(cfg, st, r).Ok?
    ensures var out := Step(cfg, st, r).value.1.release;
            && (r.now >= h.release ==> h.job in out)
            && (h.job in out ==> WaitOf(h, r.now) <= Allowance(cfg, h.job) + cfg.sumSlack + Lateness(h, r.now))
  {
    hide ValidConfig, Allowance, Step, EndedWait, LatenessOf, OfferedTo, Overflows, ReservedExact;
    StepOutcome(cfg, st, r);
    var (next, reply) := Step(cfg, st, r).value;
    PlannedBounds(cfg, h);
    assert h.job in HeldJobs(st.held);
    if r.now >= h.release {
      assert h !in next.held;
      NoNewHoldForHeld(cfg, st, r, next, h);
    }
  }

  lemma NoNewHoldForHeld(cfg: Config, st: State, r: Request, next: State, h: Hold)
    requires ValidConfig(cfg) && Sound(cfg, st) && Valid(cfg, st, r) && h in st.held && h !in next.held
    requires HoldsPart(cfg, st, r, next)
    ensures h.job !in HeldJobs(next.held)
  {
    hide ValidConfig, AllPlanned, ReservedExact, OfferedTo, Ends, Overflows;
    SoundIsKnown(cfg, st);
    assert h.job in HeldJobs(st.held) && h.job in st.seen;
    if h.job in HeldJobs(next.held) {
      var x :| x in next.held && x.job == h.job;
      if x in st.held {
        SameJobSameHold(st.held, x, h);
      } else {
        var c :| OfferedTo(cfg, r.arrivals, r.states, r.now, c) && x == HoldFor(c);
        OfferedPlannable(cfg, r.arrivals, r.states, r.now, c);
      }
    }
  }

  // ---------- runs ----------

  /** A run: the requests one after the other, the released jobs concatenated. */
  ghost function Run(cfg: Config, st: State, rs: seq<Request>): Result<(State, seq<JobId>)>
    requires ValidConfig(cfg) && Sound(cfg, st)
    decreases |rs|
  {
    if rs == [] then Ok((st, []))
    else
      StepKeepsSound(cfg, st, rs[0]);
      var first :- Step(cfg, st, rs[0]);
      var rest :- Run(cfg, first.0, rs[1..]);
      Ok((rest.0, first.1.release + rest.1))
  }

  /** How late the user's planned releases were, over the run. */
  ghost function RunLateness(cfg: Config, st: State, rs: seq<Request>, u: User): real
    requires ValidConfig(cfg) && Sound(cfg, st) && Run(cfg, st, rs).Ok?
    decreases |rs|
  {
    if rs == [] then 0.0
    else
      StepKeepsSound(cfg, st, rs[0]);
      LatenessOf(cfg, st.held, rs[0].now, u) + RunLateness(cfg, Step(cfg, st, rs[0]).value.0, rs[1..], u)
  }

  /** The admission wait the user's jobs really had, over the run. */
  ghost function RunWait(cfg: Config, st: State, rs: seq<Request>, u: User): real
    requires ValidConfig(cfg) && Sound(cfg, st) && Run(cfg, st, rs).Ok?
    decreases |rs|
  {
    if rs == [] then 0.0
    else
      StepKeepsSound(cfg, st, rs[0]);
      EndedWait(cfg, st.held, rs[0].states, rs[0].now, u) + RunWait(cfg, Step(cfg, st, rs[0]).value.0, rs[1..], u)
  }

  /** Every step comes no later than the wake time the previous reply asked for. */
  ghost predicate Timely(cfg: Config, st: State, rs: seq<Request>)
    requires ValidConfig(cfg) && Sound(cfg, st) && Run(cfg, st, rs).Ok?
    decreases |rs|
  {
    rs == []
    || (StepKeepsSound(cfg, st, rs[0]);
        && (st.lastNow.Some? ==> rs[0].now <= NextWake(cfg, st.held, st.lastNow.value))
        && Timely(cfg, Step(cfg, st, rs[0]).value.0, rs[1..]))
  }

  lemma {:induction false} LatenessOfBounds(cfg: Config, holds: seq<Hold>, now: real, u: User)
    requires forall h :: h in holds ==> h.job in cfg.jobs
    ensures LatenessOf(cfg, holds, now, u) >= 0.0
    ensures (forall h :: h in holds ==> now <= h.release) ==> LatenessOf(cfg, holds, now, u) == 0.0
  {
    if holds != [] {
      LatenessOfBounds(cfg, holds[1..], now, u);
      LatenessNonNegative(holds[0], now);
      assert forall h :: h in holds[1..] ==> h in holds;
    }
  }

  /** Over any run: no job is released twice, `spent` is exactly the waits that ended, and what a user has spent and
      reserved exceeds the budget by the summed lateness at most. */
  lemma {:induction false} RunKeeps(cfg: Config, st: State, rs: seq<Request>, u: User)
    requires ValidConfig(cfg) && Sound(cfg, st) && Run(cfg, st, rs).Ok?
    ensures var (final, outputs) := Run(cfg, st, rs).value;
            && Sound(cfg, final)
            && NoDuplicates(outputs) && Elements(outputs) !! st.released
            && final.released == st.released + Elements(outputs)
            && Get(final.spent, u) == Get(st.spent, u) + RunWait(cfg, st, rs, u)
            && Committed(final, u)
                 <= Max(Committed(st, u), cfg.userBudget + BUDGET_SLACK_S) + RunLateness(cfg, st, rs, u)
            && RunLateness(cfg, st, rs, u) >= 0.0
    decreases |rs|
  {
    hide ValidConfig, Sound, Step, LatenessOf, EndedWait, Get, NoDuplicates, HoldsPart, Valid;
    if rs == [] {
      assert Elements([]) == {};
      assert NoDuplicates([]) by {
        EmptyNoDuplicates();
      }
    } else {
      StepKeepsSound(cfg, st, rs[0]);
      SoundIsKnown(cfg, st);
      var (next, reply) := Step(cfg, st, rs[0]).value;
      RunKeeps(cfg, next, rs[1..], u);
      LatenessOfBounds(cfg, st.held, rs[0].now, u);
      var outputs := Run(cfg, next, rs[1..]).value.1;
      ReleasedOnce(cfg, st, rs[0], next, reply);
      ElementsAdd(reply.release, outputs);
      JoinNoDuplicates(reply.release, outputs);
    }
  }

  lemma EmptyNoDuplicates()
    ensures NoDuplicates([])
  {
  }

  lemma ReleasedOnce(cfg: Config, st: State, r: Request, next: State, reply: Response)
    requires ValidConfig(cfg) && Sound(cfg, st) && Valid(cfg, st, r)
    requires ReleasesPart(cfg, st, r, next, reply.release)
    ensures NoDuplicates(reply.release) && Elements(reply.release) !! st.released
  {
    hide ValidConfig, AllPlanned, ReservedExact;
    assert ArrivalJobs(r.arrivals) !! st.seen;
  }

  lemma {:induction false} TimelyMeansNoLateness(cfg: Config, st: State, rs: seq<Request>, u: User)
    requires ValidConfig(cfg) && Sound(cfg, st) && Run(cfg, st, rs).Ok? && Timely(cfg, st, rs)
    ensures RunLateness(cfg, st, rs, u) == 0.0
    decreases |rs|
  {
    hide ValidConfig, Step, LatenessOf, NextWake, Account, Outcome;
    if rs != [] {
      StepKeepsSound(cfg, st, rs[0]);
      SoundIsKnown(cfg, st);
      TimelyMeansNoLateness(cfg, Step(cfg, st, rs[0]).value.0, rs[1..], u);
      if st.lastNow.Some? {
        WakeIsEarliest(cfg, st.held, st.lastNow.value);
      }
      LatenessOfBounds(cfg, st.held, rs[0].now, u);
    }
  }

  lemma {:induction false} ReservedNonNegative(cfg: Config, held: seq<Hold>, u: User)
    requires ValidConfig(cfg) && AllPlanned(cfg, held)
    ensures ReservedOf(cfg, held, u) >= 0.0
  {
    if held != [] {
      var h, front := held[|held| - 1], held[..|held| - 1];
      PlannedBounds(cfg, h);
      ReservedNonNegative(cfg, front, u);
    }
  }

  /** A whole run from the start: every seen job is held or was released exactly once, and the admission wait of a
      user's jobs stays within the user's budget plus the lateness of the polling, which is zero when no step comes
      later than the wake time the controller asked for. */
  lemma WholeRun(cfg: Config, rs: seq<Request>, u: User)
    requires ValidConfig(cfg)
    ensures Sound(cfg, START)
    ensures var run := Run(cfg, START, rs);
            run.Ok? ==>
              var (final, outputs) := run.value;
              && NoDuplicates(outputs)
              && final.seen == HeldJobs(final.held) + Elements(outputs)
              && HeldJobs(final.held) !! Elements(outputs)
              && (forall h :: h in final.held ==> h.job in cfg.jobs)
              && RunWait(cfg, START, rs, u) + ReservedOf(cfg, final.held, u)
                   <= Max(0.0, cfg.userBudget + BUDGET_SLACK_S) + RunLateness(cfg, START, rs, u)
              && ReservedOf(cfg, final.held, u) >= 0.0
              && (Timely(cfg, START, rs) ==> RunLateness(cfg, START, rs, u) == 0.0)
  {
    hide ValidConfig, Run, RunWait, RunLateness, Timely, ReservedOf;
    StartIsSound(cfg);
    if Run(cfg, START, rs).Ok? {
      RunKeeps(cfg, START, rs, u);
      var final := Run(cfg, START, rs).value.0;
      ReservedNonNegative(cfg, final.held, u);
      assert Get(final.reserved, u) == ReservedOf(cfg, final.held, u);
      if Timely(cfg, START, rs) {
        TimelyMeansNoLateness(cfg, START, rs, u);
      }
    }
  }
}
