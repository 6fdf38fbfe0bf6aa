/** Ranked admission under the user budgets, the releases that follow, and the step as a whole. */
module ControllerBudget {
  import opened Basics
  import opened Selection
  import opened Controller
  import opened ControllerBooks
  import opened ControllerStep

  // ---------- phase 3: ranked candidates compete for the user's budget ----------

  function ReserveOf(c: Candidate): real {
    c.option.release - c.arrived
  }

  /** The budget refuses candidate c in state st. */
  predicate Overflows(cfg: Config, st: State, c: Candidate)
    requires c.job in cfg.jobs
  {
    Committed(st, cfg.jobs[c.job].user) + ReserveOf(c) > cfg.userBudget + BUDGET_SLACK_S
  }

  function HoldFor(c: Candidate): Hold {
    Hold(c.job, c.arrived, c.option.release, ReserveOf(c))
  }

  /** A candidate on its job's release grid, planned for later than `now`. */
  ghost predicate Plannable(cfg: Config, now: real, c: Candidate)
    requires ValidConfig(cfg)
  {
    c.job in cfg.jobs && c.option.release > now && OnGrid(cfg, c.job, c.arrived, c.option.release)
  }

  lemma PlannableReserve(cfg: Config, now: real, c: Candidate)
    requires ValidConfig(cfg) && Plannable(cfg, now, c)
    ensures Planned(cfg, HoldFor(c)) && ReserveOf(c) > 0.0
  {
    PlannedBounds(cfg, HoldFor(c));
  }

  /** One candidate: already held, refused by the budget, or held now. */
  lemma AdmitOneEffect(cfg: Config, st: State, c: Candidate, now: real, limbo: set<JobId>)
    requires ValidConfig(cfg) && Account(cfg, st, limbo) && Plannable(cfg, now, c)
    requires c.job in limbo || c.job in HeldJobs(st.held)
    ensures var r := AdmitOne(cfg, st, c);
            && Account(cfg, r, limbo - HeldJobs(r.held))
            && r == st.(held := r.held, reserved := r.reserved)
            && (r.held == st.held || (c.job !in HeldJobs(st.held) && r.held == st.held + [HoldFor(c)]))
            && (c.job in HeldJobs(r.held) || Overflows(cfg, r, c))
            && (forall u :: Committed(st, u) <= Committed(r, u)
                  <= Max(Committed(st, u), cfg.userBudget + BUDGET_SLACK_S))
  {
    hide ValidConfig, OnGrid, ReservedOf, Get, Add;
    var r := AdmitOne(cfg, st, c);
    PlannableReserve(cfg, now, c);
    AppendHeldJobs(st.held, HoldFor(c));
    if r.held == st.held {
      assert limbo - HeldJobs(r.held) == limbo;
    } else {
      assert r.held == st.held + [HoldFor(c)];
      assert forall h :: h in r.held <==> h in st.held || h == HoldFor(c);
      assert Distinct(r.held) by {
        assert forall h :: h in st.held ==> h.job in HeldJobs(st.held);
      }
      assert Partition(cfg, r, limbo - HeldJobs(r.held));
    }
    forall u
      ensures Get(r.reserved, u) == ReservedOf(cfg, r.held, u)
      ensures Committed(st, u) <= Committed(r, u) <= Max(Committed(st, u), cfg.userBudget + BUDGET_SLACK_S)
    {
      assert Get(st.reserved, u) == ReservedOf(cfg, st.held, u);
      AppendReserved(cfg, st.held, HoldFor(c), u);
      GetAdd(st.reserved, cfg.jobs[c.job].user, ReserveOf(c), u);
    }
  }

  /** What the whole ranked pass does to the state. */
  ghost predicate Admitted(cfg: Config, st: State, r: State, ranked: seq<Candidate>)
    requires forall c :: c in ranked ==> c.job in cfg.jobs
  {
    && r == st.(held := r.held, reserved := r.reserved)
    && st.held <= r.held
    && (forall h :: h in r.held ==> h in st.held || exists c :: c in ranked && h == HoldFor(c))
    && (forall c :: c in ranked ==> c.job in HeldJobs(r.held) || Overflows(cfg, r, c))
    && (forall u :: Committed(st, u) <= Committed(r, u)
          <= Max(Committed(st, u), cfg.userBudget + BUDGET_SLACK_S))
  }

  lemma {:induction false} AdmitEffect(cfg: Config, st: State, ranked: seq<Candidate>, now: real, limbo: set<JobId>)
    requires ValidConfig(cfg) && Account(cfg, st, limbo)
    requires forall c :: c in ranked ==> Plannable(cfg, now, c)
    requires forall c :: c in ranked ==> c.job in limbo || c.job in HeldJobs(st.held)
    ensures var r := Admit(cfg, st, ranked);
            Admitted(cfg, st, r, ranked) && Account(cfg, r, limbo - HeldJobs(r.held))
    decreases |ranked|
  {
    hide ValidConfig, OnGrid, AdmitOne, Account, Committed;
    if ranked == [] {
      AccountLimbo(cfg, st, limbo);
    } else {
      var c, rest := ranked[0], ranked[1..];
      AdmitOneEffect(cfg, st, c, now, limbo);
      var next := AdmitOne(cfg, st, c);
      AppendHeldJobs(st.held, HoldFor(c));
      AdmitEffect(cfg, next, rest, now, limbo - HeldJobs(next.held));
      var r := Admit(cfg, next, rest);
      HeldJobsGrow(next.held, r.held);
      assert limbo - HeldJobs(next.held) - HeldJobs(r.held) == limbo - HeldJobs(r.held);
      assert ranked == [c] + rest;
      AdmittedJoin(cfg, st, c, rest, next, r);
    }
  }

  lemma AdmittedJoin(cfg: Config, st: State, c: Candidate, rest: seq<Candidate>, next: State, r: State)
    requires c.job in cfg.jobs && forall x :: x in rest ==> x.job in cfg.jobs
    requires next == st.(held := next.held, reserved := next.reserved)
    requires next.held == st.held || next.held == st.held + [HoldFor(c)]
    requires c.job in HeldJobs(next.held) || Overflows(cfg, next, c)
    requires forall u :: Committed(st, u) <= Committed(next, u)
                           <= Max(Committed(st, u), cfg.userBudget + BUDGET_SLACK_S)
    requires Admitted(cfg, next, r, rest)
    ensures Admitted(cfg, st, r, [c] + rest)
  {
    hide Committed, ReserveOf;
    HeldJobsGrow(next.held, r.held);
    var ranked := [c] + rest;
    assert forall x :: x in ranked <==> x == c || x in rest;
    assert st.held <= next.held <= r.held;
    forall h | h in r.held
      ensures h in st.held || exists x :: x in ranked && h == HoldFor(x)
    {
      if h in next.held && h !in st.held {
        assert c in ranked && h == HoldFor(c);
      } else if h !in next.held {
        var x :| x in rest && h == HoldFor(x);
        assert x in ranked;
      }
    }
  }

  lemma HeldJobsGrow(a: seq<Hold>, b: seq<Hold>)
    requires a <= b
    ensures HeldJobs(a) <= HeldJobs(b)
  {
    assert forall h :: h in a ==> h in b;
  }

  lemma AccountLimbo(cfg: Config, st: State, limbo: set<JobId>)
    requires ValidConfig(cfg) && Account(cfg, st, limbo)
    ensures limbo - HeldJobs(st.held) == limbo
  {
  }

  // ---------- phase 4: candidates that found no budget ----------

  lemma {:induction false} ReleaseRestEffect(
    cfg: Config, w: Work, ranked: seq<Candidate>, now: real, before: set<JobId>, limbo: set<JobId>)
    requires ValidConfig(cfg) && Books(cfg, before, w, limbo)
    requires forall c :: c in ranked ==> c.job in cfg.jobs
    requires limbo <= CandidateJobs(ranked)
    requires forall c :: c in ranked ==> c.job in limbo || c.job in HeldJobs(w.st.held) || c.job in w.output
    ensures var r := ReleaseRest(cfg, w, ranked, now);
            && r.Ok? && Books(cfg, before, r.value, {})
            && r.value.st == w.st.(released := w.st.released + limbo)
            && w.output <= r.value.output && Elements(r.value.output) == Elements(w.output) + limbo
    decreases |ranked|
  {
    hide ValidConfig, Books, ReleaseJob, HeldJobs;
    if ranked == [] {
      assert limbo == {} && w.st.released + limbo == w.st.released;
    } else {
      var c, rest := ranked[0], ranked[1..];
      assert ranked == [c] + rest;
      CandidateJobsAdd([c], rest);
      assert CandidateJobs([c]) == {c.job};
      BooksSplit(cfg, before, w, limbo);
      if c.job in HeldJobs(w.st.held) || c.job in w.output {
        ReleaseRestEffect(cfg, w, rest, now, before, limbo);
      } else {
        ReleaseUnheld(cfg, w, c.job, now, before, limbo);
        var next := ReleaseJob(cfg, w, c.job, now).value;
        assert c.job in next.output && forall j :: j in next.output <==> j in w.output || j == c.job;
        assert Elements(next.output) == Elements(w.output) + {c.job};
        ReleaseRestEffect(cfg, next, rest, now, before, limbo - {c.job});
        assert w.st.released + {c.job} + (limbo - {c.job}) == w.st.released + limbo;
      }
    }
  }

  lemma BooksSplit(cfg: Config, before: set<JobId>, w: Work, limbo: set<JobId>)
    requires ValidConfig(cfg) && Books(cfg, before, w, limbo)
    ensures limbo !! HeldJobs(w.st.held) && limbo !! Elements(w.output)
    ensures HeldJobs(w.st.held) !! Elements(w.output)
    ensures w.st.seen == HeldJobs(w.st.held) + w.st.released + limbo
    ensures w.st.released == before + Elements(w.output)
  {
  }

  // ---------- the step ----------

  /** What the controller demands of a request. */
  ghost predicate Valid(cfg: Config, st: State, r: Request) {
    && (st.lastNow.Some? ==> st.lastNow.value <= r.now)
    && (forall s :: s in r.states ==> s.id in st.released)
    && Fresh(cfg, st.seen, r.arrivals)
  }

  /** The intermediate results of a step on a valid request. */
  datatype Phases = Phases(rechecked: Work, gathered: Work, ranked: seq<Candidate>, admitted: State, final: Work)

  ghost predicate StepPhases(cfg: Config, st: State, r: Request, p: Phases)
    requires ValidConfig(cfg) && Sound(cfg, st) && Valid(cfg, st, r)
  {
    SoundIsKnown(cfg, st);
    var cs := AllCandidates(cfg, r.arrivals, r.states, r.now);
    && Recheck(cfg, Work(st.(lastNow := Some(r.now)), []), st.held, r.states, r.now) == Ok(p.rechecked)
    && p.gathered == AfterArrivals(cfg, p.rechecked, r.arrivals, r.states, r.now)
    && p.ranked == Rank(cs)
    && (forall c :: c in p.ranked ==> c.job in cfg.jobs)
    && p.admitted == Admit(cfg, p.gathered.st, p.ranked)
    && ReleaseRest(cfg, p.gathered.(st := p.admitted), p.ranked, r.now) == Ok(p.final)
    && Step(cfg, st, r) == Ok((p.final.st, Response(p.final.output, NextWake(cfg, p.final.st.held, r.now))))
  }

  /** What the four phases establish, in order. */
  ghost predicate StepFacts(cfg: Config, st: State, r: Request, p: Phases)
    requires ValidConfig(cfg) && Sound(cfg, st) && Valid(cfg, st, r) && StepPhases(cfg, st, r, p)
  {
    SoundIsKnown(cfg, st);
    var limbo := CandidateJobs(p.ranked) - HeldJobs(p.admitted.held);
    && Books(cfg, st.released, p.final, {})
    && Rechecked(cfg, Work(st.(lastNow := Some(r.now)), []), p.rechecked, st.held, r.states, r.now)
    && Account(cfg, p.gathered.st, CandidateJobs(p.ranked))
    && Admitted(cfg, p.gathered.st, p.admitted, p.ranked)
    && p.final.st == p.admitted.(released := p.admitted.released + limbo)
    && p.final.st.seen == st.seen + ArrivalJobs(r.arrivals)
    && (forall c :: c in p.ranked <==> OfferedTo(cfg, r.arrivals, r.states, r.now, c))
  }

  lemma SoundStart(cfg: Config, st: State, now: real)
    requires ValidConfig(cfg) && Sound(cfg, st)
    ensures Books(cfg, st.released, Work(st.(lastNow := Some(now)), []), {})
    ensures Distinct(st.held)
  {
    hide ValidConfig, AllPlanned;
    var w := Work(st.(lastNow := Some(now)), []);
    assert ReservedExact(cfg, w.st) by {
      forall u ensures Get(w.st.reserved, u) == ReservedOf(cfg, w.st.held, u) {
        assert Get(st.reserved, u) == ReservedOf(cfg, st.held, u);
      }
    }
    assert Elements([]) == {};
  }

  lemma OfferedPlannable(cfg: Config, arrivals: seq<Arrival>, states: seq<Observation>, now: real, c: Candidate)
    requires ValidConfig(cfg) && Readable(cfg, states) && forall a :: a in arrivals ==> a.job in cfg.jobs
    requires OfferedTo(cfg, arrivals, states, now, c)
    ensures Plannable(cfg, now, c) && c.job in ArrivalJobs(arrivals)
  {
    hide ValidConfig, OnGrid, OptionAt, Backlog, Feasible;
  }

  lemma SameElementsSameJobs(a: seq<Candidate>, b: seq<Candidate>)
    requires forall c :: c in a <==> c in b
    ensures CandidateJobs(a) == CandidateJobs(b)
  {
  }

  /** A valid request never fails, and its four phases do what each of them promises. */
  lemma StepInPhases(cfg: Config, st: State, r: Request) returns (p: Phases)
    requires ValidConfig(cfg) && Sound(cfg, st) && Valid(cfg, st, r)
    ensures StepPhases(cfg, st, r, p) && StepFacts(cfg, st, r, p)
  {
    hide ValidConfig, Sound, Books, Rechecked, Recheck, Gather, Admit, Admitted, ReleaseRest, Rank, AllCandidates,
         AtOnce, OfferedTo, Plannable, NextWake, CandidateJobs, HeldJobs, Account;
    SoundIsKnown(cfg, st);
    SoundStart(cfg, st, r.now);
    SeenCoversHeld(cfg, st);
    var w0 := Work(st.(lastNow := Some(r.now)), []);
    RecheckEffect(cfg, w0, st.held, r.states, r.now, st.released);
    var w1 := Recheck(cfg, w0, st.held, r.states, r.now).value;
    RecheckedSeen(cfg, w0, w1, st.held, r.states, r.now);
    BooksSplit(cfg, st.released, w1, {});
    GatherForm(cfg, Gathered(w1, []), r.arrivals, r.states, r.now);
    GatherBooks(cfg, w1, r.arrivals, r.states, r.now, st.released);
    var cs := AllCandidates(cfg, r.arrivals, r.states, r.now);
    assert [] + cs == cs;
    AllCandidatesExactly(cfg, r.arrivals, r.states, r.now);
    RankSameElements(cs);
    var w2, ranked := AfterArrivals(cfg, w1, r.arrivals, r.states, r.now), Rank(cs);
    SameElementsSameJobs(cs, ranked);
    RankedPlannable(cfg, r, ranked);
    var limbo := CandidateJobs(ranked);
    BooksAccount(cfg, st.released, w2, limbo);
    AdmitEffect(cfg, w2.st, ranked, r.now, limbo);
    var st3 := Admit(cfg, w2.st, ranked);
    AdmittedBooks(cfg, st.released, w2, st3, ranked, limbo);
    AdmittedFrame(cfg, w2.st, st3, ranked);
    ReleaseRestEffect(cfg, w2.(st := st3), ranked, r.now, st.released, limbo - HeldJobs(st3.held));
    p := Phases(w1, w2, ranked, st3, ReleaseRest(cfg, w2.(st := st3), ranked, r.now).value);
  }

  lemma SeenCoversHeld(cfg: Config, st: State)
    requires ValidConfig(cfg) && Sound(cfg, st)
    ensures st.released <= cfg.jobs.Keys && forall h :: h in st.held ==> h.job in cfg.jobs
  {
  }

  lemma RecheckedSeen(cfg: Config, w: Work, r: Work, holds: seq<Hold>, states: seq<Observation>, now: real)
    requires ValidConfig(cfg) && (forall h :: h in holds ==> h.job in cfg.jobs)
    requires forall s :: s in states ==> s.id in cfg.jobs
    requires Rechecked(cfg, w, r, holds, states, now)
    ensures r.st.seen == w.st.seen
  {
  }

  lemma RankedPlannable(cfg: Config, r: Request, ranked: seq<Candidate>)
    requires ValidConfig(cfg) && Readable(cfg, r.states) && forall a :: a in r.arrivals ==> a.job in cfg.jobs
    requires forall c :: c in ranked ==> OfferedTo(cfg, r.arrivals, r.states, r.now, c)
    ensures forall c :: c in ranked ==> Plannable(cfg, r.now, c) && c.job in cfg.jobs
    ensures forall c :: c in ranked ==> c.job in CandidateJobs(ranked)
  {
    forall c | c in ranked
      ensures Plannable(cfg, r.now, c) && c.job in cfg.jobs
    {
      OfferedPlannable(cfg, r.arrivals, r.states, r.now, c);
    }
  }

  lemma BooksAccount(cfg: Config, before: set<JobId>, w: Work, limbo: set<JobId>)
    requires ValidConfig(cfg) && Books(cfg, before, w, limbo)
    ensures Account(cfg, w.st, limbo)
  {
  }

  lemma AdmittedFrame(cfg: Config, st: State, r: State, ranked: seq<Candidate>)
    requires forall c :: c in ranked ==> c.job in cfg.jobs
    requires Admitted(cfg, st, r, ranked)
    ensures r == st.(held := r.held, reserved := r.reserved)
  {
  }

  lemma AdmittedBooks(cfg: Config, before: set<JobId>, w: Work, st: State, ranked: seq<Candidate>, limbo: set<JobId>)
    requires ValidConfig(cfg) && Books(cfg, before, w, limbo) && forall c :: c in ranked ==> c.job in cfg.jobs
    requires Admitted(cfg, w.st, st, ranked) && Account(cfg, st, limbo - HeldJobs(st.held))
    requires limbo == CandidateJobs(ranked)
    ensures Books(cfg, before, w.(st := st), limbo - HeldJobs(st.held))
    ensures limbo - HeldJobs(st.held) <= CandidateJobs(ranked)
    ensures forall c :: c in ranked ==> c.job in limbo - HeldJobs(st.held) || c.job in HeldJobs(st.held)
  {
    hide Account;
  }
}
