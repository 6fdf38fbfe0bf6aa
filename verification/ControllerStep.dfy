/** The four phases of a controller step, and what a whole step keeps and does. */
module ControllerStep {
  import opened Intensity
  import opened Selection
  import opened Controller
  import opened ControllerBooks

  // ---------- phase 1: outstanding holds ----------

  /** How late the user's due holds are at `now`. */
  function LatenessOf(cfg: Config, holds: seq<Hold>, now: real, u: User): real
    requires forall h :: h in holds ==> h.job in cfg.jobs
  {
    if holds == [] then 0.0
    else (if cfg.jobs[holds[0].job].user == u then Lateness(holds[0], now) else 0.0)
         + LatenessOf(cfg, holds[1..], now, u)
  }

  /** The admission wait of the user's holds that end at `now`. */
  function EndedWait(cfg: Config, holds: seq<Hold>, states: seq<Observation>, now: real, u: User): real
    requires ValidConfig(cfg) && (forall h :: h in holds ==> h.job in cfg.jobs)
    requires forall s :: s in states ==> s.id in cfg.jobs
  {
    if holds == [] then 0.0
    else (if cfg.jobs[holds[0].job].user == u && Ends(cfg, holds[0], states, now) then WaitOf(holds[0], now) else 0.0)
         + EndedWait(cfg, holds[1..], states, now, u)
  }

  /** What the recheck leaves: it ends exactly the holds among `holds` that are due or useless. */
  ghost predicate Rechecked(cfg: Config, w: Work, r: Work, holds: seq<Hold>, states: seq<Observation>, now: real)
    requires ValidConfig(cfg) && (forall h :: h in holds ==> h.job in cfg.jobs)
    requires forall s :: s in states ==> s.id in cfg.jobs
  {
    && r.st.seen == w.st.seen && r.st.lastNow == w.st.lastNow
    && (forall h :: h in r.st.held <==> h in w.st.held && !(h in holds && Ends(cfg, h, states, now)))
    && (forall u :: Committed(r.st, u) <= Committed(w.st, u) + LatenessOf(cfg, holds, now, u))
    && (forall u :: Get(r.st.spent, u) == Get(w.st.spent, u) + EndedWait(cfg, holds, states, now, u))
  }

  lemma OtherHoldsStay(held: seq<Hold>, holds: seq<Hold>)
    requires Distinct(holds) && holds != [] && forall h :: h in holds ==> h in held
    ensures Distinct(holds[1..])
    ensures forall h :: h in holds[1..] ==> h in Without(held, holds[0].job)
    ensures forall h :: h in holds <==> h == holds[0] || h in holds[1..]
    ensures holds[0] !in holds[1..]
  {
    WithoutElements(held, holds[0].job);
    assert holds == [holds[0]] + holds[1..];
  }

  lemma SameJobSameHold(held: seq<Hold>, a: Hold, b: Hold)
    requires Distinct(held) && a in held && b in held && a.job == b.job
    ensures a == b
  {
    var i, j :| 0 <= i < |held| && 0 <= j < |held| && held[i] == a && held[j] == b;
  }

  lemma {:induction false} RecheckEffect(
    cfg: Config, w: Work, holds: seq<Hold>, states: seq<Observation>, now: real, before: set<JobId>)
    requires ValidConfig(cfg) && (forall s :: s in states ==> s.id in cfg.jobs)
    requires Books(cfg, before, w, {}) && Distinct(holds) && (forall h :: h in holds ==> h in w.st.held)
    requires forall h :: h in holds ==> h.job in cfg.jobs
    ensures var r := Recheck(cfg, w, holds, states, now);
            r.Ok? && Books(cfg, before, r.value, {}) && Rechecked(cfg, w, r.value, holds, states, now)
    decreases |holds|
  {
    hide ValidConfig, Books, Ends, ReleaseJob, Committed, Lateness, Without, WaitOf, Get;
    if holds != [] {
      var h := holds[0];
      OtherHoldsStay(w.st.held, holds);
      if Ends(cfg, h, states, now) {
        ReleaseHeld(cfg, w, h, now, before, {});
        var next := ReleaseJob(cfg, w, h.job, now).value;
        RecheckEffect(cfg, next, holds[1..], states, now, before);
        WithoutElements(w.st.held, h.job);
        forall x | x in w.st.held && x.job == h.job
          ensures x == h
        {
          BooksDistinct(cfg, before, w, {});
          SameJobSameHold(w.st.held, x, h);
        }
      } else {
        RecheckEffect(cfg, w, holds[1..], states, now, before);
        LatenessNonNegative(h, now);
      }
    }
  }

  lemma BooksDistinct(cfg: Config, before: set<JobId>, w: Work, limbo: set<JobId>)
    requires ValidConfig(cfg) && Books(cfg, before, w, limbo)
    ensures Distinct(w.st.held)
  {
  }

  lemma LatenessNonNegative(h: Hold, now: real)
    ensures Lateness(h, now) >= 0.0
    ensures now <= h.release ==> Lateness(h, now) == 0.0
  {
  }

  // ---------- phase 2: arrivals ----------

  /** The arrivals a step accepts: known, not seen before, each once. */
  ghost predicate Fresh(cfg: Config, seen: set<JobId>, arrivals: seq<Arrival>) {
    && (forall a :: a in arrivals ==> a.job in cfg.jobs && a.job !in seen)
    && OncePerJob(arrivals)
  }

  predicate OncePerJob(arrivals: seq<Arrival>) {
    forall i, j :: 0 <= i < j < |arrivals| ==> arrivals[i].job != arrivals[j].job
  }

  function ArrivalJobs(arrivals: seq<Arrival>): set<JobId> {
    set a | a in arrivals :: a.job
  }

  predicate Readable(cfg: Config, states: seq<Observation>) {
    forall s :: s in states ==> s.id in cfg.jobs
  }

  /** Arrivals with nothing to hold for: released at once, in arrival order. */
  function AtOnce(cfg: Config, arrivals: seq<Arrival>, states: seq<Observation>, now: real): seq<JobId>
    requires ValidConfig(cfg) && Readable(cfg, states) && forall a :: a in arrivals ==> a.job in cfg.jobs
  {
    if arrivals == [] then []
    else (if CandidatesOf(cfg, arrivals[0], states, now) == [] then [arrivals[0].job] else [])
         + AtOnce(cfg, arrivals[1..], states, now)
  }

  function AllCandidates(cfg: Config, arrivals: seq<Arrival>, states: seq<Observation>, now: real): seq<Candidate>
    requires ValidConfig(cfg) && Readable(cfg, states) && forall a :: a in arrivals ==> a.job in cfg.jobs
  {
    if arrivals == [] then []
    else CandidatesOf(cfg, arrivals[0], states, now) + AllCandidates(cfg, arrivals[1..], states, now)
  }

  function AfterArrivals(cfg: Config, w: Work, arrivals: seq<Arrival>, states: seq<Observation>, now: real): Work
    requires ValidConfig(cfg) && Readable(cfg, states) && forall a :: a in arrivals ==> a.job in cfg.jobs
  {
    var out := AtOnce(cfg, arrivals, states, now);
    Work(w.st.(seen := w.st.seen + ArrivalJobs(arrivals), released := w.st.released + Elements(out)), w.output + out)
  }

  predicate Unseen(st: State, job: JobId) {
    job !in st.seen && job !in st.released && job !in HeldJobs(st.held)
  }

  lemma SingleArrival(cfg: Config, a: Arrival, states: seq<Observation>, now: real)
    requires ValidConfig(cfg) && Readable(cfg, states) && a.job in cfg.jobs
    ensures AllCandidates(cfg, [a], states, now) == CandidatesOf(cfg, a, states, now)
    ensures AtOnce(cfg, [a], states, now) == if CandidatesOf(cfg, a, states, now) == [] then [a.job] else []
  {
    hide ValidConfig, CandidatesOf;
    assert [a][1..] == [];
    assert AtOnce(cfg, [], states, now) == [] && AllCandidates(cfg, [], states, now) == [];
  }

  lemma TakeArrivalForm(cfg: Config, g: Gathered, a: Arrival, states: seq<Observation>, now: real)
    requires ValidConfig(cfg) && Readable(cfg, states) && a.job in cfg.jobs && Unseen(g.work.st, a.job)
    ensures TakeArrival(cfg, g, a, states, now)
            == Ok(Gathered(AfterArrivals(cfg, g.work, [a], states, now),
                           g.candidates + AllCandidates(cfg, [a], states, now)))
  {
    hide ValidConfig, CandidatesOf;
    HoldOfFinds(g.work.st.held, a.job);
    assert ArrivalJobs([a]) == {a.job} by {
      assert a in [a];
    }
    SingleArrival(cfg, a, states, now);
    assert g.candidates + [] == g.candidates;
    if CandidatesOf(cfg, a, states, now) == [] {
      assert Elements([a.job]) == {a.job};
    } else {
      assert Elements([]) == {} && g.work.st.released + {} == g.work.st.released;
      assert g.work.output + [] == g.work.output;
    }
  }

  lemma AfterArrivalsJoin(cfg: Config, w: Work, a: Arrival, rest: seq<Arrival>, states: seq<Observation>, now: real)
    requires ValidConfig(cfg) && Readable(cfg, states)
    requires a.job in cfg.jobs && forall x :: x in rest ==> x.job in cfg.jobs
    ensures AfterArrivals(cfg, AfterArrivals(cfg, w, [a], states, now), rest, states, now)
            == AfterArrivals(cfg, w, [a] + rest, states, now)
    ensures AllCandidates(cfg, [a], states, now) + AllCandidates(cfg, rest, states, now)
            == AllCandidates(cfg, [a] + rest, states, now)
  {
    hide ValidConfig, CandidatesOf, AtOnce, AllCandidates, ArrivalJobs, Elements;
    ArrivalJobsCons(a, rest);
    ArrivalJobsCons(a, []);
    NoArrivalJobs();
    assert [a] + [] == [a];
    FirstArrival(cfg, a, rest, states, now);
    var first, others := AtOnce(cfg, [a], states, now), AtOnce(cfg, rest, states, now);
    ElementsAdd(first, others);
    assert w.st.seen + {a.job} + ArrivalJobs(rest) == w.st.seen + ({a.job} + ArrivalJobs(rest));
    assert w.st.released + Elements(first) + Elements(others) == w.st.released + (Elements(first) + Elements(others));
    assert w.output + first + others == w.output + (first + others);
  }

  lemma NoArrivalJobs()
    ensures ArrivalJobs([]) == {}
  {
  }

  lemma FirstArrival(cfg: Config, a: Arrival, rest: seq<Arrival>, states: seq<Observation>, now: real)
    requires ValidConfig(cfg) && Readable(cfg, states)
    requires a.job in cfg.jobs && forall x :: x in rest ==> x.job in cfg.jobs
    ensures AtOnce(cfg, [a] + rest, states, now) == AtOnce(cfg, [a], states, now) + AtOnce(cfg, rest, states, now)
    ensures AllCandidates(cfg, [a] + rest, states, now)
            == AllCandidates(cfg, [a], states, now) + AllCandidates(cfg, rest, states, now)
  {
    hide ValidConfig, CandidatesOf;
    assert ([a] + rest)[1..] == rest;
    SingleArrival(cfg, a, states, now);
  }

  lemma ArrivalJobsCons(a: Arrival, rest: seq<Arrival>)
    ensures ArrivalJobs([a] + rest) == {a.job} + ArrivalJobs(rest)
  {
    assert forall x :: x in [a] + rest <==> x == a || x in rest;
    forall j | j in {a.job} + ArrivalJobs(rest)
      ensures j in ArrivalJobs([a] + rest)
    {
      if j == a.job {
        assert a in [a] + rest;
      } else {
        var x :| x in rest && x.job == j;
        assert x in [a] + rest;
      }
    }
  }

  lemma ElementsAdd(a: seq<JobId>, b: seq<JobId>)
    ensures Elements(a + b) == Elements(a) + Elements(b)
  {
    assert forall j :: j in a + b <==> j in a || j in b;
  }

  /** Fresh arrivals: the whole pass is one concatenation of releases and candidates. */
  lemma {:induction false} GatherForm(
    cfg: Config, g: Gathered, arrivals: seq<Arrival>, states: seq<Observation>, now: real)
    requires ValidConfig(cfg) && Readable(cfg, states) && Fresh(cfg, g.work.st.seen, arrivals)
    requires g.work.st.released <= g.work.st.seen && HeldJobs(g.work.st.held) <= g.work.st.seen
    ensures Gather(cfg, g, arrivals, states, now)
            == Ok(Gathered(AfterArrivals(cfg, g.work, arrivals, states, now),
                           g.candidates + AllCandidates(cfg, arrivals, states, now)))
    decreases |arrivals|
  {
    hide ValidConfig, CandidatesOf, TakeArrival, AfterArrivals;
    if arrivals == [] {
      AfterNone(cfg, g.work, states, now);
      assert g.candidates + [] == g.candidates;
    } else {
      var a, rest := arrivals[0], arrivals[1..];
      assert a in arrivals && arrivals == [a] + rest;
      TakeArrivalForm(cfg, g, a, states, now);
      var next := TakeArrival(cfg, g, a, states, now).value;
      AfterOne(cfg, g.work, a, states, now);
      GatherForm(cfg, next, rest, states, now);
      AfterArrivalsJoin(cfg, g.work, a, rest, states, now);
      assert g.candidates + AllCandidates(cfg, [a], states, now) + AllCandidates(cfg, rest, states, now)
          == g.candidates + (AllCandidates(cfg, [a], states, now) + AllCandidates(cfg, rest, states, now));
    }
  }

  lemma AfterNone(cfg: Config, w: Work, states: seq<Observation>, now: real)
    requires ValidConfig(cfg) && Readable(cfg, states)
    ensures AfterArrivals(cfg, w, [], states, now) == w
  {
    assert ArrivalJobs([]) == {} && Elements([]) == {};
  }

  lemma AfterOne(cfg: Config, w: Work, a: Arrival, states: seq<Observation>, now: real)
    requires ValidConfig(cfg) && Readable(cfg, states) && a.job in cfg.jobs
    ensures var r := AfterArrivals(cfg, w, [a], states, now);
            && r.st.held == w.st.held && r.st.seen == w.st.seen + {a.job}
            && w.st.released <= r.st.released <= w.st.released + {a.job}
  {
    hide ValidConfig, CandidatesOf;
    assert [a] + [] == [a] && [a][1..] == [];
    ArrivalJobsCons(a, []);
    assert Elements(AtOnce(cfg, [a], states, now)) <= {a.job};
  }

  lemma FreshCons(cfg: Config, seen: set<JobId>, a: Arrival, rest: seq<Arrival>)
    requires a.job in cfg.jobs && a.job !in seen
    ensures Fresh(cfg, seen + {a.job}, rest) ==> Fresh(cfg, seen, [a] + rest)
  {
    var all := [a] + rest;
    assert forall x :: x in all ==> x == a || x in rest;
    assert forall i :: 0 < i < |all| ==> all[i] in rest;
  }

  /** An arrival that is unknown, seen before or repeated stops the step. */
  lemma {:induction false} GatherRejects(
    cfg: Config, g: Gathered, arrivals: seq<Arrival>, states: seq<Observation>, now: real)
    requires ValidConfig(cfg) && Readable(cfg, states) && !Fresh(cfg, g.work.st.seen, arrivals)
    ensures Gather(cfg, g, arrivals, states, now).Err?
    decreases |arrivals|
  {
    hide ValidConfig, CandidatesOf, ReleaseJob;
    if arrivals == [] {
      assert false;
    } else if TakeArrival(cfg, g, arrivals[0], states, now).Ok? {
      var a, rest := arrivals[0], arrivals[1..];
      var next := TakeArrival(cfg, g, a, states, now).value;
      TakeArrivalSeen(cfg, g, a, states, now);
      FreshCons(cfg, g.work.st.seen, a, rest);
      assert arrivals == [a] + rest;
      GatherRejects(cfg, next, rest, states, now);
    }
  }

  lemma TakeArrivalSeen(cfg: Config, g: Gathered, a: Arrival, states: seq<Observation>, now: real)
    requires ValidConfig(cfg) && Readable(cfg, states) && TakeArrival(cfg, g, a, states, now).Ok?
    ensures a.job in cfg.jobs && a.job !in g.work.st.seen
    ensures TakeArrival(cfg, g, a, states, now).value.work.st.seen == g.work.st.seen + {a.job}
  {
    hide ValidConfig, CandidatesOf;
  }

  // ---------- what an arrival is offered ----------

  /** A candidate of arrival `a`: a future grid point whose expected effect passes both gates. */
  ghost predicate Offered(cfg: Config, a: Arrival, states: seq<Observation>, now: real, c: Candidate)
    requires ValidConfig(cfg) && Readable(cfg, states) && a.job in cfg.jobs
  {
    && c.job == a.job && c.arrived == a.arrived
    && c.option.release > now && OnGrid(cfg, a.job, a.arrived, c.option.release)
    && c.option == OptionAt(cfg, a.job, now, c.option.release, Backlog(cfg, a.job, states, now))
    && Feasible(c.option, AdmissionRules(cfg))
  }

  lemma {:induction false} GridExactly(cfg: Config, arrived: real, now: real, steps: int)
    ensures forall r :: r in Grid(cfg, arrived, now, steps) <==>
              r > now && exists k: int :: 1 <= k <= steps && r == GridPoint(cfg, arrived, k)
    decreases if steps < 0 then 0 else steps
  {
    hide GridPoint;
    if steps > 0 {
      GridExactly(cfg, arrived, now, steps - 1);
      forall r
        ensures r in Grid(cfg, arrived, now, steps) <==>
                  r > now && exists k: int :: 1 <= k <= steps && r == GridPoint(cfg, arrived, k)
      {
        assert 1 <= steps <= steps && (r == GridPoint(cfg, arrived, steps) ==>
                                         exists k: int :: 1 <= k <= steps && r == GridPoint(cfg, arrived, k));
      }
    }
  }

  lemma OptionsExactly(cfg: Config, job: JobId, now: real, releases: seq<real>, backlog: real)
    requires ValidConfig(cfg) && job in cfg.jobs
    ensures forall o :: o in OptionsOf(cfg, job, now, releases, backlog) <==>
              o.release in releases && o == OptionAt(cfg, job, now, o.release, backlog)
  {
    hide ValidConfig, OptionAt;
    var options := OptionsOf(cfg, job, now, releases, backlog);
    forall o | o in options
      ensures o.release in releases && o == OptionAt(cfg, job, now, o.release, backlog)
    {
      var i :| 0 <= i < |options| && options[i] == o;
      OptionRelease(cfg, job, now, releases[i], backlog);
    }
    forall o: Choice | o.release in releases && o == OptionAt(cfg, job, now, o.release, backlog)
      ensures o in options
    {
      var i :| 0 <= i < |releases| && releases[i] == o.release;
      assert options[i] == o;
    }
  }

  lemma OptionRelease(cfg: Config, job: JobId, now: real, release: real, backlog: real)
    requires ValidConfig(cfg) && job in cfg.jobs
    ensures OptionAt(cfg, job, now, release, backlog).release == release
  {
    hide SignalMean, ValidSignal;
  }

  /** The candidates of an arrival are exactly what it can be offered; none in the immediate cases. */
  lemma CandidatesExactly(cfg: Config, a: Arrival, states: seq<Observation>, now: real)
    requires ValidConfig(cfg) && Readable(cfg, states) && a.job in cfg.jobs
    ensures forall c :: c in CandidatesOf(cfg, a, states, now) <==>
              !Immediate(cfg, a.job) && Offered(cfg, a, states, now, c)
  {
    hide ValidConfig, Feasible, AdmissionRules, OptionAt, Backlog, Grid, GridPoint, GridSteps, Keep, OptionsOf;
    if !Immediate(cfg, a.job) {
      var releases, backlog := Grid(cfg, a.arrived, now, GridSteps(cfg, a.job)), Backlog(cfg, a.job, states, now);
      GridExactly(cfg, a.arrived, now, GridSteps(cfg, a.job));
      OptionsExactly(cfg, a.job, now, releases, backlog);
      KeepExactly(cfg, a, OptionsOf(cfg, a.job, now, releases, backlog));
    }
  }

  function CandidateJobs(cs: seq<Candidate>): set<JobId> {
    set c | c in cs :: c.job
  }

  ghost predicate OfferedTo(cfg: Config, arrivals: seq<Arrival>, states: seq<Observation>, now: real, c: Candidate)
    requires ValidConfig(cfg) && Readable(cfg, states) && forall a :: a in arrivals ==> a.job in cfg.jobs
  {
    exists a :: a in arrivals && !Immediate(cfg, a.job) && Offered(cfg, a, states, now, c)
  }

  lemma {:induction false} AllCandidatesExactly(
    cfg: Config, arrivals: seq<Arrival>, states: seq<Observation>, now: real)
    requires ValidConfig(cfg) && Readable(cfg, states) && forall a :: a in arrivals ==> a.job in cfg.jobs
    ensures forall c :: c in AllCandidates(cfg, arrivals, states, now) <==> OfferedTo(cfg, arrivals, states, now, c)
    decreases |arrivals|
  {
    hide ValidConfig, CandidatesOf, Offered;
    if arrivals != [] {
      var a, rest := arrivals[0], arrivals[1..];
      CandidatesExactly(cfg, a, states, now);
      AllCandidatesExactly(cfg, rest, states, now);
      assert forall x :: x in arrivals <==> x == a || x in rest;
    }
  }

  /** Every fresh arrival is either released at once or has candidates, never both. */
  lemma {:induction false} ArrivalsSplit(
    cfg: Config, arrivals: seq<Arrival>, states: seq<Observation>, now: real, seen: set<JobId>)
    requires ValidConfig(cfg) && Readable(cfg, states) && Fresh(cfg, seen, arrivals)
    ensures var out := AtOnce(cfg, arrivals, states, now);
            var cs := AllCandidates(cfg, arrivals, states, now);
            && NoDuplicates(out) && Elements(out) !! CandidateJobs(cs)
            && Elements(out) + CandidateJobs(cs) == ArrivalJobs(arrivals)
    decreases |arrivals|
  {
    hide ValidConfig, CandidatesOf, Immediate, Offered;
    if arrivals != [] {
      var a, rest := arrivals[0], arrivals[1..];
      assert arrivals == [a] + rest && a in arrivals;
      ArrivalsSplit(cfg, rest, states, now, seen);
      ArrivalJobsCons(a, rest);
      CandidatesJob(cfg, a, states, now);
      assert a.job !in ArrivalJobs(rest);
      SplitOneMore(a.job, CandidatesOf(cfg, a, states, now), AtOnce(cfg, rest, states, now),
                   AllCandidates(cfg, rest, states, now));
    }
  }

  lemma SplitOneMore(job: JobId, found: seq<Candidate>, out: seq<JobId>, cs: seq<Candidate>)
    requires NoDuplicates(out) && Elements(out) !! CandidateJobs(cs) && job !in Elements(out) + CandidateJobs(cs)
    requires CandidateJobs(found) <= {job}
    ensures var next := (if found == [] then [job] else []) + out;
            && NoDuplicates(next) && Elements(next) !! CandidateJobs(found + cs)
            && Elements(next) + CandidateJobs(found + cs) == {job} + Elements(out) + CandidateJobs(cs)
  {
    CandidateJobsAdd(found, cs);
    if found == [] {
      ElementsAdd([job], out);
      assert Elements([job]) == {job};
    } else {
      assert [] + out == out;
      assert found[0].job in CandidateJobs(found);
    }
  }

  lemma CandidatesJob(cfg: Config, a: Arrival, states: seq<Observation>, now: real)
    requires ValidConfig(cfg) && Readable(cfg, states) && a.job in cfg.jobs
    ensures CandidateJobs(CandidatesOf(cfg, a, states, now)) <= {a.job}
  {
    CandidatesExactly(cfg, a, states, now);
  }

  lemma CandidateJobsAdd(a: seq<Candidate>, b: seq<Candidate>)
    ensures CandidateJobs(a + b) == CandidateJobs(a) + CandidateJobs(b)
  {
    assert forall c :: c in a + b <==> c in a || c in b;
    forall j | j in CandidateJobs(a) + CandidateJobs(b)
      ensures j in CandidateJobs(a + b)
    {
      var c :| (c in a || c in b) && c.job == j;
      assert c in a + b;
    }
  }

  /** After the arrivals the books balance again, with the candidates' jobs being ranked. */
  lemma GatherBooks(
    cfg: Config, w: Work, arrivals: seq<Arrival>, states: seq<Observation>, now: real, before: set<JobId>)
    requires ValidConfig(cfg) && Readable(cfg, states)
    requires Books(cfg, before, w, {}) && Fresh(cfg, w.st.seen, arrivals)
    ensures Books(cfg, before, AfterArrivals(cfg, w, arrivals, states, now),
                  CandidateJobs(AllCandidates(cfg, arrivals, states, now)))
  {
    hide ValidConfig, AllPlanned, AtOnce, AllCandidates, CandidateJobs, ReservedOf, Get;
    ArrivalsSplit(cfg, arrivals, states, now, w.st.seen);
    var out := AtOnce(cfg, arrivals, states, now);
    var r := AfterArrivals(cfg, w, arrivals, states, now);
    ElementsAdd(w.output, out);
    assert ArrivalJobs(arrivals) !! w.st.seen;
    assert Partition(cfg, r.st, CandidateJobs(AllCandidates(cfg, arrivals, states, now)));
    assert ReservedExact(cfg, r.st) by {
      forall u ensures Get(r.st.reserved, u) == ReservedOf(cfg, r.st.held, u) {
        assert Get(w.st.reserved, u) == ReservedOf(cfg, w.st.held, u);
      }
    }
    JoinNoDuplicates(w.output, out);
  }

  lemma JoinNoDuplicates(a: seq<JobId>, b: seq<JobId>)
    requires NoDuplicates(a) && NoDuplicates(b) && Elements(a) !! Elements(b)
    ensures NoDuplicates(a + b)
  {
    forall i, j | 0 <= i < j < |a + b|
      ensures (a + b)[i] != (a + b)[j]
    {
      if i < |a| <= j {
        assert a[i] in Elements(a) && b[j - |a|] in Elements(b);
      }
    }
  }
}
