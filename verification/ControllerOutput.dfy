/** The order in which a step releases jobs. */
module ControllerOutput {
  import opened Basics
  import opened Selection
  import opened Controller
  import opened ControllerBooks
  import opened ControllerStep
  import opened ControllerBudget
  import opened ControllerGreedy
  import opened ControllerRuns

  /** The jobs of the holds that end, in the order they were taken up. */
  ghost function EndedJobs(cfg: Config, holds: seq<Hold>, states: seq<Observation>, now: real): seq<JobId>
    requires ValidConfig(cfg) && Readable(cfg, states) && forall h :: h in holds ==> h.job in cfg.jobs
  {
    if holds == [] then []
    else (if Ends(cfg, holds[0], states, now) then [holds[0].job] else []) + EndedJobs(cfg, holds[1..], states, now)
  }

  lemma ReleaseAppends(cfg: Config, w: Work, job: JobId, now: real)
    requires job in cfg.jobs && ReleaseJob(cfg, w, job, now).Ok?
    ensures ReleaseJob(cfg, w, job, now).value.output == w.output + [job]
  {
  }

  lemma {:induction false} RecheckOrder(cfg: Config, w: Work, holds: seq<Hold>, states: seq<Observation>, now: real)
    requires ValidConfig(cfg) && Readable(cfg, states) && forall h :: h in holds ==> h.job in cfg.jobs
    requires Recheck(cfg, w, holds, states, now).Ok?
    ensures Recheck(cfg, w, holds, states, now).value.output == w.output + EndedJobs(cfg, holds, states, now)
    decreases |holds|
  {
    hide ValidConfig, Ends, ReleaseJob;
    if holds != [] {
      if Ends(cfg, holds[0], states, now) {
        ReleaseAppends(cfg, w, holds[0].job, now);
        RecheckOrder(cfg, ReleaseJob(cfg, w, holds[0].job, now).value, holds[1..], states, now);
      } else {
        RecheckOrder(cfg, w, holds[1..], states, now);
      }
    }
  }

  /** Job a is ranked ahead of job b: some offer of a comes before every offer of b. */
  ghost predicate Ahead(ranked: seq<Candidate>, a: JobId, b: JobId) {
    exists p :: 0 <= p < |ranked| && ranked[p].job == a && forall q :: 0 <= q <= p ==> ranked[q].job != b
  }

  ghost predicate InRank(ranked: seq<Candidate>, jobs: seq<JobId>) {
    forall i, j :: 0 <= i < j < |jobs| ==> Ahead(ranked, jobs[i], jobs[j])
  }

  lemma AheadInTail(ranked: seq<Candidate>, a: JobId, b: JobId)
    requires ranked != [] && ranked[0].job != b && Ahead(ranked[1..], a, b)
    ensures Ahead(ranked, a, b)
  {
    var rest := ranked[1..];
    var p :| 0 <= p < |rest| && rest[p].job == a && forall q :: 0 <= q <= p ==> rest[q].job != b;
    assert ranked[p + 1] == rest[p];
    assert forall q :: 0 < q <= p + 1 ==> ranked[q] == rest[q - 1];
  }

  lemma HeadAhead(ranked: seq<Candidate>, b: JobId)
    requires ranked != [] && ranked[0].job != b
    ensures Ahead(ranked, ranked[0].job, b)
  {
  }

  lemma UnheldRelease(cfg: Config, w: Work, job: JobId, now: real)
    requires job in cfg.jobs && job !in HeldJobs(w.st.held) && ReleaseJob(cfg, w, job, now).Ok?
    ensures ReleaseJob(cfg, w, job, now).value.st.held == w.st.held
    ensures ReleaseJob(cfg, w, job, now).value.output == w.output + [job]
  {
    HoldOfFinds(w.st.held, job);
  }

  /** The jobs that found no budget go out in the order of their best offers. */
  lemma {:induction false} RestOrder(cfg: Config, w: Work, ranked: seq<Candidate>, now: real) returns (rest: seq<JobId>)
    requires forall c :: c in ranked ==> c.job in cfg.jobs
    requires ReleaseRest(cfg, w, ranked, now).Ok?
    ensures ReleaseRest(cfg, w, ranked, now).value.output == w.output + rest
    ensures InRank(ranked, rest)
    ensures forall j :: j in rest ==> j !in HeldJobs(w.st.held) && j !in w.output
    decreases |ranked|
  {
    hide ReleaseJob, HeldJobs, Ahead;
    if ranked == [] {
      rest := [];
    } else {
      var job := ranked[0].job;
      if job in HeldJobs(w.st.held) || job in w.output {
        rest := RestOrder(cfg, w, ranked[1..], now);
      } else {
        UnheldRelease(cfg, w, job, now);
        var next := ReleaseJob(cfg, w, job, now).value;
        var more := RestOrder(cfg, next, ranked[1..], now);
        rest := [job] + more;
        assert job in next.output && forall j :: j in w.output ==> j in next.output;
      }
      forall i, j | 0 <= i < j < |rest|
        ensures Ahead(ranked, rest[i], rest[j])
      {
        if job in HeldJobs(w.st.held) || job in w.output {
          AheadInTail(ranked, rest[i], rest[j]);
        } else {
          var more := rest[1..];
          assert rest[j] == more[j - 1] && rest[j] in more;
          if i == 0 {
            HeadAhead(ranked, rest[j]);
          } else {
            assert rest[i] == more[i - 1];
            AheadInTail(ranked, rest[i], rest[j]);
          }
        }
      }
    }
  }

  /** Job a has an offer that is better than every offer of job b. */
  ghost predicate OffersMore(offers: seq<Candidate>, a: JobId, b: JobId)
    requires AllFinite(offers)
  {
    exists c :: c in offers && c.job == a && forall d :: d in offers && d.job == b ==> Better(c, d)
  }

  lemma AheadOffersMore(ranked: seq<Candidate>, offers: seq<Candidate>, a: JobId, b: JobId)
    requires Sorted(ranked) && Keyed(ranked) && AllFinite(ranked) && (forall c :: c in ranked <==> c in offers)
    requires Ahead(ranked, a, b) && a != b
    ensures AllFinite(offers) && OffersMore(offers, a, b)
  {
    hide Precedes, Better;
    var p :| 0 <= p < |ranked| && ranked[p].job == a && forall q :: 0 <= q <= p ==> ranked[q].job != b;
    var c := ranked[p];
    assert c in offers;
    forall d | d in offers && d.job == b
      ensures Better(c, d)
    {
      var q :| 0 <= q < |ranked| && ranked[q] == d;
      assert p < q && !Precedes(d, c);
      PrecedesMeans(c, d);
    }
  }

  /** A step releases first the holds that end, in the order they were taken up, then the arrivals with nothing to hold
      for, in arrival order, then the jobs that found no budget, those with the better offers first. */
  ghost predicate ReleasesInOrder(cfg: Config, st: State, r: Request, output: seq<JobId>)
    requires ValidConfig(cfg) && Sound(cfg, st) && Valid(cfg, st, r)
  {
    SoundIsKnown(cfg, st);
    var offers := AllCandidates(cfg, r.arrivals, r.states, r.now);
    var first := EndedJobs(cfg, st.held, r.states, r.now) + AtOnce(cfg, r.arrivals, r.states, r.now);
    && AllFinite(offers) && first <= output
    && forall i, j :: |first| <= i < j < |output| ==> OffersMore(offers, output[i], output[j])
  }

  lemma StepOrder(cfg: Config, st: State, r: Request)
    requires ValidConfig(cfg) && Sound(cfg, st) && Valid(cfg, st, r)
    ensures Known(cfg, st)
    ensures var s := Step(cfg, st, r);
            s.Ok? && ReleasesInOrder(cfg, st, r, s.value.1.release)
  {
    hide ValidConfig, Sound, StepFacts, Step, Recheck, Admit, ReleaseRest, Rank, NextWake, Valid, AllCandidates, AtOnce,
         EndedJobs, OffersMore, Fresh, Sorted, Keyed, Better, ReleasesPart, HoldsPart, GreedyPart, BudgetsPart, Ahead;
    SoundIsKnown(cfg, st);
    ValidKnown(cfg, st, r);
    ValidFresh(cfg, st, r);
    var p := StepInPhases(cfg, st, r);
    StepOutcome(cfg, st, r);
    var output := p.final.output;
    ReleasedOnce(cfg, st, r, p.final.st, Response(output, NextWake(cfg, p.final.st.held, r.now)));
    var offers := AllCandidates(cfg, r.arrivals, r.states, r.now);
    OffersRanked(cfg, r.arrivals, r.states, r.now, st.seen);
    RecheckOrder(cfg, Work(st.(lastNow := Some(r.now)), []), st.held, r.states, r.now);
    var rest := RestOrder(cfg, p.gathered.(st := p.admitted), p.ranked, r.now);
    var first := EndedJobs(cfg, st.held, r.states, r.now) + AtOnce(cfg, r.arrivals, r.states, r.now);
    assert p.rechecked.output == EndedJobs(cfg, st.held, r.states, r.now);
    assert output == first + rest;
    forall i, j | |first| <= i < j < |output|
      ensures OffersMore(offers, output[i], output[j])
    {
      assert output[i] == rest[i - |first|] && output[j] == rest[j - |first|];
      AheadOffersMore(p.ranked, offers, output[i], output[j]);
    }
  }

  lemma ValidFresh(cfg: Config, st: State, r: Request)
    requires Valid(cfg, st, r)
    ensures Fresh(cfg, st.seen, r.arrivals)
  {
  }
}
