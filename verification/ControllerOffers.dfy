/** What the controller's estimates mean: the backlog of a pool, and what a job can be offered. */
module ControllerOffers {
  import opened Basics
  import opened Intensity
  import opened Selection
  import opened Controller
  import opened ControllerBooks
  import opened ControllerStep

  // ---------- the backlog of a pool ----------

  /** Capacity-seconds that a waiting job of the pool will need. */
  ghost function WaitingShare(cfg: Config, pool: string, s: Observation): real
    requires s.id in cfg.jobs
  {
    var m := cfg.jobs[s.id];
    if m.pool == pool && s.phase == Pending then m.fraction * m.runtime else 0.0
  }

  /** Capacity-seconds that a running job of the pool still needs: its expected rest, of a tick at least. */
  ghost function RunningShare(cfg: Config, pool: string, s: Observation, now: real): real
    requires s.id in cfg.jobs
  {
    var m := cfg.jobs[s.id];
    var elapsed := if now > s.start then now - s.start else 0.0;
    var rest := if m.runtime - elapsed > cfg.tick then m.runtime - elapsed else cfg.tick;
    if m.pool == pool && s.phase == Running then m.fraction * rest else 0.0
  }

  ghost function WaitingWork(cfg: Config, pool: string, states: seq<Observation>): real
    requires Readable(cfg, states)
  {
    if states == [] then 0.0
    else
      var n := |states| - 1;
      WaitingWork(cfg, pool, states[..n]) + WaitingShare(cfg, pool, states[n])
  }

  ghost function RunningWork(cfg: Config, pool: string, states: seq<Observation>, now: real): real
    requires Readable(cfg, states)
  {
    if states == [] then 0.0
    else
      var n := |states| - 1;
      RunningWork(cfg, pool, states[..n], now) + RunningShare(cfg, pool, states[n], now)
  }

  /** The fraction of the pool that its running jobs occupy. */
  ghost function RunningLoad(cfg: Config, pool: string, states: seq<Observation>): real
    requires Readable(cfg, states)
  {
    if states == [] then 0.0
    else
      var n := |states| - 1;
      var m := cfg.jobs[states[n].id];
      RunningLoad(cfg, pool, states[..n]) + if m.pool == pool && states[n].phase == Running then m.fraction else 0.0
  }

  ghost predicate SomethingWaits(cfg: Config, pool: string, states: seq<Observation>)
    requires Readable(cfg, states)
  {
    exists s :: s in states && cfg.jobs[s.id].pool == pool && s.phase == Pending
  }

  lemma WaitsUnfolds(cfg: Config, pool: string, states: seq<Observation>)
    requires Readable(cfg, states) && states != []
    ensures var n := |states| - 1;
            SomethingWaits(cfg, pool, states) <==>
              SomethingWaits(cfg, pool, states[..n])
              || (cfg.jobs[states[n].id].pool == pool && states[n].phase == Pending)
  {
    assert states == states[..|states| - 1] + [states[|states| - 1]];
  }

  lemma NothingWaits(cfg: Config, pool: string)
    ensures !SomethingWaits(cfg, pool, [])
  {
  }

  lemma OneStateMore(cfg: Config, pool: string, t: Totals, s: Observation, now: real)
    requires s.id in cfg.jobs
    ensures var r, m := AddToTotals(cfg, pool, t, s, now), cfg.jobs[s.id];
            && r.work == t.work + WaitingShare(cfg, pool, s) + RunningShare(cfg, pool, s, now)
            && r.load == t.load + (if m.pool == pool && s.phase == Running then m.fraction else 0.0)
            && (r.pending <==> t.pending || (m.pool == pool && s.phase == Pending))
  {
  }

  lemma {:induction false} PoolTotalsMean(cfg: Config, pool: string, states: seq<Observation>, now: real)
    requires Readable(cfg, states)
    ensures var t := PoolTotals(cfg, pool, states, now);
            && t.work == WaitingWork(cfg, pool, states) + RunningWork(cfg, pool, states, now)
            && t.load == RunningLoad(cfg, pool, states)
            && (t.pending <==> SomethingWaits(cfg, pool, states))
  {
    hide SomethingWaits, AddToTotals, WaitingShare, RunningShare;
    if states == [] {
      NothingWaits(cfg, pool);
    } else {
      var n := |states| - 1;
      PoolTotalsMean(cfg, pool, states[..n], now);
      WaitsUnfolds(cfg, pool, states);
      OneStateMore(cfg, pool, PoolTotals(cfg, pool, states[..n], now), states[n], now);
    }
  }

  /** The backlog a job meets: the work of its pool when something waits there or the job does not fit beside what
      runs, otherwise nothing. */
  lemma BacklogExactly(cfg: Config, job: JobId, states: seq<Observation>, now: real)
    requires job in cfg.jobs && Readable(cfg, states)
    ensures var pool := cfg.jobs[job].pool;
            Backlog(cfg, job, states, now)
            == if SomethingWaits(cfg, pool, states) || RunningLoad(cfg, pool, states) + cfg.jobs[job].fraction > 1.0
               then WaitingWork(cfg, pool, states) + RunningWork(cfg, pool, states, now)
               else 0.0
  {
    PoolTotalsMean(cfg, cfg.jobs[job].pool, states, now);
  }

  // ---------- what a delay is expected to save ----------

  /** Intensity integrated over a run that begins at `start`. */
  ghost function CarbonOf(cfg: Config, m: Meta, start: real): real
    requires ValidConfig(cfg)
  {
    Exposure(Rows(cfg.signal), start, start + m.runtime)
  }

  /** Both runs lie inside the signal, and the later one needs `minSaving` percent less carbon at least. */
  ghost predicate Worthwhile(cfg: Config, m: Meta, start: real, later: real)
    requires ValidConfig(cfg)
  {
    && m.runtime > 0.0 && cfg.signal.times[0] <= start && later + m.runtime <= cfg.signal.end
    && CarbonOf(cfg, m, start) > 0.0
    && (CarbonOf(cfg, m, start) - CarbonOf(cfg, m, later)) * 100.0 >= cfg.minSaving * CarbonOf(cfg, m, start)
  }

  lemma {:induction false} ExposureNonNegative(rows: seq<Row>, a: real, b: real)
    requires forall i :: 0 <= i < |rows| ==> rows[i].level >= 0.0
    ensures Exposure(rows, a, b) >= 0.0
  {
    hide Overlap, Times;
    if rows != [] {
      var r := rows[|rows| - 1];
      ExposureNonNegative(rows[..|rows| - 1], a, b);
      OverlapNonNegative(r, a, b);
      TimesOrder(0.0, r.level, r.level, Overlap(r, a, b));
      assert Times(0.0, Overlap(r, a, b)) == 0.0 by {
        NothingTimes(Overlap(r, a, b));
      }
    }
  }

  lemma NothingTimes(x: real)
    ensures Times(0.0, x) == 0.0
  {
  }

  lemma CarbonNonNegative(cfg: Config, m: Meta, start: real)
    requires ValidConfig(cfg)
    ensures CarbonOf(cfg, m, start) >= 0.0
  {
    hide Exposure;
    ExposureNonNegative(Rows(cfg.signal), start, start + m.runtime);
  }

  /** The means' relative gain, as a comparison of the integrals. */
  lemma RatioExactly(e: real, f: real, d: real, saving: real)
    requires d > 0.0 && e >= 0.0
    ensures e / d != 0.0 <==> e > 0.0
    ensures e > 0.0 ==> ((e / d - f / d) / (e / d) * 100.0 >= saving <==> (e - f) * 100.0 >= saving * e)
  {
    if e > 0.0 {
      var b, a := e / d, f / d;
      DivideBack(e, d);
      DivideBack(f, d);
      var q := (b - a) / b;
      DivideBack(b - a, b);
      assert q * e == e - f by {
        assert q * b * d == (b - a) * d;
      }
      if q * 100.0 >= saving {
        ProductOrder(saving, q * 100.0, e);
      } else {
        ProductLess(q * 100.0, saving, e);
      }
    }
  }

  lemma ProductOrder(x: real, y: real, e: real)
    requires x <= y && e > 0.0
    ensures x * e <= y * e
  {
  }

  lemma ProductLess(x: real, y: real, e: real)
    requires x < y && e > 0.0
    ensures x * e < y * e
  {
  }

  /** The time a run is expected to start when released at `release` behind work that ends at `start`. */
  ghost function LaterOf(start: real, release: real): real {
    if release > start then release else start
  }

  /** The gain gate passes exactly when the delay is worthwhile. */
  lemma GainExactly(cfg: Config, job: JobId, now: real, release: real, backlog: real)
    requires ValidConfig(cfg) && job in cfg.jobs
    ensures EnoughGain(cfg, OptionAt(cfg, job, now, release, backlog)) <==>
              Worthwhile(cfg, cfg.jobs[job], now + backlog, LaterOf(now + backlog, release))
  {
    hide Exposure, Rows, CarbonOf;
    var m := cfg.jobs[job];
    var start, later := now + backlog, LaterOf(now + backlog, release);
    CarbonNonNegative(cfg, m, start);
    if m.runtime > 0.0 {
      CarbonOfMean(cfg, m, start);
      CarbonOfMean(cfg, m, later);
      RatioExactly(CarbonOf(cfg, m, start), CarbonOf(cfg, m, later), m.runtime, cfg.minSaving);
    }
  }

  lemma CarbonOfMean(cfg: Config, m: Meta, start: real)
    requires ValidConfig(cfg) && m.runtime > 0.0
    ensures SignalMean(cfg.signal, start, m.runtime)
            == if start < cfg.signal.times[0] || start + m.runtime > cfg.signal.end then None
               else Some(CarbonOf(cfg, m, start) / m.runtime)
  {
    hide Exposure, Rows;
  }

  /** The utility of an option is the carbon its delay saves, in the job's share of the cluster and per hour, for each
      second of hold; it is unusable when a run leaves the signal. The delay is what the hold adds to the wait. */
  lemma UtilityMeans(cfg: Config, job: JobId, now: real, release: real, backlog: real)
    requires ValidConfig(cfg) && job in cfg.jobs && cfg.jobs[job].runtime > 0.0
    ensures var m, o := cfg.jobs[job], OptionAt(cfg, job, now, release, backlog);
            var start, later := now + backlog, LaterOf(now + backlog, release);
            && o.release == release && o.predictedStart == later && o.incrementalWait == later - start
            && (o.utility.Finite? <==> cfg.signal.times[0] <= start && later + m.runtime <= cfg.signal.end)
            && (o.utility.Finite? ==>
                  o.utility.value * (if release > now + 1.0 then release - now else 1.0) * 3600.0
                  == m.fraction * (CarbonOf(cfg, m, start) - CarbonOf(cfg, m, later)))
  {
    hide Exposure, Rows, CarbonOf;
    var m, o := cfg.jobs[job], OptionAt(cfg, job, now, release, backlog);
    var start, later := now + backlog, LaterOf(now + backlog, release);
    CarbonOfMean(cfg, m, start);
    CarbonOfMean(cfg, m, later);
    if o.utility.Finite? {
      var e, f := CarbonOf(cfg, m, start), CarbonOf(cfg, m, later);
      SavingBack(e, f, m.runtime, m.fraction);
      DivideBack(o.saving.value, Max(release - now, 1.0));
    }
  }

  lemma SavingBack(e: real, f: real, d: real, fraction: real)
    requires d > 0.0
    ensures (e / d - f / d) * (fraction * d / 3600.0) * 3600.0 == fraction * (e - f)
  {
    DivideBack(e, d);
    DivideBack(f, d);
    var x := e / d - f / d;
    assert x * d == e - f;
    assert fraction * d / 3600.0 * 3600.0 == fraction * d;
    assert x * (fraction * d / 3600.0) * 3600.0 == x * (fraction * d);
    assert x * (fraction * d) == fraction * (x * d);
  }

  /** A hold ends exactly when it is due or no longer worthwhile. */
  lemma EndsExactly(cfg: Config, h: Hold, states: seq<Observation>, now: real)
    requires ValidConfig(cfg) && h.job in cfg.jobs && Readable(cfg, states)
    ensures var start := now + Backlog(cfg, h.job, states, now);
            Ends(cfg, h, states, now) <==>
              now >= h.release || !Worthwhile(cfg, cfg.jobs[h.job], start, LaterOf(start, h.release))
  {
    hide ValidConfig, Backlog, OptionAt, EnoughGain, Worthwhile;
    GainExactly(cfg, h.job, now, h.release, Backlog(cfg, h.job, states, now));
  }

  // ---------- what an arrival is offered ----------

  /** k ticks are at most the longest hold, and at most the given share of the run time. */
  ghost predicate TicksFit(cfg: Config, m: Meta, k: int) {
    k as real * cfg.tick <= cfg.maxDelay && k as real * cfg.tick <= m.runtime * cfg.delayRatio
  }

  lemma FloorExactly(a: real, t: real, k: int)
    requires t > 0.0
    ensures k <= (a / t).Floor <==> k as real * t <= a
  {
    DivideBack(a, t);
    var q := a / t;
    if k as real <= q {
      if k as real < q {
        ProductLess(k as real, q, t);
      }
    } else {
      ProductLess(q, k as real, t);
    }
  }

  /** The offered releases are whole ticks after the arrival, as many as the two limits allow. */
  lemma OnGridExactly(cfg: Config, job: JobId, arrived: real, release: real)
    requires ValidConfig(cfg) && job in cfg.jobs
    ensures OnGrid(cfg, job, arrived, release) <==>
              exists k: int :: 1 <= k && TicksFit(cfg, cfg.jobs[job], k) && release == GridPoint(cfg, arrived, k)
  {
    hide ValidSignal, GridPoint, TicksFit, GridSteps;
    forall k: int
      ensures k <= GridSteps(cfg, job) <==> TicksFit(cfg, cfg.jobs[job], k)
    {
      StepsExactly(cfg, job, k);
    }
  }

  lemma StepsExactly(cfg: Config, job: JobId, k: int)
    requires ValidConfig(cfg) && job in cfg.jobs
    ensures k <= GridSteps(cfg, job) <==> TicksFit(cfg, cfg.jobs[job], k)
  {
    hide ValidSignal;
    FloorExactly(Allowance(cfg, job), cfg.tick, k);
  }

  /** What a step offers: to arrivals that may be held, future releases on the grid that start the run later than the
      backlog alone would, each with the worthwhile saving expected of it. */
  lemma OfferedExactly(cfg: Config, arrivals: seq<Arrival>, states: seq<Observation>, now: real, c: Candidate)
    requires ValidConfig(cfg) && Readable(cfg, states) && forall a :: a in arrivals ==> a.job in cfg.jobs
    ensures OfferedTo(cfg, arrivals, states, now, c) <==>
              && Arrival(c.job, c.arrived) in arrivals
              && var m := cfg.jobs[c.job];
                 var backlog, release := Backlog(cfg, c.job, states, now), c.option.release;
              && !cfg.baseline && m.flexible && m.reliable
              && (exists k: int :: 1 <= k && TicksFit(cfg, m, k) && release == GridPoint(cfg, c.arrived, k))
              && release > now && release > now + backlog
              && Worthwhile(cfg, m, now + backlog, release)
              && c.option == OptionAt(cfg, c.job, now, release, backlog)
  {
    hide ValidConfig, Backlog, OptionAt, Worthwhile, OnGrid, GridPoint, Feasible, AdmissionRules, TicksFit;
    if Arrival(c.job, c.arrived) in arrivals {
      var backlog := Backlog(cfg, c.job, states, now);
      OnGridExactly(cfg, c.job, c.arrived, c.option.release);
      FeasibleExactly(cfg, c.job, now, c.option.release, backlog);
    }
    if OfferedTo(cfg, arrivals, states, now, c) {
      var a :| a in arrivals && !Immediate(cfg, a.job) && Offered(cfg, a, states, now, c);
      assert a == Arrival(c.job, c.arrived);
    }
  }

  /** An option passes both gates with a finite utility exactly when it delays the run, and that is worthwhile. */
  lemma FeasibleExactly(cfg: Config, job: JobId, now: real, release: real, backlog: real)
    requires ValidConfig(cfg) && job in cfg.jobs
    ensures Feasible(OptionAt(cfg, job, now, release, backlog), AdmissionRules(cfg)) <==>
              release > now + backlog && Worthwhile(cfg, cfg.jobs[job], now + backlog, release)
  {
    hide ValidConfig, OptionAt, Worthwhile, EnoughGain;
    var o := OptionAt(cfg, job, now, release, backlog);
    GainExactly(cfg, job, now, release, backlog);
    GatesExactly(cfg, o);
    WaitExactly(cfg, job, now, release, backlog);
  }

  lemma WaitExactly(cfg: Config, job: JobId, now: real, release: real, backlog: real)
    requires ValidConfig(cfg) && job in cfg.jobs
    ensures var o := OptionAt(cfg, job, now, release, backlog);
            && (o.incrementalWait > 0.0 <==> release > now + backlog)
            && (EnoughGain(cfg, o) ==> o.utility.Finite?)
  {
    hide ValidSignal, SignalMean;
  }

  lemma GatesExactly(cfg: Config, o: Choice)
    ensures Feasible(o, AdmissionRules(cfg)) <==> EnoughGain(cfg, o) && o.incrementalWait > 0.0 && o.utility.Finite?
  {
    hide EnoughGain;
    var rules := AdmissionRules(cfg);
    var gates := rules.gates;
    assert gates[..1] == [gates[0]] && gates[..1][..0] == [];
    assert Failures(o, gates[..0]) == [];
    assert Failures(o, gates[..1]) == if EnoughGain(cfg, o) then [] else [gates[0].name];
    assert gates[..|gates| - 1] == gates[..1];
  }
}
