/** A minimum saving keeps the failsafe silent, however products and sums round: a hold that is about to end saves too
    little, so the controller has dropped it before its release can fall onto the current time. */
module SavingGuard {
  import opened Basics
  import opened Intensity
  import opened Selection
  import opened Controller
  import opened ControllerBooks
  import opened ControllerStep
  import opened ControllerBudget
  import opened ControllerRuns
  import opened Wire
  import opened ClosedLoop
  import opened ClosedLoopRuns
  import opened FractionalTick
  import B = Bridge

  const MICRO: real := 0.000001
  const TWO_MICROS: real := 0.000002

  predicate SignalWithin(s: Signal, lo: real, hi: real) {
    0.0 < lo <= hi && forall i :: 0 <= i < |s.values| ==> lo <= s.values[i] <= hi
  }

  predicate ProperLoads(cfg: Config) {
    forall j :: j in cfg.jobs ==> cfg.jobs[j].fraction >= 0.0 && cfg.jobs[j].runtime >= 0.0
  }

  /** Waiting less than two microseconds never saves the minimum: the intensity cannot fall fast enough. */
  predicate SlowSaving(saving: real, runtime: real, lo: real, hi: real) {
    saving > 0.0 && Times(100.0 - saving, Times(hi - lo, TWO_MICROS)) <= Times(saving, Times(lo, runtime))
  }

  /** The shipped minimum saving of five percent: enough for runs of a second in any realistic range of intensities. */
  lemma FivePercentSuffice(runtime: real, lo: real, hi: real)
    requires runtime >= 1.0 && 0.0 < lo <= hi <= 26000.0 * lo
    ensures SlowSaving(5.0, runtime, lo, hi)
  {
    assert lo * runtime >= lo;
  }

  /** What a configuration has to promise: intensities in a positive range, a tick of two microseconds and the
      rounding of its sums, and for every job that may be held a minimum saving that two microseconds cannot reach. */
  predicate Guarded(cfg: Config, lo: real, hi: real) {
    && SignalWithin(cfg.signal, lo, hi) && ProperLoads(cfg) && TWO_MICROS <= cfg.tick - cfg.sumSlack
    && forall j :: j in cfg.jobs && !Immediate(cfg, j) ==> SlowSaving(cfg.minSaving, cfg.jobs[j].runtime, lo, hi)
  }

  /** Only jobs that may be held are held. */
  predicate HeldFlexible(cfg: Config, held: seq<Hold>) {
    forall h :: h in held ==> h.job in cfg.jobs && !Immediate(cfg, h.job)
  }

  // ---------- how fast a mean can fall ----------

  /** Starting w later changes the mean over a run by at most the range of the intensity times w. */
  lemma MeanDrop(s: Signal, start: real, w: real, runtime: real, lo: real, hi: real)
    requires ValidSignal(s) && SignalWithin(s, lo, hi) && w >= 0.0
    requires SignalMean(s, start, runtime).Some? && SignalMean(s, start + w, runtime).Some?
    ensures var before, after := SignalMean(s, start, runtime).value, SignalMean(s, start + w, runtime).value;
            Times(before - after, runtime) <= Times(hi - lo, w) && lo <= after && lo <= before
  {
    hide Exposure, Covered, Rows, SignalMean, ValidSignal;
    var rows := Rows(s);
    var a, b, c, d := start, start + w, start + runtime, start + w + runtime;
    PositiveDuration(s, start, runtime);
    MeanTimesDuration(s, start, runtime);
    MeanTimesDuration(s, start + w, runtime);
    MeanWithinRange(s, start, runtime, lo, hi);
    MeanWithinRange(s, start + w, runtime, lo, hi);
    ExposureAdds(rows, a, b, d);
    ExposureAdds(rows, a, c, d);
    LevelsWithin(s, lo, hi);
    FullyCovered(rows, a, b);
    FullyCovered(rows, c, d);
    ExposureBounds(rows, a, b, lo, hi);
    ExposureBounds(rows, c, d, lo, hi);
  }

  lemma PositiveDuration(s: Signal, start: real, duration: real)
    requires ValidSignal(s) && SignalMean(s, start, duration).Some?
    ensures duration > 0.0
  {
  }

  lemma LevelsWithin(s: Signal, lo: real, hi: real)
    requires ValidSignal(s) && SignalWithin(s, lo, hi)
    ensures forall i :: 0 <= i < |Rows(s)| ==> lo <= Rows(s)[i].level <= hi
  {
  }

  /** A drop that saves the minimum takes at least two microseconds. */
  lemma DropTakesTime(before: real, after: real, runtime: real, w: real, saving: real, lo: real, hi: real)
    requires SlowSaving(saving, runtime, lo, hi) && 0.0 < lo <= hi && runtime > 0.0 && w >= 0.0
    requires lo <= after && lo <= before && (before - after) / before * 100.0 >= saving
    requires Times(before - after, runtime) <= Times(hi - lo, w)
    ensures w >= TWO_MICROS
  {
    hide Times;
    var drop, rest, range := before - after, 100.0 - saving, hi - lo;
    RatioBack(drop, before, saving);
    RestOfDrop(before, after, saving);
    TimesUp(saving, lo, after);
    TimesPositive(saving, lo);
    TimesPositive(saving, before);
    FactorPositive(drop, 100.0);
    FactorPositive(rest, drop);
    TimesUp(runtime, Times(saving, lo), Times(rest, drop));
    TimesRotate(runtime, saving, lo);
    TimesRotate(runtime, rest, drop);
    TimesUp(rest, Times(drop, runtime), Times(range, w));
    TimesPositive(lo, runtime);
    TimesPositive(saving, Times(lo, runtime));
    Slower(rest, range, w);
  }

  lemma RatioBack(drop: real, before: real, saving: real)
    requires before > 0.0 && drop / before * 100.0 >= saving
    ensures Times(drop, 100.0) >= Times(saving, before)
  {
    var q := drop / before;
    assert q * before == drop;
    assert (q * 100.0 - saving) * before >= 0.0;
  }

  lemma RestOfDrop(before: real, after: real, saving: real)
    requires Times(before - after, 100.0) >= Times(saving, before)
    ensures Times(100.0 - saving, before - after) >= Times(saving, after)
  {
  }

  lemma TimesUp(w: real, x: real, y: real)
    requires x <= y && w >= 0.0
    ensures Times(w, x) <= Times(w, y)
  {
  }

  lemma TimesPositive(x: real, y: real)
    requires x > 0.0 && y > 0.0
    ensures Times(x, y) > 0.0
  {
  }

  lemma FactorPositive(x: real, y: real)
    requires Times(x, y) > 0.0 && y > 0.0
    ensures x > 0.0
  {
  }

  lemma TimesRotate(w: real, x: real, y: real)
    ensures Times(w, Times(x, y)) == Times(x, Times(y, w))
  {
  }

  lemma TimesNests(x: real, y: real, z: real)
    ensures Times(x, Times(y, z)) == Times(Times(x, y), z)
  {
  }

  lemma Slower(rest: real, range: real, w: real)
    requires w >= 0.0 && Times(rest, Times(range, w)) > 0.0
    requires Times(rest, Times(range, w)) >= Times(rest, Times(range, TWO_MICROS))
    ensures w >= TWO_MICROS
  {
    hide Times;
    var rate := Times(rest, range);
    TimesNests(rest, range, w);
    TimesNests(rest, range, TWO_MICROS);
    ZeroTimes(rate);
    FactorPositive(rate, w);
    LessTimes(rate, w, TWO_MICROS);
  }

  lemma ZeroTimes(x: real)
    ensures Times(x, 0.0) == 0.0
  {
  }

  lemma LessTimes(rate: real, w: real, v: real)
    requires rate > 0.0 && Times(rate, w) >= Times(rate, v)
    ensures w >= v
  {
    assert rate * (w - v) >= 0.0;
  }

  // ---------- one step ----------

  lemma {:induction false} TotalsNonNegative(cfg: Config, pool: string, states: seq<Observation>, now: real)
    requires ValidConfig(cfg) && ProperLoads(cfg) && Readable(cfg, states)
    ensures PoolTotals(cfg, pool, states, now).work >= 0.0
  {
    if states != [] {
      var last := states[|states| - 1];
      assert last in states;
      TotalsNonNegative(cfg, pool, states[..|states| - 1], now);
      var m := cfg.jobs[last.id];
      ProductNonNegative(m.fraction, Max(m.runtime - Max(now - last.start, 0.0), cfg.tick));
      ProductNonNegative(m.fraction, m.runtime);
    }
  }

  lemma ProductNonNegative(x: real, y: real)
    requires x >= 0.0 && y >= 0.0
    ensures x * y >= 0.0
  {
  }

  /** A release that saves enough is at least two microseconds away. */
  lemma GainIsAhead(cfg: Config, job: JobId, now: real, release: real, backlog: real, lo: real, hi: real)
    requires ValidConfig(cfg) && Guarded(cfg, lo, hi) && job in cfg.jobs && !Immediate(cfg, job) && backlog >= 0.0
    requires EnoughGain(cfg, OptionAt(cfg, job, now, release, backlog))
    ensures release >= now + TWO_MICROS
  {
    hide ValidConfig, SignalMean, ValidSignal, SlowSaving, Immediate, ProperLoads, SignalWithin;
    var m := cfg.jobs[job];
    var start := now + backlog;
    var w := Max(release, start) - start;
    assert ValidSignal(cfg.signal) by {
      SignalIsValid(cfg);
    }
    assert SlowSaving(cfg.minSaving, m.runtime, lo, hi);
    PositiveDuration(cfg.signal, start, m.runtime);
    assert start + w == Max(release, start);
    MeanDrop(cfg.signal, start, w, m.runtime, lo, hi);
    var before := SignalMean(cfg.signal, start, m.runtime).value;
    var after := SignalMean(cfg.signal, start + w, m.runtime).value;
    RangePositive(cfg.signal, lo, hi);
    DropTakesTime(before, after, m.runtime, w, cfg.minSaving, lo, hi);
  }

  lemma SignalIsValid(cfg: Config)
    requires ValidConfig(cfg)
    ensures ValidSignal(cfg.signal)
  {
  }

  lemma RangePositive(s: Signal, lo: real, hi: real)
    requires SignalWithin(s, lo, hi)
    ensures 0.0 < lo <= hi
  {
  }

  lemma FeasibleGain(cfg: Config, o: Choice)
    requires Feasible(o, AdmissionRules(cfg))
    ensures EnoughGain(cfg, o)
  {
    var gates := AdmissionRules(cfg).gates;
    assert gates[..2] == gates && gates[..2][..1] == gates[..1] && gates[..1][..0] == gates[..0];
  }

  /** After a step every hold ends at least two microseconds later, and so does the wait for the next step. */
  lemma HoldsAreAhead(cfg: Config, st: State, r: Request, lo: real, hi: real)
    requires ValidConfig(cfg) && Guarded(cfg, lo, hi) && Sound(cfg, st) && Valid(cfg, st, r)
    requires HeldFlexible(cfg, st.held)
    ensures Known(cfg, st) && Step(cfg, st, r).Ok?
    ensures var (next, reply) := Step(cfg, st, r).value;
            HeldFlexible(cfg, next.held) && (next.held != [] ==> reply.nextWake >= r.now + TWO_MICROS)
  {
    hide ValidConfig, Sound, Valid, Step, OptionAt, Guarded, Immediate, BudgetsPart, ReleasesPart, NextWake, OnGrid,
         EnoughGain, Feasible, Overflows, Backlog;
    StepOutcome(cfg, st, r);
    SoundIsKnown(cfg, st);
    ValidKnown(cfg, st, r);
    var (next, reply) := Step(cfg, st, r).value;
    forall h | h in next.held
      ensures h.job in cfg.jobs && !Immediate(cfg, h.job) && h.release >= r.now + TWO_MICROS
    {
      if h in st.held {
        HoldIsAhead(cfg, h, r, lo, hi);
      } else {
        var c :| OfferedTo(cfg, r.arrivals, r.states, r.now, c) && h == HoldFor(c);
        var a :| a in r.arrivals && !Immediate(cfg, a.job) && Offered(cfg, a, r.states, r.now, c);
        FeasibleGain(cfg, c.option);
        BacklogNonNegative(cfg, a.job, r.states, r.now, lo, hi);
        GainIsAhead(cfg, a.job, r.now, c.option.release, Backlog(cfg, a.job, r.states, r.now), lo, hi);
      }
    }
    WakeIsEarliest(cfg, next.held, r.now);
    TickIsAhead(cfg, r.now, lo, hi);
  }

  lemma BacklogNonNegative(cfg: Config, job: JobId, states: seq<Observation>, now: real, lo: real, hi: real)
    requires ValidConfig(cfg) && Guarded(cfg, lo, hi) && job in cfg.jobs && Readable(cfg, states)
    ensures Backlog(cfg, job, states, now) >= 0.0
  {
    hide ValidConfig, PoolTotals, Immediate;
    TotalsNonNegative(cfg, cfg.jobs[job].pool, states, now);
  }

  lemma HoldIsAhead(cfg: Config, h: Hold, r: Request, lo: real, hi: real)
    requires ValidConfig(cfg) && Guarded(cfg, lo, hi) && Readable(cfg, r.states) && h.job in cfg.jobs
    requires !Immediate(cfg, h.job) && !Ends(cfg, h, r.states, r.now)
    ensures h.release >= r.now + TWO_MICROS
  {
    hide ValidConfig, Guarded, Immediate, OptionAt, EnoughGain, Backlog;
    BacklogNonNegative(cfg, h.job, r.states, r.now, lo, hi);
    GainIsAhead(cfg, h.job, r.now, h.release, Backlog(cfg, h.job, r.states, r.now), lo, hi);
  }

  lemma TickIsAhead(cfg: Config, now: real, lo: real, hi: real)
    requires ValidConfig(cfg) && Guarded(cfg, lo, hi)
    ensures GridPoint(cfg, now, 1) >= now + TWO_MICROS
  {
    hide Immediate, ValidSignal;
    ErrorWithin(cfg, now, 1);
  }

  // ---------- the closed loop ----------

  /** Two microseconds ahead, no rounding of the product makes the wake time past. */
  lemma SentAhead(w: real, rounding: Rounding, t: int, epoch: int)
    requires w >= Seconds(t, epoch) + TWO_MICROS
    ensures Sent(w, rounding) + epoch > t
  {
    assert Scaled(w) >= (t - epoch) as real + 2.0;
  }

  /** No exchange of a guarded configuration is refused. */
  lemma GuardedNeverRefused(cfg: Config, epoch: int, s: Loop, e: Event, lo: real, hi: real)
    requires ValidConfig(cfg) && Guarded(cfg, lo, hi) && InStep(cfg, epoch, s) && Expected(cfg, s, e)
    requires HeldFlexible(cfg, s.ctl.held) && (e.Polling? ==> e.delivered)
    ensures Known(cfg, s.ctl) && KnownJobs(cfg, s.bridge.jobs)
    ensures !Refused(cfg, epoch, s, e) && HeldFlexible(cfg, Advance(cfg, epoch, s, e).ctl.held)
  {
    hide ValidConfig, Guarded, InStep, Step, Outcome, Valid, Message, B.Observe, B.Tick, KnownJobs, SameJobs,
         ArrivedThen, Sent, Seconds, Known, NoExchange, HeldFlexible, B.Arrive, Sound;
    InStepParts(cfg, epoch, s);
    SoundIsKnown(cfg, s.ctl);
    if e.Polling? && !NoExchange(s.bridge, e.now, e.observed) {
      ObserveExchange(cfg, epoch, s, e.observed);
      InStepClock(cfg, epoch, s);
      var jobs := B.Observe(s.bridge.jobs, e.observed);
      IdsKnown(cfg, jobs);
      MessageValid(cfg, epoch, s, jobs, e.starts, e.later);
      RequestNow(jobs, e.starts, e.later, epoch);
      var request := Message(jobs, e.starts, e.later, epoch);
      HoldsAreAhead(cfg, s.ctl, request, lo, hi);
      var (next, reply) := Step(cfg, s.ctl, request).value;
      if next.held != [] {
        SentAhead(reply.nextWake, e.rounding, e.later, epoch);
      }
    }
  }

  /** In every run of a guarded configuration without a transport failure both sides stay in step and the failsafe stays
      off, whatever the tick and however products and sums round. */
  lemma {:induction false} GuardedRunInStep(cfg: Config, epoch: int, s: Loop, es: seq<Event>, lo: real, hi: real)
    requires ValidConfig(cfg) && Guarded(cfg, lo, hi) && InStep(cfg, epoch, s) && HeldFlexible(cfg, s.ctl.held)
    requires Healthy(cfg, epoch, s, es)
    ensures InStep(cfg, epoch, After(cfg, epoch, s, es))
    decreases |es|
  {
    hide ValidConfig, Guarded, InStep, Advance, Expected, Refused, KnownJobs, Known, HeldFlexible;
    if es != [] {
      EventKeepsSane(cfg, epoch, s, es[0]);
      GuardedNeverRefused(cfg, epoch, s, es[0], lo, hi);
      GuardedRunInStep(cfg, epoch, Advance(cfg, epoch, s, es[0]), es[1..], lo, hi);
    }
  }

  // ---------- the exact condition ----------

  /** Configurations with this tick, minimum saving, least runtime of a job that may be held, and range of intensities;
      their sums are off by a microsecond at most. */
  ghost predicate Family(cfg: Config, t: real, runtime: real, saving: real, lo: real, hi: real) {
    && cfg.tick == t && cfg.minSaving == saving && cfg.sumSlack <= MICRO
    && SignalWithin(cfg.signal, lo, hi) && ProperLoads(cfg)
    && forall j :: j in cfg.jobs && !Immediate(cfg, j) ==> cfg.jobs[j].runtime >= runtime
  }

  lemma FamilyGuarded(cfg: Config, t: real, runtime: real, saving: real, lo: real, hi: real)
    requires Family(cfg, t, runtime, saving, lo, hi) && SlowSaving(saving, runtime, lo, hi) && t >= 3.0 * MICRO
    ensures Guarded(cfg, lo, hi)
  {
    hide Immediate, ProperLoads, SignalWithin, Times;
    RangePositive(cfg.signal, lo, hi);
    forall j | j in cfg.jobs && !Immediate(cfg, j)
      ensures SlowSaving(saving, cfg.jobs[j].runtime, lo, hi)
    {
      TimesUp(lo, runtime, cfg.jobs[j].runtime);
      TimesUp(saving, Times(lo, runtime), Times(lo, cfg.jobs[j].runtime));
    }
  }

  /** A wait below two microseconds that saves the minimum. */
  lemma FastSaving(runtime: real, saving: real, lo: real, hi: real) returns (w: real)
    requires !SlowSaving(saving, runtime, lo, hi) && 0.0 < lo <= hi && runtime >= TWO_MICROS
    ensures MICRO <= w < TWO_MICROS
    ensures Times(100.0 * (hi - lo), w) >= Times(saving, Times(lo, runtime) + Times(hi - lo, w))
  {
    hide Times;
    var range, need := hi - lo, Times(lo, runtime);
    TimesPositive(lo, runtime);
    if saving <= 0.0 {
      w := MICRO;
      NoSaving(range, need, saving);
    } else {
      TimesPositive(saving, need);
      TimesNests(100.0 - saving, range, TWO_MICROS);
      w := EnoughWait(Times(100.0 - saving, range), Times(saving, need));
      SplitRange(range, w, saving);
      TimesAdds(saving, need, Times(range, w));
    }
  }

  lemma NoSaving(range: real, need: real, saving: real)
    requires saving <= 0.0 && range >= 0.0 && need >= 0.0
    ensures Times(100.0 * range, MICRO) >= Times(saving, need + Times(range, MICRO))
  {
    var all := need + range * MICRO;
    assert all >= 0.0 && saving * all <= 0.0;
  }

  lemma EnoughWait(rate: real, need: real) returns (w: real)
    requires Times(rate, TWO_MICROS) > need > 0.0
    ensures Times(rate, w) >= need && MICRO <= w < TWO_MICROS
  {
    hide Times;
    FactorPositive(rate, TWO_MICROS);
    var q := need / rate;
    QuotientTimes(rate, need);
    w := Max(q, MICRO);
    TimesUp(rate, q, w);
    if q >= TWO_MICROS {
      TimesUp(rate, TWO_MICROS, q);
      assert false;
    }
  }

  lemma QuotientTimes(rate: real, need: real)
    requires rate > 0.0
    ensures Times(rate, need / rate) == need
  {
  }

  lemma SplitRange(range: real, w: real, saving: real)
    ensures Times(100.0 * range, w) == Times(Times(100.0 - saving, range), w) + Times(saving, Times(range, w))
  {
  }

  /** The case of a job whose release comes w after a whole microsecond, and is sent as that microsecond. */
  lemma FastCase(t: real, runtime: real, saving: real, lo: real, hi: real, w: real) returns (k: Case, m: int)
    requires t >= 3.0 * MICRO && MICRO <= w < TWO_MICROS <= runtime && 0.0 < lo <= hi
    requires Times(100.0 * (hi - lo), w) >= Times(saving, Times(lo, runtime) + Times(hi - lo, w))
    ensures SentTooEarly(k, m, Lost) && Family(OneJob(k), t, runtime, saving, lo, hi)
  {
    hide Times;
    m := Micros(t) - 1;
    var off := Seconds(m, 0) + w - t;
    assert -MICRO < off < MICRO;
    k := Case(t, off, runtime, saving, lo, hi);
    assert Due(k) - Seconds(m, 0) == w;
    assert Micros(Due(k)) == m + 1;
  }

  /** Over all configurations with a given tick, minimum saving, least runtime and range of intensities: no delivered
      exchange ever trips the failsafe, however products and sums round, exactly when the intensity cannot fall fast
      enough to save the minimum in less than two microseconds. */
  lemma GuardExactly(t: real, runtime: real, saving: real, lo: real, hi: real)
    requires t >= 3.0 * MICRO && runtime >= TWO_MICROS && 0.0 < lo <= hi
    ensures SlowSaving(saving, runtime, lo, hi) <==>
              forall cfg: Config, epoch, s: Loop, e: Event ::
                Family(cfg, t, runtime, saving, lo, hi) && HeldFlexible(cfg, s.ctl.held) ==> StaysUp(cfg, epoch, s, e)
  {
    hide InStep, Advance, Expected, ValidConfig, Known, Family, HeldFlexible, SlowSaving, Times;
    if SlowSaving(saving, runtime, lo, hi) {
      forall cfg: Config, epoch, s: Loop, e: Event |
        Family(cfg, t, runtime, saving, lo, hi) && HeldFlexible(cfg, s.ctl.held)
        ensures StaysUp(cfg, epoch, s, e)
      {
        if ValidConfig(cfg) && InStep(cfg, epoch, s) && Expected(cfg, s, e) && (e.Polling? ==> e.delivered) {
          FamilyGuarded(cfg, t, runtime, saving, lo, hi);
          GuardedStaysUp(cfg, epoch, s, e, lo, hi);
        }
      }
    } else {
      var w := FastSaving(runtime, saving, lo, hi);
      var k, m := FastCase(t, runtime, saving, lo, hi, w);
      TooEarlyTrips(k, m, Lost);
      NothingHeld(OneJob(k), Arrived(0));
      assert !StaysUp(OneJob(k), 0, Arrived(0), PollAt(m, Lost));
    }
  }

  lemma NothingHeld(cfg: Config, s: Loop)
    requires s.ctl.held == []
    ensures HeldFlexible(cfg, s.ctl.held)
  {
  }

  lemma GuardedStaysUp(cfg: Config, epoch: int, s: Loop, e: Event, lo: real, hi: real)
    requires ValidConfig(cfg) && Guarded(cfg, lo, hi) && InStep(cfg, epoch, s) && Expected(cfg, s, e)
    requires HeldFlexible(cfg, s.ctl.held) && (e.Polling? ==> e.delivered)
    ensures Known(cfg, s.ctl) && KnownJobs(cfg, s.bridge.jobs) && !Advance(cfg, epoch, s, e).bridge.failed
  {
    hide Guarded, InStep, Advance, Expected, ValidConfig, Known, KnownJobs, Exchanged, Refused;
    EventKeepsStep(cfg, epoch, s, e);
    GuardedNeverRefused(cfg, epoch, s, e, lo, hi);
    InStepParts(cfg, epoch, Advance(cfg, epoch, s, e));
  }
}
