/** When the sent wake time falls back onto the current time, the bridge takes that for a broken controller. A job for
    which that happens: with every tick that is no whole number of microseconds, and with the others when a product or a
    sum rounds the wrong way. */
module FractionalTick {
  import opened Basics
  import opened Intensity
  import opened Selection
  import opened Controller
  import opened ControllerBooks
  import opened ControllerStep
  import opened ControllerBudget
  import opened ControllerRuns
  import opened Wire
  import opened ClosedLoop
  import opened ClosedLoopRuns
  import B = Bridge
  import BridgeSafety

  /** One flexible job that arrives at time zero: its tick, what its only release sum is off by, its runtime, the
      minimum saving, and the intensities before and after that release. */
  datatype Case = Case(tick: real, off: real, runtime: real, saving: real, lo: real, hi: real)

  /** The only grid point. */
  function Due(k: Case): real {
    k.tick + k.off
  }

  predicate ProperCase(k: Case) {
    -k.tick < k.off < k.tick && 0.0 < k.runtime && 0.0 < k.lo <= k.hi
  }

  function OneJob(k: Case): Config {
    Config(map[0 := Meta("user", "pool", 1.0, k.runtime, true, true)],
           Signal([0.0, Due(k)], [k.hi, k.lo], Due(k) + k.runtime),
           k.tick, k.tick, if k.runtime > 0.0 then (k.tick + k.runtime) / k.runtime else 1.0, k.saving, Due(k), false,
           (from: real, steps: int) => k.off, if k.off >= 0.0 then k.off else -k.off)
  }

  lemma OneJobValid(k: Case)
    requires ProperCase(k)
    ensures ValidConfig(OneJob(k)) && Due(k) > 0.0
    ensures k.off == 0.0 ==> ExactSums(OneJob(k))
  {
  }

  /** Asked at `now`, waiting for the release saves at least the minimum. */
  predicate WorthIt(k: Case, now: real) {
    && ProperCase(k) && 0.0 <= now < Due(k) && Due(k) - now <= k.runtime
    && Times(100.0 * (k.hi - k.lo), Due(k) - now)
         >= Times(k.saving, Times(k.lo, k.runtime) + Times(k.hi - k.lo, Due(k) - now))
  }

  /** The mean over a run that begins w before the intensity falls. */
  function MeanBefore(k: Case, w: real): real
    requires k.runtime > 0.0
  {
    (Times(k.lo, k.runtime) + Times(k.hi - k.lo, w)) / k.runtime
  }

  lemma TwoRows(k: Case, a: real)
    requires ProperCase(k) && 0.0 <= a <= Due(k) && Due(k) - a <= k.runtime
    ensures ValidSignal(OneJob(k).signal)
    ensures SignalMean(OneJob(k).signal, a, k.runtime) == Some(MeanBefore(k, Due(k) - a))
  {
    hide Exposure, Times;
    OneJobValid(k);
    var s, r, d := OneJob(k).signal, k.runtime, Due(k);
    var rows := Rows(s);
    ExposureAdds(rows, a, d, a + r);
    ExposureInRow(rows, 0, a, d);
    ExposureInRow(rows, 1, d, a + r);
    TwoParts(k.lo, k.hi, d - a, r);
  }

  lemma TwoParts(lo: real, hi: real, w: real, r: real)
    ensures Times(hi, w) + Times(lo, r - w) == Times(lo, r) + Times(hi - lo, w)
  {
  }

  lemma GainEnough(lo: real, hi: real, r: real, w: real, saving: real)
    requires 0.0 < lo <= hi && 0.0 <= w && 0.0 < r
    requires Times(100.0 * (hi - lo), w) >= Times(saving, Times(lo, r) + Times(hi - lo, w))
    ensures var before, after := (Times(lo, r) + Times(hi - lo, w)) / r, (Times(lo, r) + Times(hi - lo, 0.0)) / r;
            before != 0.0 && (before - after) / before * 100.0 >= saving
  {
    var low, rise := lo * r, (hi - lo) * w;
    assert low > 0.0 && rise >= 0.0;
    var whole := low + rise;
    assert 100.0 * rise >= saving * whole;
    Quotients(low, rise, r, saving);
  }

  lemma Quotients(low: real, rise: real, r: real, saving: real)
    requires 0.0 < low && 0.0 <= rise && 0.0 < r && 100.0 * rise >= saving * (low + rise)
    ensures var before, after := (low + rise) / r, low / r;
            before != 0.0 && (before - after) / before * 100.0 >= saving
  {
    var before, after := (low + rise) / r, low / r;
    assert before * r == low + rise && after * r == low;
    assert before > 0.0;
    var q := (before - after) / before;
    assert q * before == before - after;
    assert q * (low + rise) == rise by {
      assert q * before * r == (before - after) * r;
    }
    SignOf(q * 100.0 - saving, low + rise);
  }

  lemma SignOf(x: real, y: real)
    requires y > 0.0 && x * y >= 0.0
    ensures x >= 0.0
  {
  }

  lemma OptionWorthwhile(k: Case, now: real)
    requires WorthIt(k, now) && ValidConfig(OneJob(k))
    ensures var o := OptionAt(OneJob(k), 0, now, Due(k), 0.0);
            EnoughGain(OneJob(k), o) && o.incrementalWait > 0.0 && o.utility.Finite? && o.release == Due(k)
  {
    hide SignalMean, ValidSignal, ValidConfig, Times;
    var d := Due(k);
    TwoRows(k, now);
    TwoRows(k, d);
    GainEnough(k.lo, k.hi, k.runtime, d - now, k.saving);
    assert SignalMean(OneJob(k).signal, now + 0.0, k.runtime) == Some(MeanBefore(k, d - now));
    assert SignalMean(OneJob(k).signal, Max(d, now + 0.0), k.runtime) == Some(MeanBefore(k, 0.0));
  }

  lemma SelfQuotient(t: real)
    requires t > 0.0
    ensures t / t == 1.0
  {
    var q := t / t;
    assert q * t == t;
    assert (q - 1.0) * t == 0.0;
  }

  lemma OneAllowance(k: Case)
    requires ProperCase(k)
    ensures Allowance(OneJob(k), 0) == k.tick
  {
    var ratio := (k.tick + k.runtime) / k.runtime;
    assert ratio * k.runtime == k.tick + k.runtime;
  }

  lemma OneGridPoint(k: Case)
    requires ProperCase(k) && ValidConfig(OneJob(k))
    ensures GridSteps(OneJob(k), 0) == 1
    ensures forall x :: OnGrid(OneJob(k), 0, 0.0, x) <==> x == Due(k)
  {
    hide ValidSignal, ValidConfig, Allowance;
    var cfg := OneJob(k);
    OneAllowance(k);
    SelfQuotient(k.tick);
    forall x
      ensures OnGrid(cfg, 0, 0.0, x) <==> x == Due(k)
    {
      assert GridPoint(cfg, 0.0, 1) == Due(k);
    }
  }

  /** The only grid point is worth waiting for. */
  lemma HoldIsOffered(k: Case, now: real) returns (c: Candidate)
    requires WorthIt(k, now)
    ensures ValidConfig(OneJob(k))
    ensures OfferedTo(OneJob(k), [Arrival(0, 0.0)], [], now, c)
    ensures c.job == 0 && ReserveOf(c) == Due(k)
  {
    hide ValidSignal, ValidConfig, OptionAt, OnGrid, Feasible, EnoughGain, AdmissionRules, Times;
    OneJobValid(k);
    var cfg, a := OneJob(k), Arrival(0, 0.0);
    assert Backlog(cfg, 0, [], now) == 0.0;
    OptionWorthwhile(k, now);
    var option := OptionAt(cfg, 0, now, Due(k), 0.0);
    BothGates(cfg, option);
    OneGridPoint(k);
    c := Candidate(0, 0.0, option);
    assert a in [a] && Offered(cfg, a, [], now, c);
  }

  lemma BothGates(cfg: Config, o: Choice)
    requires EnoughGain(cfg, o) && o.incrementalWait > 0.0 && o.utility.Finite?
    ensures Feasible(o, AdmissionRules(cfg))
  {
    var gates := AdmissionRules(cfg).gates;
    assert Failures(o, gates[..0]) == [];
    assert gates[..2] == gates && gates[..2][..1] == gates[..1] && gates[..1][..0] == gates[..0];
    assert Failures(o, gates[..1]) == [];
  }

  /** While the job is not held, nothing is committed and its candidate fits. */
  lemma CandidateFits(k: Case, st: State, r: Request, next: State, c: Candidate)
    requires ProperCase(k) && ValidConfig(OneJob(k)) && Sound(OneJob(k), st) && Valid(OneJob(k), st, r)
    requires st.held == [] && st.spent == map[] && next.held == [] && c.job == 0 && ReserveOf(c) == Due(k)
    requires BudgetsPart(OneJob(k), st, r, next) && ReservedExact(OneJob(k), next)
    ensures !Overflows(OneJob(k), next, c)
  {
    hide ValidConfig, Sound, Valid, ReserveOf;
    var cfg, u := OneJob(k), "user";
    SoundIsKnown(cfg, st);
    ValidReadable(cfg, st, r);
    assert Get(next.reserved, u) == ReservedOf(cfg, next.held, u) == 0.0;
    assert Get(next.spent, u) == Get(st.spent, u) + EndedWait(cfg, st.held, r.states, r.now, u);
  }

  lemma ValidReadable(cfg: Config, st: State, r: Request)
    requires Known(cfg, st) && Valid(cfg, st, r)
    ensures Readable(cfg, r.states)
  {
  }

  lemma SoundReserved(cfg: Config, st: State)
    requires ValidConfig(cfg) && Sound(cfg, st)
    ensures (forall h :: h in st.held ==> h.job in cfg.jobs) && ReservedExact(cfg, st)
  {
  }

  /** Given nothing spent before, the job is held until its grid point. */
  lemma JobIsHeld(k: Case, st: State, r: Request)
    requires WorthIt(k, r.now) && ValidConfig(OneJob(k)) && Sound(OneJob(k), st) && Valid(OneJob(k), st, r)
    requires st.held == [] && st.spent == map[] && r.arrivals == [Arrival(0, 0.0)] && r.states == []
    ensures Known(OneJob(k), st)
    ensures var s := Step(OneJob(k), st, r); s.Ok? && s.value.0.held != [] && s.value.1.nextWake <= Due(k)
  {
    hide ValidConfig, Step, OneJob, Sound, Valid, OptionAt, Feasible, Immediate, NextWake, ReleasesPart, BudgetsPart,
         OnGrid, Overflows, ReservedExact, Times;
    var cfg := OneJob(k);
    StepOutcome(cfg, st, r);
    var next := Step(cfg, st, r).value.0;
    SoundReserved(cfg, next);
    var c := HoldIsOffered(k, r.now);
    if next.held == [] {
      CandidateFits(k, st, r, next, c);
      assert false;
    }
    var h := next.held[0];
    assert h in next.held && h !in st.held;
    var x :| OfferedTo(cfg, r.arrivals, r.states, r.now, x) && h == HoldFor(x);
    OnlyRelease(k, r, x);
    WakeIsEarliest(cfg, next.held, r.now);
  }

  lemma OnlyRelease(k: Case, r: Request, c: Candidate)
    requires ProperCase(k) && ValidConfig(OneJob(k)) && r.arrivals == [Arrival(0, 0.0)] && r.states == []
    requires OfferedTo(OneJob(k), r.arrivals, r.states, r.now, c)
    ensures c.option.release == Due(k)
  {
    hide ValidConfig, OptionAt, Feasible, Immediate, OnGrid;
    OneGridPoint(k);
  }

  // ---------- the run ----------

  /** The state after the job's arrival at time zero. */
  function Arrived(clock: int): Loop {
    BEGIN.(bridge := B.Arrive(B.START, 0, 0), clock := clock)
  }

  /** Asked at instant m, with the release sent as no later than m. */
  predicate SentTooEarly(k: Case, m: int, rounding: Rounding) {
    0 <= m && WorthIt(k, Seconds(m, 0)) && Sent(Due(k), rounding) <= m
  }

  lemma SentMonotone(x: real, y: real, rounding: Rounding)
    requires x <= y && !rounding.Gained?
    ensures Sent(x, rounding) <= Sent(y, rounding)
  {
    hide Micros;
    MicrosMonotone(x, y);
  }

  lemma ReplyRefused(k: Case, m: int, rounding: Rounding, s: Loop, jobs: seq<B.V2Job>)
    requires SentTooEarly(k, m, rounding) && !rounding.Gained?
    requires ValidConfig(OneJob(k)) && s == Arrived(0) && InStep(OneJob(k), 0, s)
    requires jobs == B.Observe(s.bridge.jobs, [0])
    ensures Known(OneJob(k), s.ctl) && forall i :: 0 <= i < |jobs| ==> jobs[i].id >= 0
    ensures var reply := Answer(OneJob(k), s.ctl, Message(jobs, [0.0], m, 0), rounding).1;
            !B.Accepted(jobs, reply, m, 0)
  {
    hide Step, Sound, InStep, B.Accepted, OneJob, Valid, Outcome, SameJobs, SameClock, KnownJobs, Message,
         B.WellFormed, ArrivedThen, ValidConfig, Sent, Seconds, WorthIt;
    var cfg := OneJob(k);
    InStepParts(cfg, 0, s);
    SoundIsKnown(cfg, s.ctl);
    InStepClock(cfg, 0, s);
    ObserveExchange(cfg, 0, s, [0]);
    IdsKnown(cfg, jobs);
    ReplyAcceptedExactly(cfg, 0, s, jobs, [0.0], m, rounding);
    FirstMessage(jobs, m);
    JobIsHeld(k, s.ctl, Message(jobs, [0.0], m, 0));
    var reply := Step(cfg, s.ctl, Message(jobs, [0.0], m, 0)).value.1;
    SentMonotone(reply.nextWake, Due(k), rounding);
  }

  lemma RefusedFails(cfg: Config, epoch: int, s: Loop, e: Event, jobs: seq<B.V2Job>)
    requires ValidConfig(cfg) && InStep(cfg, epoch, s) && Known(cfg, s.ctl) && Expected(cfg, s, e)
    requires e.Polling? && e.delivered && !NoExchange(s.bridge, e.now, e.observed)
    requires jobs == B.Observe(s.bridge.jobs, e.observed) && forall i :: 0 <= i < |jobs| ==> jobs[i].id >= 0
    requires var reply := Answer(cfg, s.ctl, Message(jobs, e.starts, e.later, epoch), e.rounding).1;
             !B.Accepted(jobs, reply, e.later, epoch)
    ensures KnownJobs(cfg, s.bridge.jobs) && Advance(cfg, epoch, s, e).bridge.failed
  {
    hide ValidConfig, Step, InStep, Message, B.Accepted, B.Observe, KnownJobs, Answer, B.Reject, B.Quiet;
    InStepParts(cfg, epoch, s);
    ObserveKnown(cfg, s.bridge.jobs, e.observed);
    var reply := Answer(cfg, s.ctl, Message(jobs, e.starts, e.later, epoch), e.rounding).1;
    RejectedSubmitsAll(cfg, s.bridge.(jobs := jobs), reply);
  }

  /** A state in step and one delivered exchange after which the bridge has failed. */
  ghost predicate Trips(cfg: Config, s: Loop, e: Event) {
    && ValidConfig(cfg) && InStep(cfg, 0, s) && Expected(cfg, s, e) && Known(cfg, s.ctl) && s.ctl.held == []
    && e.Polling? && e.delivered && Advance(cfg, 0, s, e).bridge.failed
  }

  function PollAt(m: int, rounding: Rounding): Event {
    Polling(m, m, [0], [0.0], true, rounding)
  }

  /** The job arrives at 0 and the bridge asks at m. */
  lemma TooEarlyTrips(k: Case, m: int, rounding: Rounding)
    requires SentTooEarly(k, m, rounding) && !rounding.Gained?
    ensures Trips(OneJob(k), Arrived(0), PollAt(m, rounding))
  {
    hide Step, Sound, InStep, B.Accepted, OneJob, Valid, Known, Advance, ValidConfig, B.Observe, Answer, Sent,
         B.Quiet, Times;
    OneJobValid(k);
    var cfg, s, e := OneJob(k), Arrived(0), PollAt(m, rounding);
    JobKnown(k);
    BeginInStep(cfg, 0, 0);
    ArrivalKeepsStep(cfg, 0, BEGIN, 0, 0);
    SomethingToTell(s.bridge, e.observed);
    var jobs := B.Observe(s.bridge.jobs, e.observed);
    ReplyRefused(k, m, rounding, s, jobs);
    RefusedFails(cfg, 0, s, e, jobs);
  }

  lemma JobKnown(k: Case)
    ensures 0 in OneJob(k).jobs
  {
  }

  lemma FirstMessage(jobs: seq<B.V2Job>, m: int)
    requires jobs == B.Observe(B.Arrive(B.START, 0, 0).jobs, [0])
    ensures jobs == [B.V2Job(0, 0, false, false, -1)]
    ensures Message(jobs, [0.0], m, 0) == Request(Seconds(m, 0), [Arrival(0, 0.0)], [])
  {
    assert jobs == [B.V2Job(0, 0, false, false, -1)];
    assert jobs[..0] == [];
    assert Unreported(jobs, 0) == [] + [Arrival(0, Seconds(0, 0))];
    assert Snapshot(jobs, [0.0]) == [];
  }

  lemma SomethingToTell(st: B.State, observed: seq<int>)
    requires st == B.Arrive(B.START, 0, 0) && |observed| == 1
    ensures forall now :: !NoExchange(st, now, observed)
  {
    assert B.News(st.jobs[0], observed[0]);
  }

  // ---------- no minimum saving ----------

  /** An intensity that halves at the grid point, a long runtime, and no minimum saving. */
  function Halving(t: real, off: real): Case {
    Case(t, off, t + 1.0, 0.0, 1.0, 2.0)
  }

  lemma HalvingWorthIt(t: real, off: real, now: real)
    requires t > 0.0 && -t < off < t && off <= 1.0 && 0.0 <= now < t + off
    ensures WorthIt(Halving(t, off), now)
  {
  }

  /** A fractional tick, asked at the last whole microsecond before it. */
  lemma FractionTripsFailsafe(t: real)
    requires t > 0.0 && !Whole(t)
    ensures Trips(OneJob(Halving(t, 0.0)), Arrived(0), PollAt(Micros(t), Kept))
  {
    hide Trips, WorthIt;
    assert 0 <= Micros(t) && 0.0 <= Seconds(Micros(t), 0) < t;
    HalvingWorthIt(t, 0.0, Seconds(Micros(t), 0));
    TooEarlyTrips(Halving(t, 0.0), Micros(t), Kept);
  }

  /** A whole tick whose product loses a microsecond, asked one microsecond before it. */
  lemma LostMicrosecondTripsFailsafe(t: real)
    requires t > 0.0 && Whole(t)
    ensures Trips(OneJob(Halving(t, 0.0)), Arrived(0), PollAt(Micros(t) - 1, Lost))
  {
    hide Trips, WorthIt;
    var m := Micros(t) - 1;
    assert 0 <= m && 0.0 <= Seconds(m, 0) < t;
    HalvingWorthIt(t, 0.0, Seconds(m, 0));
    TooEarlyTrips(Halving(t, 0.0), m, Lost);
  }

  const TENTH: real := 0.0000001

  /** A whole tick whose sum rounds up by a tenth of a microsecond, asked when the tick is over. */
  lemma RoundedSumTripsFailsafe(t: real)
    requires t > 0.0 && Whole(t)
    ensures Trips(OneJob(Halving(t, TENTH)), Arrived(0), PollAt(Micros(t), Kept))
  {
    hide Trips, WorthIt;
    var m := Micros(t);
    assert 1 <= m && Seconds(m, 0) == t && Micros(t + TENTH) == m;
    HalvingWorthIt(t, TENTH, Seconds(m, 0));
    TooEarlyTrips(Halving(t, TENTH), m, Kept);
  }

  /** One event from a state in step leaves the bridge running. */
  ghost predicate StaysUp(cfg: Config, epoch: int, s: Loop, e: Event) {
    ValidConfig(cfg) && InStep(cfg, epoch, s) && Expected(cfg, s, e) && (e.Polling? ==> e.delivered) ==>
      Known(cfg, s.ctl) && !Advance(cfg, epoch, s, e).bridge.failed
  }

  /** The sums are exact unless they may round, and no product loses a microsecond unless it may. */
  ghost predicate Rounds(cfg: Config, e: Event, sums: bool, products: bool) {
    (ExactSums(cfg) || sums) && (e.Polling? && e.rounding.Lost? ==> products)
  }

  /** For configurations with any minimum saving, delivered exchanges never trip the failsafe, whatever the jobs, the
      signal and the history, exactly when the tick is a whole number of microseconds, sums do not round and products
      lose nothing. */
  lemma FailsafeSilentExactly(t: real, sums: bool, products: bool)
    requires t > 0.0
    ensures Whole(t) && !sums && !products <==>
              forall cfg: Config, epoch, s, e: Event :: cfg.tick == t && Rounds(cfg, e, sums, products) ==>
                                                          StaysUp(cfg, epoch, s, e)
  {
    hide Whole, InStep, Advance, Expected, ValidConfig, Known, ExactSums, Micros;
    OneJobValid(Halving(t, 0.0));
    if !Whole(t) {
      FractionTripsFailsafe(t);
      assert !StaysUp(OneJob(Halving(t, 0.0)), 0, Arrived(0), PollAt(Micros(t), Kept));
    } else if products {
      LostMicrosecondTripsFailsafe(t);
      assert !StaysUp(OneJob(Halving(t, 0.0)), 0, Arrived(0), PollAt(Micros(t) - 1, Lost));
    } else if sums {
      RoundedSumTripsFailsafe(t);
      assert !StaysUp(OneJob(Halving(t, TENTH)), 0, Arrived(0), PollAt(Micros(t), Kept));
    } else {
      forall cfg: Config, epoch, s, e: Event | cfg.tick == t && Rounds(cfg, e, sums, products)
        ensures StaysUp(cfg, epoch, s, e)
      {
        if ValidConfig(cfg) && InStep(cfg, epoch, s) && Expected(cfg, s, e) && (e.Polling? ==> e.delivered) {
          ExactStaysUp(cfg, epoch, s, e);
        }
      }
    }
  }

  lemma ExactStaysUp(cfg: Config, epoch: int, s: Loop, e: Event)
    requires ValidConfig(cfg) && Whole(cfg.tick) && ExactSums(cfg) && InStep(cfg, epoch, s) && Expected(cfg, s, e)
    requires e.Polling? ==> e.delivered && !e.rounding.Lost?
    ensures Known(cfg, s.ctl) && KnownJobs(cfg, s.bridge.jobs) && !Advance(cfg, epoch, s, e).bridge.failed
  {
    hide Whole, ExactSums, InStep, Advance, Expected, ValidConfig, Known, KnownJobs, Step, NoExchange, Message,
         Exchanged, Refused;
    EventKeepsStep(cfg, epoch, s, e);
    RefusedIsUnlucky(cfg, epoch, s, e);
    InStepParts(cfg, epoch, Advance(cfg, epoch, s, e));
  }
}
