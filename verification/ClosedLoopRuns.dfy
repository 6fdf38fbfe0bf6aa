/** Whole runs of bridge and controller: they stay in step, and nobody waits longer than promised. */
module ClosedLoopRuns {
  import opened Basics
  import opened Selection
  import opened Controller
  import opened ControllerBooks
  import opened ControllerStep
  import opened ControllerBudget
  import opened ControllerRuns
  import opened Wire
  import opened ClosedLoop
  import B = Bridge
  import BridgeSafety

  // ---------- the controller's reply ----------

  lemma EncodedIds(r: Response, rounding: Rounding)
    ensures var n := Encode(r, rounding).numbers;
            && |n| == 2 + |r.release| && n[0] == Sent(r.nextWake, rounding) && n[1] == |r.release|
            && B.ReleaseIds(n) == r.release
  {
    hide Sent;
  }

  lemma NoDuplicatesIsDistinct(ids: seq<JobId>)
    requires NoDuplicates(ids)
    ensures B.DistinctIds(ids)
  {
  }

  lemma ReplyWellFormed(jobs: seq<B.V2Job>, r: Response, rounding: Rounding)
    requires NoDuplicates(r.release)
    requires forall j :: j in r.release ==> exists i :: 0 <= i < |jobs| && jobs[i].id == j && !jobs[i].submitted
    ensures B.WellFormed(jobs, Encode(r, rounding).numbers) && |r.release| <= B.Pending(jobs)
  {
    hide Sent, B.Pending, B.LastPending, NoDuplicates;
    EncodedIds(r, rounding);
    NoDuplicatesIsDistinct(r.release);
    PendingIds(jobs, r.release);
    CountFits(jobs, r.release);
  }

  /** A job that stays held makes the count smaller than the pending jobs. */
  lemma HeldStaysPending(jobs: seq<B.V2Job>, out: seq<JobId>, id: JobId)
    requires NoDuplicates(out) && id !in out
    requires exists i :: 0 <= i < |jobs| && jobs[i].id == id && !jobs[i].submitted
    requires forall j :: j in out ==> exists i :: 0 <= i < |jobs| && jobs[i].id == j && !jobs[i].submitted
    ensures |out| < B.Pending(jobs)
  {
    hide B.Pending, B.LastPending;
    var ids := out + [id];
    assert forall j :: j in ids <==> j in out || j == id;
    PendingIds(jobs, ids);
    NoDuplicatesIsDistinct(out);
    assert B.DistinctIds(ids);
    CountFits(jobs, ids);
  }

  lemma NextPartition(cfg: Config, st: State)
    requires ValidConfig(cfg) && Sound(cfg, st)
    ensures Partition(cfg, st, {}) && AllPlanned(cfg, st.held)
  {
  }

  /** Whatever the tick length: the controller answers, its reply is readable and names pending jobs only, and the
      bridge accepts it exactly when nothing stays held or the wake time it reads is still ahead. */
  lemma ReplyAcceptedExactly(
    cfg: Config, epoch: int, s: Loop, jobs: seq<B.V2Job>, starts: seq<real>, later: int, rounding: Rounding)
    requires ValidConfig(cfg) && Sound(cfg, s.ctl) && s.clock <= later && |starts| == |jobs|
    requires KnownJobs(cfg, jobs) && SameJobs(jobs, s.ctl) && SameClock(s, cfg, epoch)
    ensures Known(cfg, s.ctl)
    ensures var request := Message(jobs, starts, later, epoch);
            var step := Step(cfg, s.ctl, request);
            && Valid(cfg, s.ctl, request) && step.Ok? && Sound(cfg, step.value.0)
            && Outcome(cfg, s.ctl, request, step.value.0, step.value.1)
            && B.WellFormed(jobs, Encode(step.value.1, rounding).numbers)
            && (B.Accepted(jobs, Encode(step.value.1, rounding), later, epoch) <==>
                  step.value.0.held == [] || Sent(step.value.1.nextWake, rounding) + epoch > later)
  {
    hide ValidConfig, Sound, Seconds, NextWake, Sent, Step, HoldsPart, BudgetsPart, Unreported, Snapshot, Valid,
         NoDuplicates, B.Pending, B.WellFormed, SameJobs, SameClock, Partition, AllPlanned;
    MessageValid(cfg, epoch, s, jobs, starts, later);
    var request := Message(jobs, starts, later, epoch);
    StepOutcome(cfg, s.ctl, request);
    var (next, reply) := Step(cfg, s.ctl, request).value;
    NextPartition(cfg, next);
    ReleasesArePending(cfg, epoch, s.ctl, jobs, request, next, reply.release);
    ReplyWellFormed(jobs, reply, rounding);
    EncodedIds(reply, rounding);
    NoDuplicatesIsDistinct(reply.release);
    PendingIds(jobs, reply.release);
    CountFits(jobs, reply.release);
    if next.held == [] {
      assert HeldJobs(next.held) == {};
    } else {
      HeldIsPending(cfg, s.ctl, jobs, request, next, reply.release, next.held[0], epoch);
      HeldStaysPending(jobs, reply.release, next.held[0].job);
    }
  }

  lemma HeldIsPending(
    cfg: Config, ctl: State, jobs: seq<B.V2Job>, r: Request, next: State, out: seq<JobId>, h: Hold, epoch: int)
    requires ValidConfig(cfg) && Sound(cfg, ctl) && KnownJobs(cfg, jobs) && SameJobs(jobs, ctl) && h in next.held
    requires r.arrivals == Unreported(jobs, epoch) && ReleasesPart(cfg, ctl, r, next, out) && Partition(cfg, next, {})
    ensures h.job !in out
    ensures exists i :: 0 <= i < |jobs| && jobs[i].id == h.job && !jobs[i].submitted
  {
    hide ValidConfig, AllPlanned, ReservedExact, Seconds, NoDuplicates, Unreported;
    ArrivalsAreUnreported(cfg, jobs, epoch);
    assert h.job in HeldJobs(next.held) && h.job in next.seen;
    assert h.job !in Elements(out);
    assert h.job !in next.released;
  }

  // ---------- events ----------

  datatype Event = Arriving(id: int, when: int)
                 | Polling(now: int, later: int, observed: seq<int>, starts: seq<real>,
                           delivered: bool, rounding: Rounding)

  /** Arrivals are known jobs, each arriving once, while the table has room; the clock never runs backwards. */
  ghost predicate Expected(cfg: Config, s: Loop, e: Event) {
    match e
    case Arriving(id, when) => id >= 0 && id in cfg.jobs && !HasJob(s.bridge.jobs, id) && |s.bridge.jobs| < B.MAX_JOBS
    case Polling(now, later, observed, starts, delivered, rounding) =>
      s.clock <= now <= later && |observed| == |s.bridge.jobs| == |starts|
  }

  /** A tick at `now` ends before the exchange. */
  predicate NoExchange(st: B.State, now: int, observed: seq<int>)
    requires |observed| == |st.jobs|
  {
    st.jobs == [] || st.failed || B.Quiet(st, now, observed)
  }

  function Answer(cfg: Config, ctl: State, r: Request, rounding: Rounding): (State, B.Reply)
    requires ValidConfig(cfg) && Known(cfg, ctl)
  {
    match Step(cfg, ctl, r)
    case Ok(step) => (step.0, Encode(step.1, rounding))
    case Err(_) => (ctl, B.NoLine)
  }

  /** Both sides after one event; an undelivered exchange leaves the bridge without a line. */
  ghost function Advance(cfg: Config, epoch: int, s: Loop, e: Event): Loop
    requires ValidConfig(cfg) && Known(cfg, s.ctl) && KnownJobs(cfg, s.bridge.jobs) && Expected(cfg, s, e)
  {
    match e
    case Arriving(id, when) => s.(bridge := B.Arrive(s.bridge, id, when))
    case Polling(now, later, observed, starts, delivered, rounding) =>
      if NoExchange(s.bridge, now, observed) then
        s.(bridge := B.Tick(s.bridge, now, observed, later, B.NoLine, epoch), clock := now)
      else if !delivered then
        s.(bridge := B.Tick(s.bridge, now, observed, later, B.NoLine, epoch), clock := later)
      else
        ObserveKnown(cfg, s.bridge.jobs, observed);
        var jobs := B.Observe(s.bridge.jobs, observed);
        var (ctl, reply) := Answer(cfg, s.ctl, Message(jobs, starts, later, epoch), rounding);
        Loop(B.Tick(s.bridge, now, observed, later, reply, epoch), ctl, later)
  }

  lemma ObserveKnown(cfg: Config, jobs: seq<B.V2Job>, observed: seq<int>)
    requires KnownJobs(cfg, jobs) && |observed| == |jobs|
    ensures KnownJobs(cfg, B.Observe(jobs, observed))
  {
  }

  lemma ObserveSame(jobs: seq<B.V2Job>, observed: seq<int>, ctl: State)
    requires |observed| == |jobs| && (forall i :: 0 <= i < |jobs| ==> jobs[i].id >= 0) && SameJobs(jobs, ctl)
    ensures SameJobs(B.Observe(jobs, observed), ctl)
  {
    var r := B.Observe(jobs, observed);
    forall j | j in ctl.seen
      ensures HasJob(r, j)
    {
      var i :| 0 <= i < |jobs| && jobs[i].id == j;
      assert r[i].id == j;
    }
  }

  // ---------- an arrival keeps both in step ----------

  lemma ArrivalKeepsStep(cfg: Config, epoch: int, s: Loop, id: int, when: int)
    requires ValidConfig(cfg) && InStep(cfg, epoch, s) && Expected(cfg, s, Arriving(id, when))
    ensures InStep(cfg, epoch, s.(bridge := B.Arrive(s.bridge, id, when)))
  {
    hide ValidConfig, Sound, NextWake, Seconds, SubmitsAre, Sent;
    SoundSeen(cfg, s.ctl);
    var jobs, next := s.bridge.jobs, B.Arrive(s.bridge, id, when).jobs;
    var n := |jobs|;
    assert next == jobs + [B.V2Job(id, when, false, false, -1)];
    assert id !in s.ctl.seen;
    forall j | j in s.ctl.seen
      ensures HasJob(next, j)
    {
      var i :| 0 <= i < n && jobs[i].id == j;
      assert next[i].id == j;
    }
    forall h | h in s.ctl.held
      ensures ArrivedThen(next, h, epoch)
    {
      var i :| 0 <= i < n && jobs[i].id == h.job && h.arrived == Seconds(jobs[i].arrived, epoch);
      assert next[i] == jobs[i];
    }
    forall i, j | 0 <= i < j < |next|
      ensures next[i].id != next[j].id
    {
      if j == n {
        assert jobs[i].id != id;
      }
    }
    assert !next[n].reported;
  }

  lemma SoundSeen(cfg: Config, st: State)
    requires ValidConfig(cfg) && Sound(cfg, st)
    ensures st.seen == HeldJobs(st.held) + st.released && HeldJobs(st.held) !! st.released
    ensures st.seen <= cfg.jobs.Keys
  {
  }

  // ---------- a delivered exchange keeps both in step ----------

  /** After an obeyed reply the bridge's marks match the controller's new books. */
  lemma ObeySameJobs(cfg: Config, epoch: int, st: B.State, ctl: State, r: Request, next: State,
                     reply: Response, rounding: Rounding)
    requires ValidConfig(cfg) && Sound(cfg, ctl) && KnownJobs(cfg, st.jobs) && SameJobs(st.jobs, ctl)
    requires r.arrivals == Unreported(st.jobs, epoch) && ReleasesPart(cfg, ctl, r, next, reply.release)
    requires B.WellFormed(st.jobs, Encode(reply, rounding).numbers)
    ensures var b := B.Obey(st, Encode(reply, rounding).numbers, epoch);
            && KnownJobs(cfg, b.jobs) && SameJobs(b.jobs, next) && AllReported(b.jobs)
            && b.submits == st.submits + reply.release && b.wake == Sent(reply.nextWake, rounding) + epoch
            && b.failed == st.failed && b.direct == st.direct && |b.jobs| == |st.jobs|
            && (forall i :: 0 <= i < |b.jobs| ==>
                  b.jobs[i].id == st.jobs[i].id && b.jobs[i].arrived == st.jobs[i].arrived)
  {
    hide ValidConfig, Sound, Sent, Seconds, NoDuplicates, B.LastPending, B.Obey, Unreported, B.Pending;
    EncodedIds(reply, rounding);
    var numbers := Encode(reply, rounding).numbers;
    BridgeSafety.ObeyExactly(st, numbers, epoch);
    ArrivalsAreUnreported(cfg, st.jobs, epoch);
    var b := B.Obey(st, numbers, epoch);
    forall i | 0 <= i < |b.jobs|
      ensures b.jobs[i].submitted <==> b.jobs[i].id in next.released
      ensures b.jobs[i].id in next.seen
    {
      if !st.jobs[i].submitted {
        PlacesById(st.jobs, reply.release, i);
        assert st.jobs[i].id in reply.release <==> st.jobs[i].id in Elements(reply.release);
      }
    }
    forall j | j in next.seen
      ensures HasJob(b.jobs, j)
    {
      var i :| 0 <= i < |st.jobs| && st.jobs[i].id == j;
      assert b.jobs[i].id == j;
    }
  }

  lemma ObeySubmits(before: seq<int>, released: set<JobId>, out: seq<JobId>)
    requires SubmitsAre(before, released) && NoDuplicates(out) && Elements(out) !! released
    ensures SubmitsAre(before + out, released + Elements(out))
  {
    var all := before + out;
    assert forall x :: x in all <==> x in before || x in out;
    forall i, j | 0 <= i < j < |all|
      ensures all[i] != all[j]
    {
      if i < |before| <= j {
        assert before[i] in before && out[j - |before|] in Elements(out);
      }
    }
  }

  /** New holds carry the arrival time the bridge recorded; old holds keep theirs. */
  lemma HoldsArrivedThen(
    cfg: Config, epoch: int, ctl: State, r: Request, next: State, jobs: seq<B.V2Job>, after: seq<B.V2Job>)
    requires ValidConfig(cfg) && Sound(cfg, ctl) && Valid(cfg, ctl, r) && HoldsPart(cfg, ctl, r, next)
    requires KnownJobs(cfg, jobs) && r.arrivals == Unreported(jobs, epoch)
    requires forall h :: h in ctl.held ==> ArrivedThen(jobs, h, epoch)
    requires |after| == |jobs| && forall i :: 0 <= i < |jobs| ==>
              after[i].id == jobs[i].id && after[i].arrived == jobs[i].arrived
    ensures forall h :: h in next.held ==> ArrivedThen(after, h, epoch)
  {
    hide ValidConfig, Sound, Seconds, Unreported, Ends, Overflows, OnGrid, OptionAt, Backlog, Feasible, Immediate;
    SoundIsKnown(cfg, ctl);
    ValidKnown(cfg, ctl, r);
    ArrivalsAreJobs(jobs, epoch);
    forall h | h in next.held
      ensures ArrivedThen(after, h, epoch)
    {
      if h in ctl.held {
        var i :| 0 <= i < |jobs| && jobs[i].id == h.job && h.arrived == Seconds(jobs[i].arrived, epoch);
        assert after[i].id == h.job;
      } else {
        var c :| OfferedTo(cfg, r.arrivals, r.states, r.now, c) && h == HoldFor(c);
        var a :| a in r.arrivals && !Immediate(cfg, a.job) && Offered(cfg, a, r.states, r.now, c);
        var j :| j in jobs && Reports(a, j, epoch);
        var i :| 0 <= i < |jobs| && jobs[i] == j;
        assert after[i].id == h.job;
      }
    }
  }

  /** The reply leaves a hold, and the wake time the bridge reads is not ahead of its clock. */
  predicate PastWake(next: State, reply: Response, later: int, epoch: int, rounding: Rounding) {
    next.held != [] && Sent(reply.nextWake, rounding) + epoch <= later
  }

  /** The facts a delivered exchange establishes, whatever the tick and the rounding: the reply is accepted, and both
      sides stay in step, exactly when its wake time is still ahead or nothing stays held. */
  lemma ExchangeKeepsStep(
    cfg: Config, epoch: int, s: Loop, st: B.State, starts: seq<real>, later: int, rounding: Rounding)
    requires ValidConfig(cfg) && InStep(cfg, epoch, s) && s.clock <= later && |starts| == |st.jobs|
    requires KnownJobs(cfg, st.jobs) && SameJobs(st.jobs, s.ctl) && |st.jobs| <= B.MAX_JOBS
    requires !st.failed && st.direct == [] && st.submits == s.bridge.submits
    requires forall h :: h in s.ctl.held ==> ArrivedThen(st.jobs, h, epoch)
    ensures Known(cfg, s.ctl)
    ensures var request := Message(st.jobs, starts, later, epoch);
            var step := Step(cfg, s.ctl, request);
            && Valid(cfg, s.ctl, request) && step.Ok? && Outcome(cfg, s.ctl, request, step.value.0, step.value.1)
            && Sound(cfg, step.value.0)
            && B.WellFormed(st.jobs, Encode(step.value.1, rounding).numbers)
            && (B.Accepted(st.jobs, Encode(step.value.1, rounding), later, epoch) <==>
                  !PastWake(step.value.0, step.value.1, later, epoch, rounding))
            && InStep(cfg, epoch, Loop(B.Obey(st, Encode(step.value.1, rounding).numbers, epoch), step.value.0, later))
  {
    hide ValidConfig, Sound, Seconds, NextWake, Sent, Step, HoldsPart, BudgetsPart, Unreported, Snapshot, Valid,
         NoDuplicates, B.Pending, B.WellFormed, B.Accepted, SameJobs, SameClock, Partition, AllPlanned, ArrivedThen,
         B.Obey, SubmitsAre;
    InStepClock(cfg, epoch, s);
    var request := Message(st.jobs, starts, later, epoch);
    ReplyAcceptedExactly(cfg, epoch, s, st.jobs, starts, later, rounding);
    var (next, reply) := Step(cfg, s.ctl, request).value;
    ReleasedOnce(cfg, s.ctl, request, next, reply);
    ObeySameJobs(cfg, epoch, st, s.ctl, request, next, reply, rounding);
    var b := B.Obey(st, Encode(reply, rounding).numbers, epoch);
    HoldsArrivedThen(cfg, epoch, s.ctl, request, next, st.jobs, b.jobs);
    ObeySubmits(st.submits, s.ctl.released, reply.release);
    NextPartition(cfg, next);
    SoundReleases(cfg, next);
    ClockAfter(cfg, epoch, Loop(b, next, later), reply, rounding);
  }

  lemma InStepClock(cfg: Config, epoch: int, s: Loop)
    requires ValidConfig(cfg) && InStep(cfg, epoch, s)
    ensures Sound(cfg, s.ctl) && SameClock(s, cfg, epoch) && SubmitsAre(s.bridge.submits, s.ctl.released)
  {
  }

  lemma SoundReleases(cfg: Config, st: State)
    requires ValidConfig(cfg) && Sound(cfg, st)
    ensures st.lastNow.Some? ==> forall h :: h in st.held ==> h.release > st.lastNow.value
  {
  }

  lemma ClockAfter(cfg: Config, epoch: int, s: Loop, reply: Response, rounding: Rounding)
    requires s.ctl.lastNow == Some(Seconds(s.clock, epoch))
    requires reply.nextWake == NextWake(cfg, s.ctl.held, Seconds(s.clock, epoch))
    requires s.bridge.wake == Sent(reply.nextWake, rounding) + epoch
    ensures SameClock(s, cfg, epoch)
  {
  }

  // ---------- one event ----------

  /** With nothing exchanged, the tick changes nothing and the wake time has not come. */
  lemma QuietKeepsStep(cfg: Config, epoch: int, s: Loop, now: int, observed: seq<int>, later: int, reply: B.Reply)
    requires ValidConfig(cfg) && InStep(cfg, epoch, s) && s.clock <= now
    requires |observed| == |s.bridge.jobs| && NoExchange(s.bridge, now, observed)
    ensures B.Tick(s.bridge, now, observed, later, reply, epoch) == s.bridge
    ensures InStep(cfg, epoch, s.(clock := now))
  {
    hide ValidConfig, Sound, Seconds, NextWake, Sent, B.Pending, SubmitsAre;
    BridgeSafety.QuietFacts(s.bridge, now, observed, later, reply, epoch);
    SecondsOrder(s.clock, now, epoch);
    SoundSeen(cfg, s.ctl);
    NextPartition(cfg, s.ctl);
    BridgeSafety.PendingZero(s.bridge.jobs);
    forall h | h in s.ctl.held
      ensures h.release > Seconds(now, epoch)
    {
      HeldHasJob(cfg, epoch, s, h);
      NotReportedIsNew(s.bridge.jobs);
      var wake := NextWake(cfg, s.ctl.held, s.ctl.lastNow.value);
      var rounding :| s.bridge.wake == Sent(wake, rounding) + epoch;
      BeforeSent(wake, rounding, now, epoch);
      WakeIsEarliest(cfg, s.ctl.held, s.ctl.lastNow.value);
    }
  }

  lemma NotReportedIsNew(jobs: seq<B.V2Job>)
    ensures BridgeSafety.SomethingNew(jobs) || forall i :: 0 <= i < |jobs| ==> jobs[i].submitted || jobs[i].reported
  {
  }

  lemma HeldHasJob(cfg: Config, epoch: int, s: Loop, h: Hold)
    requires ValidConfig(cfg) && InStep(cfg, epoch, s) && h in s.ctl.held
    ensures exists i :: 0 <= i < |s.bridge.jobs| && s.bridge.jobs[i].id == h.job
                        && !s.bridge.jobs[i].submitted && s.bridge.jobs[i].reported
    ensures forall i :: 0 <= i < |s.bridge.jobs| && s.bridge.jobs[i].submitted ==> s.bridge.jobs[i].reported
  {
    hide ValidConfig, NextWake, Micros, Seconds, AllPlanned, ReservedExact;
    SoundSeen(cfg, s.ctl);
    assert h.job in HeldJobs(s.ctl.held);
    assert HasJob(s.bridge.jobs, h.job);
  }

  lemma MicrosMonotone(x: real, y: real)
    requires x <= y
    ensures Micros(x) <= Micros(y)
  {
  }

  lemma ObserveExchange(cfg: Config, epoch: int, s: Loop, observed: seq<int>)
    requires ValidConfig(cfg) && InStep(cfg, epoch, s) && |observed| == |s.bridge.jobs|
    ensures var jobs := B.Observe(s.bridge.jobs, observed);
            && KnownJobs(cfg, jobs) && SameJobs(jobs, s.ctl)
            && (forall h :: h in s.ctl.held ==> ArrivedThen(jobs, h, epoch))
  {
    hide ValidConfig, Sound, Seconds, NextWake, Micros, SubmitsAre;
    ObserveKnown(cfg, s.bridge.jobs, observed);
    ObserveSame(s.bridge.jobs, observed, s.ctl);
    var jobs := B.Observe(s.bridge.jobs, observed);
    forall h | h in s.ctl.held
      ensures ArrivedThen(jobs, h, epoch)
    {
      var i :| 0 <= i < |jobs| && s.bridge.jobs[i].id == h.job && h.arrived == Seconds(s.bridge.jobs[i].arrived, epoch);
      assert jobs[i].id == h.job;
    }
  }

  /** What happens in a tick that reaches the controller: it is told what the bridge observed, and the bridge submits
      exactly the jobs it releases. */
  ghost predicate Exchanged(cfg: Config, epoch: int, s: Loop, e: Event, next: Loop)
    requires ValidConfig(cfg) && Known(cfg, s.ctl) && KnownJobs(cfg, s.bridge.jobs) && Expected(cfg, s, e) && e.Polling?
  {
    ObserveKnown(cfg, s.bridge.jobs, e.observed);
    var request := Message(B.Observe(s.bridge.jobs, e.observed), e.starts, e.later, epoch);
    var step := Step(cfg, s.ctl, request);
    && Sound(cfg, s.ctl) && Valid(cfg, s.ctl, request) && step.Ok? && next.ctl == step.value.0
    && Outcome(cfg, s.ctl, request, step.value.0, step.value.1)
    && next.bridge.submits == s.bridge.submits + step.value.1.release
    && Told(s.bridge.jobs, e.observed, e.starts, e.later, epoch, request)
  }

  /** The failsafe has tripped; both sides still know only configured jobs. */
  ghost predicate Down(cfg: Config, s: Loop)
    requires ValidConfig(cfg)
  {
    s.bridge.failed && KnownJobs(cfg, s.bridge.jobs) && Known(cfg, s.ctl)
  }

  lemma DownIsNotInStep(cfg: Config, epoch: int, s: Loop)
    requires ValidConfig(cfg) && Down(cfg, s)
    ensures !InStep(cfg, epoch, s)
  {
  }

  predicate AllSubmitted(jobs: seq<B.V2Job>) {
    forall i :: 0 <= i < |jobs| ==> jobs[i].submitted
  }

  /** The failsafe has tripped and handed over everything that was waiting. */
  ghost predicate Drained(cfg: Config, s: Loop, next: Loop)
    requires ValidConfig(cfg)
  {
    && Down(cfg, next) && AllSubmitted(next.bridge.jobs)
    && next.bridge.submits == s.bridge.submits + BridgeSafety.WaitingIds(s.bridge.jobs)
  }

  /** A refused reply submits everything and fails for good. */
  lemma RejectedSubmitsAll(cfg: Config, st: B.State, reply: B.Reply)
    requires KnownJobs(cfg, st.jobs)
    ensures var r := B.Reject(st, reply);
            && r.failed && KnownJobs(cfg, r.jobs) && AllSubmitted(r.jobs) && |r.jobs| == |st.jobs|
            && r.submits == st.submits + BridgeSafety.WaitingIds(st.jobs)
  {
    hide B.WellFormed, B.Fallback, BridgeSafety.WaitingIds;
    BridgeSafety.WaitingSame(B.Reported(st.jobs), st.jobs);
    BridgeSafety.FallbackExactly(B.Fail(st));
    BridgeSafety.FallbackExactly(B.Fail(st.(jobs := B.Reported(st.jobs))));
  }

  /** A delivered exchange whose reply leaves a hold while the wake time the bridge reads is past. */
  ghost predicate Refused(cfg: Config, epoch: int, s: Loop, e: Event)
    requires ValidConfig(cfg) && Known(cfg, s.ctl) && KnownJobs(cfg, s.bridge.jobs) && Expected(cfg, s, e)
  {
    && e.Polling? && e.delivered && !NoExchange(s.bridge, e.now, e.observed)
    && (ObserveKnown(cfg, s.bridge.jobs, e.observed);
        var step := Step(cfg, s.ctl, Message(B.Observe(s.bridge.jobs, e.observed), e.starts, e.later, epoch));
        step.Ok? && PastWake(step.value.0, step.value.1, e.later, epoch, e.rounding))
  }

  /** An arrival or a delivered tick keeps both sides in step exactly when its reply is not refused for a past wake
      time, whatever the tick and the rounding: the controller never refuses a request, and nothing else in its reply
      can trip the failsafe. */
  lemma EventKeepsStep(cfg: Config, epoch: int, s: Loop, e: Event)
    requires ValidConfig(cfg) && InStep(cfg, epoch, s) && Expected(cfg, s, e)
    requires e.Polling? ==> e.delivered
    ensures Known(cfg, s.ctl) && KnownJobs(cfg, s.bridge.jobs)
    ensures var next := Advance(cfg, epoch, s, e);
            && (InStep(cfg, epoch, next) <==> !Refused(cfg, epoch, s, e))
            && (Refused(cfg, epoch, s, e) ==> Drained(cfg, s, next))
            && (e.Polling? && !NoExchange(s.bridge, e.now, e.observed) && !Refused(cfg, epoch, s, e) ==>
                  Exchanged(cfg, epoch, s, e, next))
  {
    hide ValidConfig, InStep, Step, Outcome, Valid, B.Obey, B.Reject, B.Accepted, B.WellFormed, Message, B.Observe,
         Told, B.Quiet, KnownJobs, SameJobs, ArrivedThen, Seconds, B.Arrive, PastWake, Sent, Known,
         BridgeSafety.WaitingIds;
    InStepParts(cfg, epoch, s);
    SoundIsKnown(cfg, s.ctl);
    match e
    case Arriving(id, when) => ArrivalKeepsStep(cfg, epoch, s, id, when);
    case Polling(now, later, observed, starts, delivered, rounding) =>
      if NoExchange(s.bridge, now, observed) {
        QuietKeepsStep(cfg, epoch, s, now, observed, later, B.NoLine);
      } else {
        ObserveExchange(cfg, epoch, s, observed);
        var st := s.bridge.(jobs := B.Observe(s.bridge.jobs, observed));
        IdsKnown(cfg, st.jobs);
        ExchangeKeepsStep(cfg, epoch, s, st, starts, later, rounding);
        var (next, reply) := Step(cfg, s.ctl, Message(st.jobs, starts, later, epoch)).value;
        if PastWake(next, reply, later, epoch, rounding) {
          RejectedSubmitsAll(cfg, st, Encode(reply, rounding));
          BridgeSafety.ObserveFacts(s.bridge.jobs, observed);
          SoundIsKnown(cfg, next);
          DownIsNotInStep(cfg, epoch, Advance(cfg, epoch, s, e));
        } else {
          EncodedIds(reply, rounding);
          BridgeSafety.ObeyExactly(st, Encode(reply, rounding).numbers, epoch);
          IdsKnown(cfg, s.bridge.jobs);
          MessageTells(s.bridge.jobs, observed, starts, later, epoch);
        }
      }
  }

  lemma IdsKnown(cfg: Config, jobs: seq<B.V2Job>)
    requires KnownJobs(cfg, jobs)
    ensures DistinctJobs(jobs) && forall i :: 0 <= i < |jobs| ==> jobs[i].id >= 0
  {
  }

  lemma InStepParts(cfg: Config, epoch: int, s: Loop)
    requires ValidConfig(cfg) && InStep(cfg, epoch, s)
    ensures !s.bridge.failed && s.bridge.direct == [] && |s.bridge.jobs| <= B.MAX_JOBS
    ensures KnownJobs(cfg, s.bridge.jobs) && Sound(cfg, s.ctl)
  {
  }

  // ---------- runs ----------

  const BEGIN := Loop(B.START, START, 0)

  lemma BeginInStep(cfg: Config, epoch: int, clock: int)
    requires ValidConfig(cfg)
    ensures InStep(cfg, epoch, BEGIN.(clock := clock))
  {
    StartIsSound(cfg);
  }

  /** In step, or failed for good. */
  ghost predicate Sane(cfg: Config, epoch: int, s: Loop)
    requires ValidConfig(cfg)
  {
    InStep(cfg, epoch, s) || Down(cfg, s)
  }

  lemma SaneParts(cfg: Config, epoch: int, s: Loop)
    requires ValidConfig(cfg) && Sane(cfg, epoch, s)
    ensures Known(cfg, s.ctl) && KnownJobs(cfg, s.bridge.jobs)
  {
    hide ValidConfig, InStep, KnownJobs, Sound, Known;
    if InStep(cfg, epoch, s) {
      InStepParts(cfg, epoch, s);
      SoundIsKnown(cfg, s.ctl);
    }
  }

  /** A failed bridge stays failed, and asks nothing. */
  lemma DownStaysDown(cfg: Config, epoch: int, s: Loop, e: Event)
    requires ValidConfig(cfg) && Down(cfg, s) && Expected(cfg, s, e)
    ensures Down(cfg, Advance(cfg, epoch, s, e)) && !Refused(cfg, epoch, s, e)
  {
    hide ValidConfig, Known, B.Quiet, B.Fallback;
    if e.Polling? {
      var st := s.bridge.(jobs := B.Observe(s.bridge.jobs, e.observed));
      BridgeSafety.FallbackExactly(st);
    }
  }

  lemma EventKeepsSane(cfg: Config, epoch: int, s: Loop, e: Event)
    requires ValidConfig(cfg) && Sane(cfg, epoch, s) && Expected(cfg, s, e)
    requires e.Polling? ==> e.delivered
    ensures Known(cfg, s.ctl) && KnownJobs(cfg, s.bridge.jobs)
    ensures var next := Advance(cfg, epoch, s, e);
            && Sane(cfg, epoch, next)
            && (InStep(cfg, epoch, next) <==> InStep(cfg, epoch, s) && !Refused(cfg, epoch, s, e))
  {
    hide ValidConfig, InStep, Advance, Refused, Expected, KnownJobs, Known, Exchanged;
    SaneParts(cfg, epoch, s);
    if InStep(cfg, epoch, s) {
      EventKeepsStep(cfg, epoch, s, e);
    } else {
      DownStaysDown(cfg, epoch, s, e);
      DownIsNotInStep(cfg, epoch, Advance(cfg, epoch, s, e));
    }
  }

  /** Every event is one the environment promises, and every exchange is delivered. */
  ghost predicate Healthy(cfg: Config, epoch: int, s: Loop, es: seq<Event>)
    requires ValidConfig(cfg) && Sane(cfg, epoch, s)
    decreases |es|
  {
    es == []
    || (&& Expected(cfg, s, es[0]) && (es[0].Polling? ==> es[0].delivered)
        && (EventKeepsSane(cfg, epoch, s, es[0]);
            Healthy(cfg, epoch, Advance(cfg, epoch, s, es[0]), es[1..])))
  }

  ghost function After(cfg: Config, epoch: int, s: Loop, es: seq<Event>): Loop
    requires ValidConfig(cfg) && Sane(cfg, epoch, s) && Healthy(cfg, epoch, s, es)
    decreases |es|
  {
    if es == [] then s
    else
      EventKeepsSane(cfg, epoch, s, es[0]);
      After(cfg, epoch, Advance(cfg, epoch, s, es[0]), es[1..])
  }

  /** No reply of the run is refused. */
  ghost predicate NeverRefused(cfg: Config, epoch: int, s: Loop, es: seq<Event>)
    requires ValidConfig(cfg) && Sane(cfg, epoch, s) && Healthy(cfg, epoch, s, es)
    decreases |es|
  {
    es == []
    || (EventKeepsSane(cfg, epoch, s, es[0]);
        !Refused(cfg, epoch, s, es[0]) && NeverRefused(cfg, epoch, Advance(cfg, epoch, s, es[0]), es[1..]))
  }

  /** In every run without a transport failure the bridge and the controller end in step, so agree about every job,
      exactly when no reply of the run came with a past wake time; otherwise the failsafe has tripped for good. */
  lemma {:induction false} HealthyRunInStep(cfg: Config, epoch: int, s: Loop, es: seq<Event>)
    requires ValidConfig(cfg) && Sane(cfg, epoch, s) && Healthy(cfg, epoch, s, es)
    ensures Sane(cfg, epoch, After(cfg, epoch, s, es))
    ensures InStep(cfg, epoch, After(cfg, epoch, s, es)) <==> InStep(cfg, epoch, s) && NeverRefused(cfg, epoch, s, es)
    decreases |es|
  {
    hide ValidConfig, InStep, Advance, Expected, Refused, Sane, KnownJobs, Known;
    if es != [] {
      EventKeepsSane(cfg, epoch, s, es[0]);
      HealthyRunInStep(cfg, epoch, Advance(cfg, epoch, s, es[0]), es[1..]);
    }
  }

  // ---------- whole ticks and exact sums ----------

  /** The reply leaves a hold, asks to be woken in the very next microsecond, and that microsecond is lost. */
  predicate WakeLost(next: State, reply: Response, later: int, epoch: int, rounding: Rounding) {
    rounding.Lost? && next.held != [] && Micros(reply.nextWake) + epoch == later + 1
  }

  /** A delivered exchange that leaves a hold and loses the very next microsecond as its wake time. */
  ghost predicate Unlucky(cfg: Config, epoch: int, s: Loop, e: Event)
    requires ValidConfig(cfg) && Known(cfg, s.ctl) && KnownJobs(cfg, s.bridge.jobs) && Expected(cfg, s, e)
  {
    && e.Polling? && e.delivered && !NoExchange(s.bridge, e.now, e.observed)
    && (ObserveKnown(cfg, s.bridge.jobs, e.observed);
        var step := Step(cfg, s.ctl, Message(B.Observe(s.bridge.jobs, e.observed), e.starts, e.later, epoch));
        step.Ok? && WakeLost(step.value.0, step.value.1, e.later, epoch, e.rounding))
  }

  /** With a tick of whole microseconds and exact sums, a reply is refused exactly when it loses the next one. */
  lemma RefusedIsUnlucky(cfg: Config, epoch: int, s: Loop, e: Event)
    requires ValidConfig(cfg) && Whole(cfg.tick) && ExactSums(cfg) && InStep(cfg, epoch, s) && Expected(cfg, s, e)
    ensures Known(cfg, s.ctl) && KnownJobs(cfg, s.bridge.jobs)
    ensures Refused(cfg, epoch, s, e) <==> Unlucky(cfg, epoch, s, e)
  {
    hide ValidConfig, Whole, ExactSums, InStep, Step, Outcome, Valid, Message, B.Observe, B.Quiet, KnownJobs,
         SameJobs, ArrivedThen, Sent, Micros, Seconds, Known, NoExchange;
    InStepParts(cfg, epoch, s);
    SoundIsKnown(cfg, s.ctl);
    if e.Polling? && e.delivered && !NoExchange(s.bridge, e.now, e.observed) {
      ObserveExchange(cfg, epoch, s, e.observed);
      var st := s.bridge.(jobs := B.Observe(s.bridge.jobs, e.observed));
      WholeRefusal(cfg, epoch, s, st, e.starts, e.later, e.rounding);
    }
  }

  lemma WholeRefusal(cfg: Config, epoch: int, s: Loop, st: B.State, starts: seq<real>, later: int, rounding: Rounding)
    requires ValidConfig(cfg) && Whole(cfg.tick) && ExactSums(cfg)
    requires InStep(cfg, epoch, s) && s.clock <= later && |starts| == |st.jobs|
    requires KnownJobs(cfg, st.jobs) && SameJobs(st.jobs, s.ctl)
    requires forall h :: h in s.ctl.held ==> ArrivedThen(st.jobs, h, epoch)
    ensures Known(cfg, s.ctl)
    ensures var step := Step(cfg, s.ctl, Message(st.jobs, starts, later, epoch));
            step.Ok? ==> (PastWake(step.value.0, step.value.1, later, epoch, rounding)
                          <==> WakeLost(step.value.0, step.value.1, later, epoch, rounding))
  {
    hide ValidConfig, Sound, Whole, ExactSums, Seconds, NextWake, Micros, Sent, Step, BudgetsPart, Unreported,
         Snapshot, Valid, SameJobs, SameClock, AllPlanned, ArrivedThen;
    InStepClock(cfg, epoch, s);
    var request := Message(st.jobs, starts, later, epoch);
    MessageValid(cfg, epoch, s, st.jobs, starts, later);
    StepOutcome(cfg, s.ctl, request);
    var (next, reply) := Step(cfg, s.ctl, request).value;
    HoldsArrivedThen(cfg, epoch, s.ctl, request, next, st.jobs, st.jobs);
    NextPartition(cfg, next);
    HoldsWhole(cfg, epoch, st.jobs, next.held);
    WakeWhole(cfg, next.held, later, epoch);
    WakeInFuture(cfg, next);
    SentPassesExactly(reply.nextWake, rounding, later, epoch);
  }

  /** No exchange of the run is unlucky. */
  ghost predicate Lucky(cfg: Config, epoch: int, s: Loop, es: seq<Event>)
    requires ValidConfig(cfg) && Sane(cfg, epoch, s) && Healthy(cfg, epoch, s, es)
    decreases |es|
  {
    es == []
    || (EventKeepsSane(cfg, epoch, s, es[0]);
        !Unlucky(cfg, epoch, s, es[0]) && Lucky(cfg, epoch, Advance(cfg, epoch, s, es[0]), es[1..]))
  }

  /** With a whole tick and exact sums, a run without a transport failure ends in step exactly when no exchange of it
      lost the very next microsecond while a hold was left. */
  lemma {:induction false} WholeRunInStep(cfg: Config, epoch: int, s: Loop, es: seq<Event>)
    requires ValidConfig(cfg) && Whole(cfg.tick) && ExactSums(cfg) && InStep(cfg, epoch, s)
    requires Healthy(cfg, epoch, s, es)
    ensures InStep(cfg, epoch, After(cfg, epoch, s, es)) <==> Lucky(cfg, epoch, s, es)
    decreases |es|
  {
    hide ValidConfig, Whole, ExactSums, InStep, Advance, Expected, Refused, Unlucky, KnownJobs, Known;
    if es != [] {
      EventKeepsSane(cfg, epoch, s, es[0]);
      var next := Advance(cfg, epoch, s, es[0]);
      RefusedIsUnlucky(cfg, epoch, s, es[0]);
      if InStep(cfg, epoch, next) {
        WholeRunInStep(cfg, epoch, next, es[1..]);
      } else {
        HealthyRunInStep(cfg, epoch, next, es[1..]);
      }
    }
  }

  /** With products that lose nothing, no run is unlucky. */
  lemma {:induction false} ExactProductsAreLucky(cfg: Config, epoch: int, s: Loop, es: seq<Event>)
    requires ValidConfig(cfg) && Sane(cfg, epoch, s) && Healthy(cfg, epoch, s, es)
    requires forall e :: e in es && e.Polling? ==> !e.rounding.Lost?
    ensures Lucky(cfg, epoch, s, es)
    decreases |es|
  {
    hide ValidConfig, InStep, Advance, Expected, Sane, KnownJobs, Known, Step, NoExchange;
    if es != [] {
      EventKeepsSane(cfg, epoch, s, es[0]);
      ExactProductsAreLucky(cfg, epoch, Advance(cfg, epoch, s, es[0]), es[1..]);
    }
  }

  /** Reported but not submitted is exactly held, not reported is exactly new to the controller. */
  lemma InStepMeans(cfg: Config, epoch: int, s: Loop, i: nat)
    requires ValidConfig(cfg) && InStep(cfg, epoch, s) && i < |s.bridge.jobs|
    ensures var j := s.bridge.jobs[i];
            && (j.submitted <==> j.id in s.ctl.released)
            && (j.submitted <==> j.id in s.bridge.submits)
            && (j.reported && !j.submitted <==> j.id in HeldJobs(s.ctl.held))
            && (!j.reported <==> j.id !in s.ctl.seen)
            && (j.submitted ==> j.reported)
  {
    SoundSeen(cfg, s.ctl);
  }

  // ---------- waiting ----------

  /** A hold is due at the latest in the first tick at or after its planned release, and then goes out in that tick;
      so it waits no longer than its allowance plus the gap since the tick before, up to the rounding of its release. */
  lemma HoldLeavesInTime(cfg: Config, epoch: int, s: Loop, e: Event, h: Hold)
    requires ValidConfig(cfg) && InStep(cfg, epoch, s) && Expected(cfg, s, e)
    requires e.Polling? && e.delivered && h in s.ctl.held
    ensures Known(cfg, s.ctl) && h.job in cfg.jobs
    ensures var next := Advance(cfg, epoch, s, e);
            && (Seconds(e.now, epoch) >= h.release ==> h.job in next.bridge.submits)
            && (h.job in next.bridge.submits ==>
                  Seconds(e.later, epoch) - h.arrived
                    <= Allowance(cfg, h.job) + cfg.sumSlack + (Seconds(e.later, epoch) - Seconds(s.clock, epoch)))
  {
    hide ValidConfig, Step, Advance, Seconds, Allowance, B.Quiet, NextWake, Sent, Message, SubmitsAre, Valid, Ends;
    EventKeepsStep(cfg, epoch, s, e);
    SoundIsKnown(cfg, s.ctl);
    var next := Advance(cfg, epoch, s, e);
    assert Planned(cfg, h);
    PlannedBounds(cfg, h);
    SecondsOrder(s.clock, e.later, epoch);
    SecondsOrder(e.now, e.later, epoch);
    if Refused(cfg, epoch, s, e) {
      HeldHasJob(cfg, epoch, s, h);
      var i :| 0 <= i < |s.bridge.jobs| && s.bridge.jobs[i].id == h.job && !s.bridge.jobs[i].submitted;
      WaitingHas(s.bridge.jobs, i);
    } else if Seconds(e.now, epoch) >= h.release {
      DueReachesExchange(cfg, epoch, s, e, h);
      ObserveKnown(cfg, s.bridge.jobs, e.observed);
      var request := Message(B.Observe(s.bridge.jobs, e.observed), e.starts, e.later, epoch);
      RequestNow(B.Observe(s.bridge.jobs, e.observed), e.starts, e.later, epoch);
      WaitIsBounded(cfg, s.ctl, request, h);
    }
  }

  lemma {:induction false} WaitingHas(jobs: seq<B.V2Job>, i: nat)
    requires i < |jobs| && !jobs[i].submitted
    ensures jobs[i].id in BridgeSafety.WaitingIds(jobs)
  {
    var n := |jobs| - 1;
    if i < n {
      WaitingHas(jobs[..n], i);
    }
  }

  lemma RequestNow(jobs: seq<B.V2Job>, starts: seq<real>, later: int, epoch: int)
    requires |starts| == |jobs| && forall i :: 0 <= i < |jobs| ==> jobs[i].id >= 0
    ensures Message(jobs, starts, later, epoch).now == Seconds(later, epoch)
  {
  }

  lemma DueReachesExchange(cfg: Config, epoch: int, s: Loop, e: Event, h: Hold)
    requires ValidConfig(cfg) && InStep(cfg, epoch, s) && Expected(cfg, s, e)
    requires e.Polling? && h in s.ctl.held && Seconds(e.now, epoch) >= h.release
    ensures !NoExchange(s.bridge, e.now, e.observed)
  {
    hide ValidConfig, Seconds, NextWake, Sent, Sound, SameJobs, SubmitsAre, KnownJobs, B.Quiet, SameClock, NoExchange;
    if NoExchange(s.bridge, e.now, e.observed) {
      QuietKeepsStep(cfg, epoch, s, e.now, e.observed, e.later, B.NoLine);
    }
  }

  // ---------- a lost exchange ----------

  /** When an exchange is not delivered, every job still waiting is submitted in that same tick. */
  lemma LostExchangeSubmitsAll(cfg: Config, epoch: int, s: Loop, e: Event)
    requires ValidConfig(cfg) && InStep(cfg, epoch, s) && Expected(cfg, s, e)
    requires e.Polling? && !e.delivered && !NoExchange(s.bridge, e.now, e.observed)
    ensures Known(cfg, s.ctl)
    ensures var next := Advance(cfg, epoch, s, e).bridge;
            && next.failed && (forall i :: 0 <= i < |next.jobs| ==> next.jobs[i].submitted)
            && next.submits == s.bridge.submits + BridgeSafety.WaitingIds(s.bridge.jobs)
  {
    hide ValidConfig, InStep, B.Tick, B.Quiet, KnownJobs;
    InStepParts(cfg, epoch, s);
    SoundIsKnown(cfg, s.ctl);
    BridgeSafety.AllOrNothing(s.bridge, e.now, e.observed, e.later, B.NoLine, epoch);
  }
}
