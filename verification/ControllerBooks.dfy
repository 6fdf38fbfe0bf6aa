/** The controller's books: who is held, seen and released, and what each phase of a step does to them. */
module ControllerBooks {
  import opened Basics
  import opened Intensity
  import opened Selection
  import opened Controller

  // ---------- the invariant ----------

  /** What a user's current holds reserve in total. */
  function ReservedOf(cfg: Config, held: seq<Hold>, u: User): real
    requires forall h :: h in held ==> h.job in cfg.jobs
  {
    if held == [] then 0.0
    else
      var h := held[|held| - 1];
      ReservedOf(cfg, held[..|held| - 1], u) + if cfg.jobs[h.job].user == u then h.reserved else 0.0
  }

  predicate Distinct(held: seq<Hold>) {
    forall i, j :: 0 <= i < j < |held| ==> held[i].job != held[j].job
  }

  /** A release time the arrival could be offered: a whole number of ticks, within the allowance. */
  ghost predicate OnGrid(cfg: Config, job: JobId, arrived: real, release: real)
    requires ValidConfig(cfg) && job in cfg.jobs
  {
    exists k: int :: 1 <= k <= GridSteps(cfg, job) && release == GridPoint(cfg, arrived, k)
  }

  ghost predicate Planned(cfg: Config, h: Hold)
    requires ValidConfig(cfg)
  {
    h.job in cfg.jobs && OnGrid(cfg, h.job, h.arrived, h.release) && h.reserved == h.release - h.arrived
  }

  ghost predicate AllPlanned(cfg: Config, held: seq<Hold>)
    requires ValidConfig(cfg)
  {
    forall h :: h in held ==> Planned(cfg, h)
  }

  /** `seen` splits into held, released and, inside a step, the jobs still being ranked. */
  ghost predicate Partition(cfg: Config, st: State, limbo: set<JobId>) {
    && st.seen <= cfg.jobs.Keys
    && st.seen == HeldJobs(st.held) + st.released + limbo
    && HeldJobs(st.held) !! st.released
    && limbo !! (HeldJobs(st.held) + st.released)
  }

  ghost predicate ReservedExact(cfg: Config, st: State)
    requires forall h :: h in st.held ==> h.job in cfg.jobs
  {
    forall u :: Get(st.reserved, u) == ReservedOf(cfg, st.held, u)
  }

  ghost predicate Account(cfg: Config, st: State, limbo: set<JobId>)
    requires ValidConfig(cfg)
  {
    && Distinct(st.held)
    && AllPlanned(cfg, st.held)
    && Partition(cfg, st, limbo)
    && ReservedExact(cfg, st)
  }

  /** Between steps: nobody is being ranked, and every hold ends after the latest step. */
  ghost predicate Sound(cfg: Config, st: State)
    requires ValidConfig(cfg)
  {
    && Account(cfg, st, {})
    && (st.lastNow.None? ==> st.held == [])
    && (st.lastNow.Some? ==> forall h :: h in st.held ==> h.release > st.lastNow.value)
  }

  lemma StartIsSound(cfg: Config)
    requires ValidConfig(cfg)
    ensures Sound(cfg, START)
  {
  }

  lemma SoundIsKnown(cfg: Config, st: State)
    requires ValidConfig(cfg) && Sound(cfg, st)
    ensures Known(cfg, st)
  {
  }

  // ---------- grid ----------

  lemma FloorProduct(a: real, t: real, k: int)
    requires t > 0.0 && 1 <= k <= (a / t).Floor
    ensures t <= k as real * t <= a
  {
    var q := a / t;
    assert k as real <= q;
    assert q * t == a;
    assert (q - k as real) * t >= 0.0;
    assert (k as real - 1.0) * t >= 0.0;
  }

  /** What k ticks add to any time: at least a tick, and no more than the allowance. */
  lemma TicksWithin(cfg: Config, job: JobId, k: int) returns (delay: real)
    requires ValidConfig(cfg) && job in cfg.jobs && 1 <= k <= GridSteps(cfg, job)
    ensures cfg.tick <= delay <= Allowance(cfg, job)
    ensures forall from: real :: GridPoint(cfg, from, k) == from + delay + cfg.sumError(from, k)
  {
    hide Allowance, ValidSignal;
    delay := k as real * cfg.tick;
    FloorProduct(Allowance(cfg, job), cfg.tick, k);
  }

  lemma ErrorWithin(cfg: Config, from: real, k: int)
    requires ValidConfig(cfg)
    ensures -cfg.sumSlack <= cfg.sumError(from, k) <= cfg.sumSlack < cfg.tick
  {
  }

  /** A planned hold lasts a positive time and no longer than the job's allowance, up to the rounding of the sum. */
  lemma PlannedBounds(cfg: Config, h: Hold)
    requires ValidConfig(cfg) && Planned(cfg, h)
    ensures h.arrived < h.release <= h.arrived + Allowance(cfg, h.job) + cfg.sumSlack
    ensures 0.0 < h.reserved <= Allowance(cfg, h.job) + cfg.sumSlack
  {
    hide Allowance, ValidConfig, GridPoint, GridSteps;
    var k :| 1 <= k <= GridSteps(cfg, h.job) && h.release == GridPoint(cfg, h.arrived, k);
    var delay := TicksWithin(cfg, h.job, k);
    ErrorWithin(cfg, h.arrived, k);
  }

  // ---------- looking up and removing a hold ----------

  lemma {:induction false} HoldOfFinds(held: seq<Hold>, job: JobId)
    ensures match HoldOf(held, job)
            case Some(h) => h in held && h.job == job
            case None => job !in HeldJobs(held)
  {
    if held != [] {
      HoldOfFinds(held[..|held| - 1], job);
    }
  }

  lemma {:induction false} WithoutElements(held: seq<Hold>, job: JobId)
    ensures forall h :: h in Without(held, job) <==> h in held && h.job != job
    ensures HeldJobs(Without(held, job)) == HeldJobs(held) - {job}
    ensures |Without(held, job)| <= |held|
  {
    if held != [] {
      WithoutElements(held[..|held| - 1], job);
      assert held == held[..|held| - 1] + [held[|held| - 1]];
    }
  }

  lemma {:induction false} WithoutDistinct(held: seq<Hold>, job: JobId)
    requires Distinct(held)
    ensures Distinct(Without(held, job))
  {
    if held != [] {
      var last, front := held[|held| - 1], held[..|held| - 1];
      WithoutDistinct(front, job);
      WithoutElements(front, job);
      forall i | 0 <= i < |Without(front, job)|
        ensures Without(front, job)[i].job != last.job
      {
        assert Without(front, job)[i] in front;
      }
    }
  }

  lemma {:induction false} WithoutAbsent(held: seq<Hold>, job: JobId)
    requires job !in HeldJobs(held)
    ensures Without(held, job) == held
  {
    if held != [] {
      var last, front := held[|held| - 1], held[..|held| - 1];
      assert last in held;
      assert job !in HeldJobs(front) by {
        assert forall h :: h in front ==> h in held;
      }
      WithoutAbsent(front, job);
      assert held == front + [last];
    }
  }

  lemma {:induction false} WithoutReserved(cfg: Config, held: seq<Hold>, h: Hold, u: User)
    requires (forall x :: x in held ==> x.job in cfg.jobs) && Distinct(held) && h in held
    ensures forall x :: x in Without(held, h.job) ==> x.job in cfg.jobs
    ensures ReservedOf(cfg, Without(held, h.job), u)
            == ReservedOf(cfg, held, u) - if cfg.jobs[h.job].user == u then h.reserved else 0.0
  {
    WithoutElements(held, h.job);
    var last, front := held[|held| - 1], held[..|held| - 1];
    if last == h {
      assert h.job !in HeldJobs(front);
      WithoutAbsent(front, h.job);
    } else {
      assert h in front;
      assert last.job != h.job;
      WithoutReserved(cfg, front, h, u);
      var rest := Without(front, h.job);
      assert Without(held, h.job) == rest + [last];
      assert (rest + [last])[..|rest|] == rest;
    }
  }

  lemma AppendReserved(cfg: Config, held: seq<Hold>, h: Hold, u: User)
    requires (forall x :: x in held ==> x.job in cfg.jobs) && h.job in cfg.jobs
    ensures ReservedOf(cfg, held + [h], u)
            == ReservedOf(cfg, held, u) + if cfg.jobs[h.job].user == u then h.reserved else 0.0
  {
    assert (held + [h])[..|held|] == held;
  }

  lemma AppendHeldJobs(held: seq<Hold>, h: Hold)
    ensures HeldJobs(held + [h]) == HeldJobs(held) + {h.job}
  {
    assert forall x :: x in held + [h] <==> x in held || x == h;
    forall j | j in HeldJobs(held)
      ensures j in HeldJobs(held + [h])
    {
      var x :| x in held && x.job == j;
      assert x in held + [h];
    }
    assert h in held + [h];
  }

  // ---------- one release ----------

  function Committed(st: State, u: User): real {
    Get(st.spent, u) + Get(st.reserved, u)
  }

  /** How far past its planned release a hold is at `now`. */
  function Lateness(h: Hold, now: real): real {
    Max(now - h.release, 0.0)
  }

  /** The admission wait of a hold that ends at `now`. */
  function WaitOf(h: Hold, now: real): real {
    Max(now - h.arrived, 0.0)
  }

  lemma GetAdd(m: map<User, real>, u: User, x: real, v: User)
    ensures Get(Add(m, u, x), v) == Get(m, v) + if u == v then x else 0.0
  {
  }

  function Elements(s: seq<JobId>): set<JobId> {
    set j | j in s
  }

  predicate NoDuplicates(s: seq<JobId>) {
    forall i, j :: 0 <= i < j < |s| ==> s[i] != s[j]
  }

  /** A step's books so far: `before` was released earlier, the output is exactly what this step released. */
  ghost predicate Books(cfg: Config, before: set<JobId>, w: Work, limbo: set<JobId>)
    requires ValidConfig(cfg)
  {
    && Account(cfg, w.st, limbo)
    && NoDuplicates(w.output)
    && before !! Elements(w.output)
    && w.st.released == before + Elements(w.output)
  }

  lemma AppendOutput(before: set<JobId>, output: seq<JobId>, job: JobId)
    requires NoDuplicates(output) && before !! Elements(output) && job !in before && job !in output
    ensures NoDuplicates(output + [job]) && before !! Elements(output + [job])
    ensures Elements(output + [job]) == Elements(output) + {job}
  {
    var next := output + [job];
    assert forall j :: j in next <==> j in output || j == job;
    forall i, j | 0 <= i < j < |next|
      ensures next[i] != next[j]
    {
      assert next[i] == output[i] && output[i] in output;
    }
  }

  /** Releasing a held job: the hold goes, its reservation turns into the wait that really happened. */
  lemma ReleaseHeld(cfg: Config, w: Work, h: Hold, now: real, before: set<JobId>, limbo: set<JobId>)
    requires ValidConfig(cfg) && Books(cfg, before, w, limbo) && h in w.st.held && h.job in cfg.jobs
    ensures var r := ReleaseJob(cfg, w, h.job, now);
            && r.Ok? && Books(cfg, before, r.value, limbo)
            && r.value.output == w.output + [h.job]
            && r.value.st.seen == w.st.seen && r.value.st.lastNow == w.st.lastNow
            && r.value.st.held == Without(w.st.held, h.job)
            && (forall u :: Committed(r.value.st, u)
                  <= Committed(w.st, u) + if cfg.jobs[h.job].user == u then Lateness(h, now) else 0.0)
            && (forall u :: Get(r.value.st.spent, u)
                  == Get(w.st.spent, u) + if cfg.jobs[h.job].user == u then WaitOf(h, now) else 0.0)
  {
    hide ValidConfig, OnGrid, ReservedOf, Get, Add, Without, HoldOf, Allowance;
    var st, job, user := w.st, h.job, cfg.jobs[h.job].user;
    assert Planned(cfg, h);
    PlannedBounds(cfg, h);
    HoldOfFinds(st.held, job);
    var found := HoldOf(st.held, job).value;
    assert found == h by {
      var i, j :| 0 <= i < |st.held| && 0 <= j < |st.held| && st.held[i] == h && st.held[j] == found;
    }
    WithoutElements(st.held, job);
    WithoutDistinct(st.held, job);
    assert job in HeldJobs(st.held);
    AppendOutput(before, w.output, job);
    var r := ReleaseJob(cfg, w, job, now).value;
    forall u
      ensures Get(r.st.reserved, u) == ReservedOf(cfg, r.st.held, u)
      ensures Committed(r.st, u) <= Committed(w.st, u) + if user == u then Lateness(h, now) else 0.0
      ensures Get(r.st.spent, u) == Get(st.spent, u) + if user == u then WaitOf(h, now) else 0.0
    {
      assert Get(st.reserved, u) == ReservedOf(cfg, st.held, u);
      WithoutReserved(cfg, st.held, h, u);
      GetAdd(st.reserved, user, -h.reserved, u);
      GetAdd(st.spent, user, Max(now - h.arrived, 0.0), u);
    }
    assert Partition(cfg, r.st, limbo);
    assert AllPlanned(cfg, r.st.held);
  }

  /** Releasing a job that is being ranked touches no hold and no budget. */
  lemma ReleaseUnheld(cfg: Config, w: Work, job: JobId, now: real, before: set<JobId>, limbo: set<JobId>)
    requires ValidConfig(cfg) && Books(cfg, before, w, limbo) && job in limbo && job in cfg.jobs
    ensures var st := w.st.(released := w.st.released + {job});
            && ReleaseJob(cfg, w, job, now) == Ok(Work(st, w.output + [job]))
            && Books(cfg, before, Work(st, w.output + [job]), limbo - {job})
  {
    hide ValidConfig, AllPlanned, ReservedOf, Get, Add, HoldOf;
    HoldOfFinds(w.st.held, job);
    assert job !in HeldJobs(w.st.held);
    AppendOutput(before, w.output, job);
    var st := w.st.(released := w.st.released + {job});
    assert Partition(cfg, st, limbo - {job});
    assert ReservedExact(cfg, st) by {
      forall u ensures Get(st.reserved, u) == ReservedOf(cfg, st.held, u) {
        assert Get(w.st.reserved, u) == ReservedOf(cfg, w.st.held, u);
      }
    }
  }
}
