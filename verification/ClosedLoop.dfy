/** Bridge and controller together: what one sends is what the other expects, for as long as the transport works. */
module ClosedLoop {
  import opened Selection
  import opened Controller
  import opened ControllerBooks
  import opened ControllerStep
  import opened ControllerBudget
  import opened ControllerRuns
  import opened Wire
  import B = Bridge
  import BridgeSafety

  /** Both sides, and the time of the latest tick. */
  datatype Loop = Loop(bridge: B.State, ctl: State, clock: int)

  // ---------- the message ----------

  /** Jobs the controller has not been told of yet. */
  function Unreported(jobs: seq<B.V2Job>, epoch: int): (r: seq<Arrival>)
    requires forall i :: 0 <= i < |jobs| ==> jobs[i].id >= 0
  {
    if jobs == [] then []
    else
      var rest, j := Unreported(jobs[..|jobs| - 1], epoch), jobs[|jobs| - 1];
      if j.reported then rest else rest + [Arrival(j.id, Seconds(j.arrived, epoch))]
  }

  function PhaseOf(state: int): Phase {
    if state == 1 then Phase.Pending else if state == 2 then Running else Completed
  }

  /** The observed state and start time of every submitted job. */
  function Snapshot(jobs: seq<B.V2Job>, starts: seq<real>): (r: seq<Observation>)
    requires |starts| == |jobs| && forall i :: 0 <= i < |jobs| ==> jobs[i].id >= 0
  {
    if jobs == [] then []
    else
      var n := |jobs| - 1;
      var rest, j := Snapshot(jobs[..n], starts[..n]), jobs[n];
      if j.submitted then rest + [Observation(j.id, PhaseOf(j.state), starts[n])] else rest
  }

  function Message(jobs: seq<B.V2Job>, starts: seq<real>, later: int, epoch: int): Request
    requires |starts| == |jobs| && forall i :: 0 <= i < |jobs| ==> jobs[i].id >= 0
  {
    Request(Seconds(later, epoch), Unreported(jobs, epoch), Snapshot(jobs, starts))
  }

  /** The reply line: the truncated wake time, the count and the ids. */
  function Encode(r: Response, rounding: Rounding): B.Reply {
    B.Line([Sent(r.nextWake, rounding), |r.release|] + r.release)
  }

  /** Arrival a reports job j. */
  predicate Reports(a: Arrival, j: B.V2Job, epoch: int) {
    !j.reported && a.job == j.id && a.arrived == Seconds(j.arrived, epoch)
  }

  lemma UnreportedUnfolds(jobs: seq<B.V2Job>, epoch: int)
    requires jobs != [] && forall i :: 0 <= i < |jobs| ==> jobs[i].id >= 0
    ensures var n := |jobs| - 1;
            Unreported(jobs, epoch) == Unreported(jobs[..n], epoch)
              + if jobs[n].reported then [] else [Arrival(jobs[n].id, Seconds(jobs[n].arrived, epoch))]
    ensures forall j :: j in jobs <==> j in jobs[..|jobs| - 1] || j == jobs[|jobs| - 1]
  {
    hide Seconds;
    var n := |jobs| - 1;
    assert jobs == jobs[..n] + [jobs[n]];
    assert Unreported(jobs[..n], epoch) + [] == Unreported(jobs[..n], epoch);
  }

  lemma {:induction false} ArrivalsAreJobs(jobs: seq<B.V2Job>, epoch: int)
    requires forall i :: 0 <= i < |jobs| ==> jobs[i].id >= 0
    ensures forall a :: a in Unreported(jobs, epoch) ==> exists j :: j in jobs && Reports(a, j, epoch)
  {
    hide Seconds, Unreported;
    if jobs == [] {
      assert Unreported(jobs, epoch) == [] by {
        NothingUnreported(epoch);
      }
    } else {
      var n := |jobs| - 1;
      ArrivalsAreJobs(jobs[..n], epoch);
      UnreportedUnfolds(jobs, epoch);
      forall a | a in Unreported(jobs, epoch)
        ensures exists j :: j in jobs && Reports(a, j, epoch)
      {
        if a !in Unreported(jobs[..n], epoch) {
          assert Reports(a, jobs[n], epoch);
        }
      }
    }
  }

  lemma NothingUnreported(epoch: int)
    ensures Unreported([], epoch) == []
  {
  }

  lemma {:induction false} JobsAreArrivals(jobs: seq<B.V2Job>, epoch: int)
    requires forall i :: 0 <= i < |jobs| ==> jobs[i].id >= 0
    ensures forall j :: j in jobs && !j.reported ==> exists a :: a in Unreported(jobs, epoch) && Reports(a, j, epoch)
  {
    hide Seconds, Unreported;
    if jobs != [] {
      var n := |jobs| - 1;
      JobsAreArrivals(jobs[..n], epoch);
      UnreportedUnfolds(jobs, epoch);
      var r := Unreported(jobs, epoch);
      forall j | j in jobs && !j.reported
        ensures exists a :: a in r && Reports(a, j, epoch)
      {
        if j in jobs[..n] {
          var a :| a in Unreported(jobs[..n], epoch) && Reports(a, j, epoch);
          assert a in r;
        } else {
          assert r[|r| - 1] in r && Reports(r[|r| - 1], j, epoch);
        }
      }
    }
  }

  lemma {:induction false} ArrivalsDistinct(jobs: seq<B.V2Job>, epoch: int)
    requires DistinctJobs(jobs) && forall i :: 0 <= i < |jobs| ==> jobs[i].id >= 0
    ensures OncePerJob(Unreported(jobs, epoch))
  {
    hide Seconds, Unreported;
    if jobs == [] {
      NothingUnreported(epoch);
    } else {
      var n := |jobs| - 1;
      ArrivalsDistinct(jobs[..n], epoch);
      ArrivalsAreJobs(jobs[..n], epoch);
      UnreportedUnfolds(jobs, epoch);
      var rest := Unreported(jobs[..n], epoch);
      forall k | 0 <= k < |rest|
        ensures rest[k].job != jobs[n].id
      {
        assert rest[k] in rest;
        var j :| j in jobs[..n] && Reports(rest[k], j, epoch);
        var i :| 0 <= i < n && jobs[i] == j;
      }
    }
  }

  /** Observation o tells that job j has the given state and start. */
  ghost predicate Tells(o: Observation, j: B.V2Job, state: int, start: real) {
    && o.id == j.id && o.start == start
    && (o.phase == Phase.Pending <==> state == 1)
    && (o.phase == Running <==> state == 2)
    && (o.phase == Completed <==> state != 1 && state != 2)
  }

  /** The states told are those of exactly the submitted jobs, each once, as observed. */
  ghost predicate StatesTold(jobs: seq<B.V2Job>, observed: seq<int>, starts: seq<real>, states: seq<Observation>)
    requires |jobs| == |observed| == |starts|
  {
    && (forall o :: o in states <==>
          exists i :: 0 <= i < |jobs| && jobs[i].submitted && Tells(o, jobs[i], observed[i], starts[i]))
    && (forall i, j :: 0 <= i < j < |states| ==> states[i].id != states[j].id)
  }

  /** Arrival a is job j, which arrived at the time j was seen to arrive. */
  ghost predicate TellsArrival(a: Arrival, j: B.V2Job, epoch: int) {
    a.job == j.id && a.arrived * 1000000.0 == (j.arrived - epoch) as real
  }

  /** The request tells the time, exactly the jobs not reported before, each once, and the states as observed. */
  ghost predicate Told(
    jobs: seq<B.V2Job>, observed: seq<int>, starts: seq<real>, later: int, epoch: int, r: Request)
    requires |jobs| == |observed| == |starts|
  {
    && r.now * 1000000.0 == (later - epoch) as real
    && (forall a :: a in r.arrivals <==>
          exists i :: 0 <= i < |jobs| && !jobs[i].reported && TellsArrival(a, jobs[i], epoch))
    && (forall i, j :: 0 <= i < j < |r.arrivals| ==> r.arrivals[i].job != r.arrivals[j].job)
    && StatesTold(jobs, observed, starts, r.states)
  }

  lemma TellsOnly(j: B.V2Job, start: real)
    requires j.id >= 0
    ensures forall o :: Tells(o, j, j.state, start) <==> o == Observation(j.id, PhaseOf(j.state), start)
  {
  }

  lemma SnapshotUnfolds(jobs: seq<B.V2Job>, starts: seq<real>)
    requires |starts| == |jobs| > 0 && forall i :: 0 <= i < |jobs| ==> jobs[i].id >= 0
    ensures var n := |jobs| - 1;
            Snapshot(jobs, starts) == Snapshot(jobs[..n], starts[..n])
              + if jobs[n].submitted then [Observation(jobs[n].id, PhaseOf(jobs[n].state), starts[n])] else []
  {
    hide PhaseOf;
    var n := |jobs| - 1;
    assert Snapshot(jobs[..n], starts[..n]) + [] == Snapshot(jobs[..n], starts[..n]);
  }

  lemma {:induction false} SnapshotExactly(jobs: seq<B.V2Job>, observed: seq<int>, starts: seq<real>)
    requires |jobs| == |observed| == |starts| && DistinctJobs(jobs)
    requires forall i :: 0 <= i < |jobs| ==> jobs[i].id >= 0 && (jobs[i].submitted ==> jobs[i].state == observed[i])
    ensures StatesTold(jobs, observed, starts, Snapshot(jobs, starts))
  {
    hide PhaseOf, Snapshot, Tells;
    var r := Snapshot(jobs, starts);
    if jobs == [] {
      NothingSubmitted();
    } else {
      var n := |jobs| - 1;
      SnapshotExactly(jobs[..n], observed[..n], starts[..n]);
      SnapshotUnfolds(jobs, starts);
      TellsOnly(jobs[n], starts[n]);
      var rest := Snapshot(jobs[..n], starts[..n]);
      forall k | 0 <= k < |rest|
        ensures rest[k].id != jobs[n].id
      {
        assert rest[k] in rest;
        var i :| 0 <= i < n && jobs[..n][i].submitted && Tells(rest[k], jobs[..n][i], observed[..n][i], starts[..n][i]);
        TellsId(rest[k], jobs[i], observed[i], starts[i]);
      }
      forall o
        ensures o in r <==>
                  exists i :: 0 <= i < |jobs| && jobs[i].submitted && Tells(o, jobs[i], observed[i], starts[i])
      {
        if o in rest {
          var i :| 0 <= i < n && jobs[..n][i].submitted && Tells(o, jobs[..n][i], observed[..n][i], starts[..n][i]);
          assert Tells(o, jobs[i], observed[i], starts[i]);
        }
        if i: nat :| i < |jobs| && jobs[i].submitted && Tells(o, jobs[i], observed[i], starts[i]) {
          assert i < n ==> Tells(o, jobs[..n][i], observed[..n][i], starts[..n][i]);
        }
      }
    }
  }

  lemma TellsId(o: Observation, j: B.V2Job, state: int, start: real)
    requires Tells(o, j, state, start)
    ensures o.id == j.id
  {
  }

  lemma NothingSubmitted()
    ensures Snapshot([], []) == []
  {
  }

  lemma TellsReports(a: Arrival, j: B.V2Job, epoch: int)
    requires j.id >= 0
    ensures Reports(a, j, epoch) <==> !j.reported && TellsArrival(a, j, epoch)
  {
    SecondsWhole(j.arrived, epoch);
  }

  /** What the bridge sends after observing the jobs. */
  lemma MessageTells(jobs: seq<B.V2Job>, observed: seq<int>, starts: seq<real>, later: int, epoch: int)
    requires |jobs| == |observed| == |starts| && DistinctJobs(jobs)
    requires forall i :: 0 <= i < |jobs| ==> jobs[i].id >= 0
    ensures forall i :: 0 <= i < |jobs| ==> B.Observe(jobs, observed)[i].id >= 0
    ensures Told(jobs, observed, starts, later, epoch, Message(B.Observe(jobs, observed), starts, later, epoch))
  {
    hide Seconds, Snapshot, Unreported, PhaseOf, Tells, TellsArrival;
    var seen := B.Observe(jobs, observed);
    SnapshotExactly(seen, observed, starts);
    ArrivalsAreJobs(seen, epoch);
    JobsAreArrivals(seen, epoch);
    ArrivalsDistinct(seen, epoch);
    SecondsWhole(later, epoch);
    var r := Message(seen, starts, later, epoch);
    forall a | a in r.arrivals
      ensures exists i :: 0 <= i < |jobs| && !jobs[i].reported && TellsArrival(a, jobs[i], epoch)
    {
      var j :| j in seen && Reports(a, j, epoch);
      var i :| 0 <= i < |seen| && seen[i] == j;
      TellsReports(a, j, epoch);
      SameTelling(a, jobs[i], j, epoch);
    }
    forall a, i: nat | i < |jobs| && !jobs[i].reported && TellsArrival(a, jobs[i], epoch)
      ensures a in r.arrivals
    {
      SameTelling(a, jobs[i], seen[i], epoch);
      TellsReports(a, seen[i], epoch);
      var b :| b in r.arrivals && Reports(b, seen[i], epoch);
      SameReport(a, b, seen[i], epoch);
    }
    forall o, i: nat | i < |jobs|
      ensures Tells(o, jobs[i], observed[i], starts[i]) <==> Tells(o, seen[i], observed[i], starts[i])
    {
      SameState(o, jobs[i], seen[i], observed[i], starts[i]);
    }
    StatesAlike(jobs, seen, observed, starts, r.states);
  }

  lemma StatesAlike(
    jobs: seq<B.V2Job>, seen: seq<B.V2Job>, observed: seq<int>, starts: seq<real>, states: seq<Observation>)
    requires |jobs| == |seen| == |observed| == |starts| && StatesTold(seen, observed, starts, states)
    requires forall i :: 0 <= i < |jobs| ==> (jobs[i].submitted <==> seen[i].submitted)
    requires forall o, i: nat :: i < |jobs| ==>
               (Tells(o, jobs[i], observed[i], starts[i]) <==> Tells(o, seen[i], observed[i], starts[i]))
    ensures StatesTold(jobs, observed, starts, states)
  {
    hide Tells;
    forall o, i: nat | i < |jobs| && Tells(o, seen[i], observed[i], starts[i])
      ensures Tells(o, jobs[i], observed[i], starts[i])
    {
    }
  }

  lemma SameTelling(a: Arrival, j: B.V2Job, k: B.V2Job, epoch: int)
    requires j.id == k.id && j.arrived == k.arrived
    ensures TellsArrival(a, j, epoch) <==> TellsArrival(a, k, epoch)
  {
  }

  lemma SameReport(a: Arrival, b: Arrival, j: B.V2Job, epoch: int)
    requires Reports(a, j, epoch) && Reports(b, j, epoch)
    ensures a == b
  {
  }

  lemma SameState(o: Observation, j: B.V2Job, k: B.V2Job, state: int, start: real)
    requires j.id == k.id
    ensures Tells(o, j, state, start) <==> Tells(o, k, state, start)
  {
  }

  // ---------- the invariant ----------

  predicate DistinctJobs(jobs: seq<B.V2Job>) {
    forall i, j :: 0 <= i < j < |jobs| ==> jobs[i].id != jobs[j].id
  }

  /** Every job the bridge knows is in the configuration, once. */
  predicate KnownJobs(cfg: Config, jobs: seq<B.V2Job>) {
    DistinctJobs(jobs) && forall i :: 0 <= i < |jobs| ==> jobs[i].id >= 0 && jobs[i].id in cfg.jobs
  }

  /** Submitted is released, reported is seen; hence reported but not submitted is held, and the rest comes next. */
  ghost predicate SameJobs(jobs: seq<B.V2Job>, ctl: State)
    requires forall i :: 0 <= i < |jobs| ==> jobs[i].id >= 0
  {
    && (forall i :: 0 <= i < |jobs| ==> (jobs[i].submitted <==> jobs[i].id in ctl.released))
    && (forall i :: 0 <= i < |jobs| ==> (jobs[i].reported <==> jobs[i].id in ctl.seen))
    && (forall j :: j in ctl.seen ==> HasJob(jobs, j))
  }

  ghost predicate HasJob(jobs: seq<B.V2Job>, id: int) {
    exists i :: 0 <= i < |jobs| && jobs[i].id == id
  }

  /** The scheduler was handed exactly the released jobs, each once. */
  ghost predicate SubmitsAre(submits: seq<int>, released: set<JobId>) {
    B.DistinctIds(submits) && forall x :: x in submits <==> x >= 0 && x in released
  }

  /** Holds started when the bridge saw the job arrive, and end after the latest tick. */
  ghost predicate SameTimes(jobs: seq<B.V2Job>, held: seq<Hold>, clock: int, epoch: int) {
    forall h :: h in held ==> h.release > Seconds(clock, epoch) && ArrivedThen(jobs, h, epoch)
  }

  ghost predicate ArrivedThen(jobs: seq<B.V2Job>, h: Hold, epoch: int) {
    exists i :: 0 <= i < |jobs| && jobs[i].id == h.job && h.arrived == Seconds(jobs[i].arrived, epoch)
  }

  predicate AllReported(jobs: seq<B.V2Job>) {
    forall i :: 0 <= i < |jobs| ==> jobs[i].reported
  }

  /** The controller's clock is not ahead, and the bridge's wake is what the controller asked for, as it was sent. */
  ghost predicate SameClock(s: Loop, cfg: Config, epoch: int) {
    && (s.ctl.lastNow.Some? ==> s.ctl.lastNow.value <= Seconds(s.clock, epoch))
    && (s.bridge.jobs != [] && AllReported(s.bridge.jobs) ==>
          && s.ctl.lastNow.Some?
          && exists rounding ::
               s.bridge.wake == Sent(NextWake(cfg, s.ctl.held, s.ctl.lastNow.value), rounding) + epoch)
  }

  ghost predicate InStep(cfg: Config, epoch: int, s: Loop)
    requires ValidConfig(cfg)
  {
    && !s.bridge.failed && s.bridge.direct == [] && |s.bridge.jobs| <= B.MAX_JOBS
    && KnownJobs(cfg, s.bridge.jobs)
    && Sound(cfg, s.ctl)
    && SameJobs(s.bridge.jobs, s.ctl)
    && SubmitsAre(s.bridge.submits, s.ctl.released)
    && SameTimes(s.bridge.jobs, s.ctl.held, s.clock, epoch)
    && SameClock(s, cfg, epoch)
  }

  // ---------- the request is always one the controller accepts ----------

  ghost function StatesOf(jobs: seq<B.V2Job>): (r: seq<int>)
    ensures |r| == |jobs|
  {
    seq(|jobs|, i requires 0 <= i < |jobs| => jobs[i].state)
  }

  /** The bridge's message is always one the controller accepts, and tells what the bridge has observed. */
  lemma MessageValid(cfg: Config, epoch: int, s: Loop, jobs: seq<B.V2Job>, starts: seq<real>, later: int)
    requires ValidConfig(cfg) && Sound(cfg, s.ctl) && s.clock <= later && |starts| == |jobs|
    requires KnownJobs(cfg, jobs) && SameJobs(jobs, s.ctl) && SameClock(s, cfg, epoch)
    ensures Valid(cfg, s.ctl, Message(jobs, starts, later, epoch))
    ensures Told(jobs, StatesOf(jobs), starts, later, epoch, Message(jobs, starts, later, epoch))
  {
    hide ValidConfig, Sound, Seconds, NextWake, Sent, Snapshot, Unreported, Told;
    assert B.Observe(jobs, StatesOf(jobs)) == jobs;
    MessageTells(jobs, StatesOf(jobs), starts, later, epoch);
    SecondsOrder(s.clock, later, epoch);
    ArrivalsAreJobs(jobs, epoch);
    ArrivalsDistinct(jobs, epoch);
    SnapshotExactly(jobs, StatesOf(jobs), starts);
    var r := Message(jobs, starts, later, epoch);
    forall x | x in r.states
      ensures x.id in s.ctl.released
    {
      var i :| 0 <= i < |jobs| && jobs[i].submitted && Tells(x, jobs[i], StatesOf(jobs)[i], starts[i]);
    }
    forall a | a in r.arrivals
      ensures a.job in cfg.jobs && a.job !in s.ctl.seen
    {
      var j :| j in jobs && Reports(a, j, epoch);
      var i :| 0 <= i < |jobs| && jobs[i] == j;
    }
  }

  lemma ArrivalsAreUnreported(cfg: Config, jobs: seq<B.V2Job>, epoch: int)
    requires KnownJobs(cfg, jobs)
    ensures forall j :: j in ArrivalJobs(Unreported(jobs, epoch)) <==>
                          exists i :: 0 <= i < |jobs| && !jobs[i].reported && jobs[i].id == j
  {
    hide Seconds;
    ArrivalsAreJobs(jobs, epoch);
    JobsAreArrivals(jobs, epoch);
    var r := Unreported(jobs, epoch);
    forall i | 0 <= i < |jobs| && !jobs[i].reported
      ensures jobs[i].id in ArrivalJobs(r)
    {
      var a :| a in r && Reports(a, jobs[i], epoch);
    }
    forall j | j in ArrivalJobs(r)
      ensures exists i :: 0 <= i < |jobs| && !jobs[i].reported && jobs[i].id == j
    {
      var a :| a in r && a.job == j;
      var x :| x in jobs && Reports(a, x, epoch);
      var i :| 0 <= i < |jobs| && jobs[i] == x;
    }
  }

  // ---------- the reply always passes the bridge's checks ----------

  lemma {:induction false} SubmitPending(st: B.State, indices: seq<nat>)
    requires forall k :: 0 <= k < |indices| ==> indices[k] < |st.jobs| && !st.jobs[indices[k]].submitted
    requires forall i, j :: 0 <= i < j < |indices| ==> indices[i] != indices[j]
    ensures B.Pending(B.Submit(st, indices).jobs) + |indices| == B.Pending(st.jobs)
  {
    if indices != [] {
      var n := |indices| - 1;
      SubmitPending(st, indices[..n]);
      BridgeSafety.SubmitExactly(st, indices[..n]);
      var before := B.Submit(st, indices[..n]);
      assert indices[n] !in indices[..n];
      OneLessPending(before.jobs, indices[n]);
    }
  }

  lemma {:induction false} OneLessPending(jobs: seq<B.V2Job>, i: nat)
    requires i < |jobs| && !jobs[i].submitted
    ensures B.Pending(jobs[i := jobs[i].(submitted := true)]) + 1 == B.Pending(jobs)
  {
    var n := |jobs| - 1;
    var next := jobs[i := jobs[i].(submitted := true)];
    if i == n {
      assert next[..n] == jobs[..n];
    } else {
      assert next[..n] == jobs[..n][i := jobs[i].(submitted := true)];
      OneLessPending(jobs[..n], i);
    }
  }

  /** Among pending jobs with different ids, the listed places are those whose ids are listed. */
  lemma PlacesById(jobs: seq<B.V2Job>, ids: seq<int>, i: nat)
    requires B.AllPending(jobs, ids) && B.DistinctIds(ids) && DistinctJobs(jobs) && i < |jobs| && !jobs[i].submitted
    ensures i in B.Places(jobs, ids) <==> jobs[i].id in ids
  {
    hide B.LastPending;
    B.PlacesExactly(jobs, ids);
    var places := B.Places(jobs, ids);
    if jobs[i].id in ids {
      var k :| 0 <= k < |ids| && ids[k] == jobs[i].id;
      assert places[k] == i;
    }
    if i in places {
      var k :| 0 <= k < |places| && places[k] == i;
      assert ids[k] == jobs[i].id;
    }
  }

  /** Different ids of pending jobs: no more of them than pending jobs, and as many only if none is left out. */
  lemma CountFits(jobs: seq<B.V2Job>, ids: seq<int>)
    requires B.AllPending(jobs, ids) && B.DistinctIds(ids)
    ensures |ids| <= B.Pending(jobs)
    ensures (forall i :: 0 <= i < |jobs| && !jobs[i].submitted ==> jobs[i].id in ids) && DistinctJobs(jobs) ==>
              |ids| == B.Pending(jobs)
  {
    hide B.Pending, B.LastPending, B.Submit, B.DistinctIds, B.AllPending, DistinctJobs;
    PlacesOf(jobs, ids);
    var st := B.State(jobs, 0, false, [], []);
    var places := B.Places(jobs, ids);
    SubmitPending(st, places);
    BridgeSafety.SubmitExactly(st, places);
    BridgeSafety.PendingZero(B.Submit(st, places).jobs);
    if (forall i :: 0 <= i < |jobs| && !jobs[i].submitted ==> jobs[i].id in ids) && DistinctJobs(jobs) {
      forall i | 0 <= i < |jobs|
        ensures B.Submit(st, places).jobs[i].submitted
      {
        if !jobs[i].submitted {
          PlacesById(jobs, ids, i);
        }
      }
    }
  }

  lemma PlacesOf(jobs: seq<B.V2Job>, ids: seq<int>)
    requires B.AllPending(jobs, ids) && B.DistinctIds(ids)
    ensures var places := B.Places(jobs, ids);
            && |places| == |ids|
            && (forall k :: 0 <= k < |places| ==> places[k] < |jobs| && !jobs[places[k]].submitted)
            && (forall i, j :: 0 <= i < j < |places| ==> places[i] != places[j])
  {
    hide B.LastPending;
    B.PlacesExactly(jobs, ids);
  }

  lemma PendingIds(jobs: seq<B.V2Job>, ids: seq<int>)
    requires forall id :: id in ids ==> exists i :: 0 <= i < |jobs| && jobs[i].id == id && !jobs[i].submitted
    ensures B.AllPending(jobs, ids)
  {
    hide B.LastPending;
    forall id | id in ids
      ensures B.LastPending(jobs, id).Some?
    {
      B.LastPendingExactly(jobs, id);
    }
  }

  /** What the controller releases is pending at the bridge: held or reported just now. */
  lemma ReleasesArePending(
    cfg: Config, epoch: int, ctl: State, jobs: seq<B.V2Job>, r: Request, next: State, out: seq<JobId>)
    requires ValidConfig(cfg) && Sound(cfg, ctl) && KnownJobs(cfg, jobs) && SameJobs(jobs, ctl)
    requires r.arrivals == Unreported(jobs, epoch) && ReleasesPart(cfg, ctl, r, next, out)
    requires Partition(cfg, next, {})
    ensures forall j :: j in out ==> exists i :: 0 <= i < |jobs| && jobs[i].id == j && !jobs[i].submitted
    ensures forall i :: 0 <= i < |jobs| && !jobs[i].submitted ==> jobs[i].id in out || jobs[i].id in HeldJobs(next.held)
    ensures next.seen <= ctl.seen + ArrivalJobs(r.arrivals)
  {
    hide ValidConfig, AllPlanned, ReservedExact, Seconds, NoDuplicates, HeldJobs, ArrivalJobs;
    ArrivalsAreUnreported(cfg, jobs, epoch);
    forall j | j in out
      ensures exists i :: 0 <= i < |jobs| && jobs[i].id == j && !jobs[i].submitted
    {
      assert j in Elements(out);
      if j in HeldJobs(ctl.held) {
        assert j in ctl.seen;
        var i :| 0 <= i < |jobs| && jobs[i].id == j;
      } else {
        var i :| 0 <= i < |jobs| && !jobs[i].reported && jobs[i].id == j;
        assert j !in ctl.released;
      }
    }
    forall i | 0 <= i < |jobs| && !jobs[i].submitted
      ensures jobs[i].id in out || jobs[i].id in HeldJobs(next.held)
    {
      var j := jobs[i].id;
      assert j in HeldJobs(ctl.held) + ArrivalJobs(r.arrivals);
      assert j in Elements(out) || j in HeldJobs(next.held);
    }
  }

  lemma HoldsWhole(cfg: Config, epoch: int, jobs: seq<B.V2Job>, held: seq<Hold>)
    requires ValidConfig(cfg) && Whole(cfg.tick) && ExactSums(cfg) && AllPlanned(cfg, held)
    requires forall h :: h in held ==> ArrivedThen(jobs, h, epoch)
    ensures forall h :: h in held ==> Whole(h.release)
  {
    hide ValidConfig, Whole, GridPoint, Seconds, ExactSums;
    forall h | h in held
      ensures Whole(h.release)
    {
      var i :| 0 <= i < |jobs| && jobs[i].id == h.job && h.arrived == Seconds(jobs[i].arrived, epoch);
      SecondsWhole(jobs[i].arrived, epoch);
      assert Planned(cfg, h);
      var k :| 1 <= k <= GridSteps(cfg, h.job) && h.release == GridPoint(cfg, h.arrived, k);
      GridWhole(cfg, h.arrived, k);
    }
  }

  /** With a whole-microsecond tick and exact sums, the wake time is a whole number of microseconds. */
  lemma WakeWhole(cfg: Config, held: seq<Hold>, t: int, epoch: int)
    requires Whole(cfg.tick) && ExactSums(cfg) && forall h :: h in held ==> Whole(h.release)
    ensures Whole(NextWake(cfg, held, Seconds(t, epoch)))
  {
    hide Whole, Seconds, GridPoint, ExactSums;
    var now := Seconds(t, epoch);
    WakeIsEarliest(cfg, held, now);
    SecondsWhole(t, epoch);
    GridWhole(cfg, now, 1);
    assert Whole(IDLE_WAKE_S) by {
      IntegerWhole(86400000000, IDLE_WAKE_S);
    }
    WholeAdds(now, IDLE_WAKE_S);
  }
}
