/** What the scheduler can reach: it never gets stuck, and a sensible campaign can be run to the end. */
module SchedulerReach {
  import opened Basics
  import opened Scheduler
  import opened SchedulerSafety
  import opened SchedulerGraph
  import opened SchedulerExit

  // ---------- the loop is never stuck ----------

  lemma {:induction false} Listing(keys: set<Key>) returns (left: seq<Key>)
    ensures Lists(left, keys)
    decreases |keys|
  {
    if keys == {} {
      left := [];
    } else {
      var key :| key in keys;
      var rest := Listing(keys - {key});
      left := [key] + rest;
    }
  }

  /** In every reachable state the loop can go on, unless it has exited. */
  lemma LoopNeverStuck(cfg: Config, initial: Records, s: State) returns (t: State)
    requires Inv(cfg, initial, s) && s.pc != Exited
    ensures LoopStep(cfg, s, t)
  {
    hide FinalWord, WithinLimits, Justified, StartedOnce, PassSettled, Consider, Harvest, DrainOne, Lists;
    match s.pc
    case Draining =>
      var left := Listing(s.active.Keys);
      t := if s.queue != [] then DrainOne(s) else s.(pc := Scanning(left));
    case Scanning(left) =>
      t := if left == [] then s.(pc := Guarding)
           else if left[0] in s.active && s.active[left[0]].Finished? then s.(pc := Harvesting(left[0], left[1..]))
           else s.(pc := Scanning(left[1..]));
    case Harvesting(key, left) =>
      t := if s.queue != [] then DrainOne(s) else Harvest(s, key).(pc := Scanning(left));
    case Guarding => t := s.(pc := Scheduling(0));
    case Scheduling(next) =>
      t := if s.failed || next >= |cfg.tasks| || |s.active| >= cfg.parallelism then s.(pc := Closing)
           else Consider(cfg, s, cfg.tasks[next]).(pc := Scheduling(next + 1));
    case Closing =>
      t := if s.queue != [] then DrainOne(s) else s.(pc := if s.active == map[] then Exited else Draining);
  }

  // ---------- chains of steps ----------

  ghost predicate Reaches(cfg: Config, s: State, t: State) {
    exists states :: Chain(cfg, states, s, t)
  }

  lemma ReachesSelf(cfg: Config, s: State)
    ensures Reaches(cfg, s, s)
  {
    assert Chain(cfg, [s], s, s);
  }

  lemma ReachesMore(cfg: Config, s: State, t: State, u: State)
    requires Reaches(cfg, s, t) && Next(cfg, t, u)
    ensures Reaches(cfg, s, u)
  {
    hide Next;
    var states :| Chain(cfg, states, s, t);
    var all := states + [u];
    forall i | 0 < i < |all|
      ensures Next(cfg, all[i - 1], all[i])
    {
      if i < |states| {
        assert all[i - 1] == states[i - 1] && all[i] == states[i];
      }
    }
    assert Chain(cfg, all, s, u);
  }

  lemma ReachesAll(cfg: Config, s: State, t: State, u: State)
    requires Reaches(cfg, s, t) && Reaches(cfg, t, u)
    ensures Reaches(cfg, s, u)
  {
    hide Next;
    var a :| Chain(cfg, a, s, t);
    var b :| Chain(cfg, b, t, u);
    var all := a + b[1..];
    forall i | 0 < i < |all|
      ensures Next(cfg, all[i - 1], all[i])
    {
      if i < |a| {
        assert all[i - 1] == a[i - 1] && all[i] == a[i];
      } else {
        assert all[i - 1] == b[i - |a|] && all[i] == b[i - |a| + 1];
      }
    }
    assert Chain(cfg, all, s, u);
  }

  // ---------- one round of the loop with willing workers ----------

  const COMPLETED := Finished(Returned(Record(Complete, None)))

  /** Nothing running, nothing queued, no failure, just before the guards. */
  predicate Idle(s: State) {
    s.pc == Guarding && s.active == map[] && s.queue == [] && !s.failed
  }

  lemma WorkerMay(cfg: Config, s: State, key: Key)
    requires key in s.active && s.active[key].Working?
    ensures Next(cfg, s, s.(active := s.active[key := COMPLETED]))
  {
    var t := s.(active := s.active[key := COMPLETED]);
    assert WorkerActs(s, t, key) by {
      var outcome := Returned(Record(Complete, None));
      assert t == s.(active := s.active[key := Finished(outcome)]);
    }
  }

  /** The workers of the given keys have finished. */
  function SomeDone(s: State, keys: set<Key>): map<Key, Worker> {
    map key | key in s.active :: if key in keys then COMPLETED else s.active[key]
  }

  lemma {:induction false} SomeFinish(cfg: Config, s: State, keys: set<Key>)
    requires keys <= s.active.Keys && forall key :: key in keys ==> s.active[key].Working?
    ensures Reaches(cfg, s, s.(active := SomeDone(s, keys)))
    decreases |keys|
  {
    hide Next, Reaches;
    if keys == {} {
      assert s.active == SomeDone(s, keys);
      ReachesSelf(cfg, s);
    } else {
      var key :| key in keys;
      var rest := keys - {key};
      SomeFinish(cfg, s, rest);
      var t := s.(active := SomeDone(s, rest));
      WorkerMay(cfg, t, key);
      assert t.active[key := COMPLETED] == SomeDone(s, keys);
      ReachesMore(cfg, s, t, s.(active := SomeDone(s, keys)));
    }
  }

  /** Every worker may finish its task. */
  lemma EveryWorkerFinishes(cfg: Config, s: State)
    requires forall key :: key in s.active ==> s.active[key].Working?
    ensures Reaches(cfg, s, s.(active := map key | key in s.active :: COMPLETED))
  {
    hide Reaches;
    SomeFinish(cfg, s, s.active.Keys);
    assert (map key | key in s.active :: COMPLETED) == SomeDone(s, s.active.Keys);
  }

  /** All listed keys are harvested. */
  lemma {:induction false} AllHarvested(cfg: Config, s: State, left: seq<Key>) returns (t: State)
    requires s.pc == Scanning(left) && s.queue == [] && Lists(left, s.active.Keys)
    requires forall key :: key in s.active ==> s.active[key] == COMPLETED
    ensures Reaches(cfg, s, t) && Idle(t.(failed := false)) && t.failed == s.failed
    ensures forall key :: key in left ==> Done(t.records, key)
    ensures forall key :: Done(s.records, key) ==> Done(t.records, key)
    decreases |left|
  {
    hide Next, Reaches;
    ReachesSelf(cfg, s);
    if left == [] {
      t := s.(pc := Guarding);
      assert s.active.Keys == {};
      LoopMay(cfg, s, t);
      ReachesMore(cfg, s, s, t);
    } else {
      var key, rest := left[0], left[1..];
      var a := s.(pc := Harvesting(key, rest));
      var b := Harvest(s, key).(pc := Scanning(rest));
      LoopMay(cfg, s, a);
      LoopMay(cfg, a, b);
      ReachesMore(cfg, s, s, a);
      ReachesMore(cfg, s, a, b);
      forall k
        ensures k in rest <==> k in b.active.Keys
      {
        assert k in left <==> k == key || k in rest;
      }
      t := AllHarvested(cfg, b, rest);
      ReachesAll(cfg, s, b, t);
      assert Done(b.records, key);
    }
  }

  lemma LoopMay(cfg: Config, s: State, t: State)
    requires LoopStep(cfg, s, t)
    ensures Next(cfg, s, t)
  {
  }

  /** What a scheduling pass starts was not complete, and it changes nothing else. */
  lemma {:induction false} PassStarts(cfg: Config, s: State, i: nat)
    ensures var r := Pass(cfg, s, i);
            && r == s.(active := r.active, assignments := r.assignments, started := r.started)
            && forall key :: key in r.active ==>
                 || (key in s.active && r.active[key] == s.active[key])
                 || (r.active[key] == Working(false) && key in KeysOf(cfg.tasks) && !Done(s.records, key))
    decreases |cfg.tasks| - i
  {
    hide Ready, ChooseBackend, Done;
    if i < |cfg.tasks| && |s.active| < cfg.parallelism {
      PassStarts(cfg, Consider(cfg, s, cfg.tasks[i]), i + 1);
    }
  }

  function Undone(cfg: Config, records: Records): set<Key> {
    set key | key in KeysOf(cfg.tasks) && !Done(records, key)
  }

  /** From an idle state with workers that all succeed, one round exits or completes something more. */
  lemma Round(cfg: Config, s: State) returns (t: State)
    requires Idle(s)
    ensures Reaches(cfg, s, t) && !t.failed
    ensures t.pc == Exited || (Idle(t) && Undone(cfg, t.records) < Undone(cfg, s.records))
  {
    hide Next, Reaches, Pass, Done, KeysOf, WorkerStep;
    PassStarts(cfg, s, 0);
    var passed := Pass(cfg, s, 0).(pc := Closing);
    var steps := PassIsSteps(cfg, s, 0);
    ReachesSelf(cfg, s);
    LoopMay(cfg, s, s.(pc := Scheduling(0)));
    ReachesMore(cfg, s, s, s.(pc := Scheduling(0)));
    ChainReaches(cfg, steps, s.(pc := Scheduling(0)), passed);
    ReachesAll(cfg, s, s.(pc := Scheduling(0)), passed);
    if passed.active == map[] {
      t := passed.(pc := Exited);
      LoopMay(cfg, passed, t);
      ReachesMore(cfg, s, passed, t);
    } else {
      t := Collected(cfg, passed);
      ReachesAll(cfg, s, passed, t);
      var key :| key in passed.active;
      assert key in Undone(cfg, s.records) && key !in Undone(cfg, t.records);
    }
  }

  lemma ChainReaches(cfg: Config, states: seq<State>, s: State, t: State)
    requires Chain(cfg, states, s, t)
    ensures Reaches(cfg, s, t)
  {
  }

  /** After a pass: every worker finishes, and the loop collects all results. */
  lemma Collected(cfg: Config, s: State) returns (t: State)
    requires s.pc == Closing && s.active != map[] && s.queue == [] && !s.failed
    requires forall key :: key in s.active ==> s.active[key].Working?
    ensures Reaches(cfg, s, t) && Idle(t)
    ensures forall key :: key in s.active || Done(s.records, key) ==> Done(t.records, key)
  {
    hide Next, Reaches, Done, WorkerStep;
    EveryWorkerFinishes(cfg, s);
    var a := s.(active := map key | key in s.active :: COMPLETED);
    SameSize(s.active, a.active);
    var b := a.(pc := Draining);
    LoopMay(cfg, a, b);
    ReachesMore(cfg, s, a, b);
    var left := Listing(b.active.Keys);
    var c := b.(pc := Scanning(left));
    LoopMay(cfg, b, c);
    ReachesMore(cfg, s, b, c);
    t := AllHarvested(cfg, c, left);
    ReachesAll(cfg, s, c, t);
  }

  /** Rounds go on until the loop exits. */
  lemma {:induction false} ExitReached(cfg: Config, s: State) returns (t: State)
    requires Idle(s)
    ensures Reaches(cfg, s, t) && t.pc == Exited && !t.failed
    decreases Undone(cfg, s.records)
  {
    hide Reaches, Undone;
    var next := Round(cfg, s);
    if next.pc == Exited {
      t := next;
    } else {
      t := ExitReached(cfg, next);
      ReachesAll(cfg, s, next, t);
    }
  }

  // ---------- whole runs ----------

  /** The state is reached in some run. */
  ghost predicate Reachable(cfg: Config, initial: Records, s: State) {
    exists states :: Trace(cfg, initial, states) && states[|states| - 1] == s
  }

  predicate EndedHealthy(s: State) {
    s.pc == Exited && !s.failed
  }

  /** From any records, some run ends without a failure. */
  lemma SomeRunEnds(cfg: Config, initial: Records) returns (s: State)
    ensures Reachable(cfg, initial, s) && EndedHealthy(s)
  {
    hide Next, WorkerStep;
    var a := Begin(initial);
    var b, c := a.(pc := Scanning([])), a.(pc := Guarding);
    assert Lists([], a.active.Keys);
    LoopMay(cfg, a, b);
    LoopMay(cfg, b, c);
    ReachesSelf(cfg, a);
    ReachesMore(cfg, a, a, b);
    ReachesMore(cfg, a, b, c);
    s := ExitReached(cfg, c);
    ReachesAll(cfg, a, c, s);
    var states :| Chain(cfg, states, a, s);
    assert Trace(cfg, initial, states);
  }

  lemma SensibleCompletes(cfg: Config, m: Manifest, bridge: Key, secondary: Option<Control>, s: State)
    requires ValidManifest(m) && Sensible(m, bridge, secondary)
    requires multiset(cfg.tasks) == multiset(Build(m, bridge, secondary))
    requires cfg.parallelism > 0 && Placeable(cfg, map[]) && Reachable(cfg, map[], s) && EndedHealthy(s)
    ensures AllDone(cfg.tasks, s.records)
  {
    hide Sensible, Build, Placeable, AllDone, Next;
    var states :| Trace(cfg, map[], states) && states[|states| - 1] == s;
    HealthyExitIsComplete(cfg, m, bridge, secondary, map[], states, |states| - 1);
  }

  lemma UnsensibleDoesNot(cfg: Config, m: Manifest, bridge: Key, secondary: Option<Control>, s: State)
    requires ValidManifest(m) && OneTaskPerKey(Build(m, bridge, secondary)) && !Sensible(m, bridge, secondary)
    requires multiset(cfg.tasks) == multiset(Build(m, bridge, secondary)) && Reachable(cfg, map[], s)
    ensures !AllDone(cfg.tasks, s.records)
  {
    hide Sensible, Build, OneTaskPerKey, AllDone, Next;
    var states :| Trace(cfg, map[], states) && states[|states| - 1] == s;
    UnsensibleNeverCompletes(cfg, m, bridge, secondary, states, |states| - 1);
  }

  lemma UnplaceableDoesNot(cfg: Config, s: State)
    requires OneTaskPerKey(cfg.tasks) && !Placeable(cfg, map[]) && Reachable(cfg, map[], s)
    ensures !AllDone(cfg.tasks, s.records)
  {
    hide OneTaskPerKey, Placeable, AllDone, Next;
    var states :| Trace(cfg, map[], states) && states[|states| - 1] == s;
    UnplaceableNeverCompletes(cfg, states, |states| - 1);
  }

  /** From fresh records, with one task to a key: a sensible campaign whose tasks all have a place is complete at the
      end of every run without a failure, and any other at no point of any run. So a campaign can be completed at all
      exactly when it is sensible and every task has a place. */
  lemma CompletesExactly(cfg: Config, m: Manifest, bridge: Key, secondary: Option<Control>)
    requires ValidManifest(m) && OneTaskPerKey(Build(m, bridge, secondary))
    requires multiset(cfg.tasks) == multiset(Build(m, bridge, secondary))
    requires cfg.parallelism > 0
    ensures Sensible(m, bridge, secondary) && Placeable(cfg, map[]) <==>
              forall s :: Reachable(cfg, map[], s) && EndedHealthy(s) ==> AllDone(cfg.tasks, s.records)
    ensures Sensible(m, bridge, secondary) && Placeable(cfg, map[]) <==>
              exists s :: Reachable(cfg, map[], s) && AllDone(cfg.tasks, s.records)
  {
    hide Sensible, Build, Reachable, EndedHealthy, OneTaskPerKey, Placeable, AllDone;
    var end := SomeRunEnds(cfg, map[]);
    SameTasks(cfg.tasks, Build(m, bridge, secondary));
    SameKeys(cfg.tasks, Build(m, bridge, secondary));
    if Sensible(m, bridge, secondary) && Placeable(cfg, map[]) {
      forall s | Reachable(cfg, map[], s) && EndedHealthy(s)
        ensures AllDone(cfg.tasks, s.records)
      {
        SensibleCompletes(cfg, m, bridge, secondary, s);
      }
    } else {
      forall s | Reachable(cfg, map[], s)
        ensures !AllDone(cfg.tasks, s.records)
      {
        if Placeable(cfg, map[]) {
          UnsensibleDoesNot(cfg, m, bridge, secondary, s);
        } else {
          UnplaceableDoesNot(cfg, s);
        }
      }
    }
  }

  lemma SameKeys(a: seq<Task>, b: seq<Task>)
    requires OneTaskPerKey(b) && forall t :: t in a <==> t in b
    ensures OneTaskPerKey(a)
  {
  }
}
