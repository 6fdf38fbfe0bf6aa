/** When the scheduler's loop ends, and what it then has achieved. */
module SchedulerExit {
  import opened Basics
  import opened Scheduler
  import opened SchedulerSafety
  import opened SchedulerGraph

  /** A backend with a slot may run the task: any, or the one it must run on. */
  predicate HasPlace(cfg: Config, task: Task, record: Option<Record>) {
    exists b :: b in cfg.backends && b.slots > 0
      && var preferred := Preferred(task, record, cfg.backends); preferred.Some? ==> preferred.value == b.context
  }

  /** Every task finds a backend when nothing else is running. */
  predicate Placeable(cfg: Config, records: Records) {
    forall task :: task in cfg.tasks ==> HasPlace(cfg, task, RecordOf(records, task.key))
  }

  lemma UsedAtMost(assignments: map<Key, string>, context: string)
    ensures Used(assignments, context) <= |assignments.Keys|
  {
    SubsetSmaller((set key | key in assignments && assignments[key] == context), assignments.Keys);
  }

  lemma NobodyUses(context: string)
    ensures Used(map[], context) == 0
  {
    hide Used;
    UsedAtMost(map[], context);
  }

  lemma PlaceableFinds(cfg: Config, records: Records, task: Task)
    requires Placeable(cfg, records) && task in cfg.tasks
    ensures ChooseBackend(cfg, task, records, map[]) != None
  {
    hide Used, Preferred;
    var preferred := Preferred(task, RecordOf(records, task.key), cfg.backends);
    FirstFitFits(cfg.backends, preferred, map[]);
    var b :| b in cfg.backends && b.slots > 0 && (preferred.Some? ==> preferred.value == b.context);
    NobodyUses(b.context);
  }

  lemma SameRecordSameChoice(cfg: Config, task: Task, a: Records, b: Records)
    requires RecordOf(a, task.key) == RecordOf(b, task.key)
    ensures ChooseBackend(cfg, task, a, map[]) == ChooseBackend(cfg, task, b, map[])
  {
  }

  /** A healthy exit leaves nothing that could still be started. */
  lemma ExitStalled(cfg: Config, initial: Records, s: State)
    requires Inv(cfg, initial, s) && s.pc == Exited && !s.failed && cfg.parallelism > 0 && Placeable(cfg, initial)
    ensures Stalled(cfg.tasks, s.records)
  {
    hide Ready, ChooseBackend, Placeable, FinalWord, Justified, OnBackend, Done;
    assert s.assignments == map[] by {
      assert s.assignments.Keys == {};
    }
    forall task | task in cfg.tasks
      ensures Done(s.records, task.key) || !Ready(task, s.records)
    {
      var i :| 0 <= i < |cfg.tasks| && cfg.tasks[i] == task;
      assert Settled(cfg, s, cfg.tasks[i]);
      if !Done(s.records, task.key) {
        assert task.key !in s.started;
        SameRecordSameChoice(cfg, task, s.records, initial);
        PlaceableFinds(cfg, initial, task);
      }
    }
  }

  /** In every run of a sensible campaign that ends without a failure, every task is complete. */
  lemma HealthyExitIsComplete(
    cfg: Config, m: Manifest, bridge: Key, secondary: Option<Control>, initial: Records, states: seq<State>, i: nat)
    requires ValidManifest(m) && Sensible(m, bridge, secondary)
    requires multiset(cfg.tasks) == multiset(Build(m, bridge, secondary))
    requires cfg.parallelism > 0 && Placeable(cfg, initial)
    requires Trace(cfg, initial, states) && i < |states| && states[i].pc == Exited && !states[i].failed
    ensures AllDone(cfg.tasks, states[i].records)
  {
    hide Sensible, Build, Inv, Placeable, Done, Ready;
    var s := states[i];
    TraceKeeps(cfg, initial, states, i);
    ExitStalled(cfg, initial, s);
    SameTasks(cfg.tasks, Build(m, bridge, secondary));
    SensibleFinishes(m, bridge, secondary, s.records);
  }

  lemma SameTasks(a: seq<Task>, b: seq<Task>)
    requires multiset(a) == multiset(b)
    ensures forall t :: t in a <==> t in b
  {
    forall t
      ensures t in a <==> t in b
    {
      assert t in a <==> t in multiset(a);
      assert t in b <==> t in multiset(b);
    }
  }

  // ---------- blocked keys never start ----------

  /** Blocked keys that are not complete at the start are never started and never complete, in any run. */
  lemma {:induction false} BlockedNeverStart(cfg: Config, initial: Records, states: seq<State>, i: nat, keys: set<Key>)
    requires Trace(cfg, initial, states) && i < |states|
    requires Blocked(cfg.tasks, keys) && forall key :: key in keys ==> !Done(initial, key)
    ensures forall key :: key in keys ==> key !in states[i].started && !Done(states[i].records, key)
    decreases i
  {
    hide Inv, Next, Blocked, Done;
    if i > 0 {
      BlockedNeverStart(cfg, initial, states, i - 1, keys);
      TraceKeeps(cfg, initial, states, i - 1);
      NextKeeps(cfg, initial, states[i - 1], states[i]);
      TraceKeeps(cfg, initial, states, i);
      forall key | key in keys
        ensures key !in states[i].started && !Done(states[i].records, key)
      {
        NeverReady(cfg, initial, states[i - 1], states[i], keys, key);
      }
    }
  }

  lemma NeverReady(cfg: Config, initial: Records, s: State, t: State, keys: set<Key>, key: Key)
    requires Inv(cfg, initial, s) && Inv(cfg, initial, t) && Next(cfg, s, t) && key in keys && Blocked(cfg.tasks, keys)
    requires forall k :: k in keys ==> k !in s.started && !Done(s.records, k) && !Done(initial, k)
    ensures key !in t.started && !Done(t.records, key)
  {
    hide Justified, WithinLimits, FinalWord, PlaceKept, PassSettled, LoopStep, WorkerStep, Next;
    assert forall task :: task in cfg.tasks && task.key == key ==> !Ready(task, s.records);
    if key in t.started {
      if key in t.active {
        StartsReady(cfg, s, t, key);
        assert false;
      } else {
        StartsActive(cfg, s, t, key);
        assert false;
      }
    }
    assert RecordOf(t.records, key) == RecordOf(initial, key);
  }

  /** A key whose tasks all wait for that key itself is never started, so unless it is complete from the start the
      campaign never is. */
  lemma SelfWaiterNeverStarts(cfg: Config, initial: Records, states: seq<State>, i: nat, key: Key)
    requires Trace(cfg, initial, states) && i < |states| && !Done(initial, key)
    requires forall task :: task in cfg.tasks && task.key == key ==> key in task.dependencies
    ensures key !in states[i].started && !Done(states[i].records, key)
  {
    hide Trace, Done;
    BlockedNeverStart(cfg, initial, states, i, {key});
  }

  /** A key that no task provides is never complete, unless it was from the start. */
  lemma MissingKeyNeverDone(cfg: Config, initial: Records, states: seq<State>, i: nat, key: Key)
    requires Trace(cfg, initial, states) && i < |states| && !Done(initial, key) && !HasKey(cfg.tasks, key)
    ensures !Done(states[i].records, key)
  {
    hide Trace, Done;
    BlockedNeverStart(cfg, initial, states, i, {key});
  }

  /** From fresh records, no run of a campaign that is not sensible ever completes it. */
  lemma UnsensibleNeverCompletes(
    cfg: Config, m: Manifest, bridge: Key, secondary: Option<Control>, states: seq<State>, i: nat)
    requires ValidManifest(m) && OneTaskPerKey(Build(m, bridge, secondary)) && !Sensible(m, bridge, secondary)
    requires multiset(cfg.tasks) == multiset(Build(m, bridge, secondary))
    requires Trace(cfg, map[], states) && i < |states|
    ensures !AllDone(cfg.tasks, states[i].records)
  {
    hide Sensible, Build, Trace, OneTaskPerKey;
    var tasks := Build(m, bridge, secondary);
    SameTasks(cfg.tasks, tasks);
    var keys := UnsensibleHangs(m, bridge, secondary);
    BlockedNeverStart(cfg, map[], states, i, keys);
    var task :| task in tasks && task.key in keys;
    assert !Done(states[i].records, task.key);
  }

  // ---------- a task without a place never starts ----------

  /** Where a backend is chosen, the task has a place. */
  lemma ChosenHasPlace(cfg: Config, task: Task, records: Records, assignments: map<Key, string>)
    requires ChooseBackend(cfg, task, records, assignments).Some?
    ensures HasPlace(cfg, task, RecordOf(records, task.key))
  {
    hide Used, Preferred;
    var preferred := Preferred(task, RecordOf(records, task.key), cfg.backends);
    FirstFitFits(cfg.backends, preferred, assignments);
    var b :| b in cfg.backends && Fits(b, preferred, assignments);
  }

  lemma StartsPlaced(cfg: Config, s: State, t: State, key: Key)
    requires Next(cfg, s, t) && key !in s.active && key in t.active
    ensures exists task :: task in cfg.tasks && task.key == key && HasPlace(cfg, task, RecordOf(s.records, key))
  {
    hide Ready, ChooseBackend, Done, HasPlace;
    if WorkerStep(s, t) {
      var k :| k in s.active && s.active[k].Working? && WorkerActs(s, t, k);
      WorkerActsOnly(s, t, k);
      assert false;
    } else {
      ChosenHasPlace(cfg, cfg.tasks[s.pc.next], s.records, s.assignments);
    }
  }

  /** A key none of whose tasks has a place is never started and never complete, in any run, unless it was complete at
      the start. */
  lemma {:induction false} UnplacedNeverStarts(cfg: Config, initial: Records, states: seq<State>, i: nat, key: Key)
    requires Trace(cfg, initial, states) && i < |states| && !Done(initial, key)
    requires forall task :: task in cfg.tasks && task.key == key ==> !HasPlace(cfg, task, RecordOf(initial, key))
    ensures key !in states[i].started && !Done(states[i].records, key)
    decreases i
  {
    hide Inv, Next, HasPlace, Done;
    if i > 0 {
      UnplacedNeverStarts(cfg, initial, states, i - 1, key);
      TraceKeeps(cfg, initial, states, i - 1);
      TraceKeeps(cfg, initial, states, i);
      NeverPlaced(cfg, initial, states[i - 1], states[i], key);
    }
  }

  lemma NeverPlaced(cfg: Config, initial: Records, s: State, t: State, key: Key)
    requires Inv(cfg, initial, s) && Inv(cfg, initial, t) && Next(cfg, s, t)
    requires key !in s.started && !Done(initial, key)
    requires forall task :: task in cfg.tasks && task.key == key ==> !HasPlace(cfg, task, RecordOf(initial, key))
    ensures key !in t.started && !Done(t.records, key)
  {
    hide Justified, WithinLimits, FinalWord, PlaceKept, PassSettled, LoopStep, WorkerStep, Next, HasPlace;
    assert RecordOf(s.records, key) == RecordOf(initial, key);
    if key in t.started {
      StartsActive(cfg, s, t, key);
      StartsPlaced(cfg, s, t, key);
      assert false;
    }
    assert RecordOf(t.records, key) == RecordOf(initial, key);
  }

  /** From fresh records, no run completes a campaign with a task that has no place. */
  lemma UnplaceableNeverCompletes(cfg: Config, states: seq<State>, i: nat)
    requires OneTaskPerKey(cfg.tasks) && !Placeable(cfg, map[]) && Trace(cfg, map[], states) && i < |states|
    ensures !AllDone(cfg.tasks, states[i].records)
  {
    hide Trace, HasPlace;
    var task :| task in cfg.tasks && !HasPlace(cfg, task, RecordOf(map[], task.key));
    UnplacedNeverStarts(cfg, map[], states, i, task.key);
  }

  lemma StartsActive(cfg: Config, s: State, t: State, key: Key)
    requires Next(cfg, s, t) && key !in s.started && key in t.started
    ensures key in t.active
  {
    hide Ready, ChooseBackend, Done;
    if WorkerStep(s, t) {
      var k :| k in s.active && s.active[k].Working? && WorkerActs(s, t, k);
      WorkerActsOnly(s, t, k);
      assert false;
    }
  }

  // ---------- whole phases of the loop ----------

  /** Draining until the queue is empty. */
  function DrainAll(s: State): (r: State)
    ensures r == s.(queue := [], records := r.records)
    decreases |s.queue|
  {
    if s.queue == [] then s else DrainAll(DrainOne(s))
  }

  /** The record posted last for the key, if any. */
  ghost function LastPosted(queue: seq<Event>, key: Key): Option<Record> {
    if queue == [] then None
    else
      var e := queue[|queue| - 1];
      if e.key == key && e.record.Some? then e.record else LastPosted(queue[..|queue| - 1], key)
  }

  /** Every key has the record posted last for it, or else the record it had. */
  ghost predicate Drained(s: State, records: Records) {
    forall key :: RecordOf(records, key)
                  == if LastPosted(s.queue, key).Some? then LastPosted(s.queue, key) else RecordOf(s.records, key)
  }

  lemma {:induction false} FirstPosted(queue: seq<Event>, key: Key)
    requires queue != []
    ensures LastPosted(queue, key)
            == if LastPosted(queue[1..], key).Some? then LastPosted(queue[1..], key)
               else if queue[0].key == key then queue[0].record else None
  {
    var n := |queue| - 1;
    if n > 0 {
      FirstPosted(queue[..n], key);
      assert queue[..n][1..] == queue[1..][..n - 1];
    }
  }

  /** A drain leaves the records posted last. */
  lemma {:induction false} DrainExactly(s: State)
    ensures Drained(s, DrainAll(s).records)
    decreases |s.queue|
  {
    hide LastPosted;
    if s.queue == [] {
      NothingPosted();
    } else {
      DrainExactly(DrainOne(s));
      forall key
        ensures LastPosted(s.queue, key)
                == if LastPosted(s.queue[1..], key).Some? then LastPosted(s.queue[1..], key)
                   else if s.queue[0].key == key then s.queue[0].record else None
      {
        FirstPosted(s.queue, key);
      }
    }
  }

  lemma NothingPosted()
    ensures forall key :: LastPosted([], key) == None
  {
  }

  /** Considering the tasks from i on, until one of the loop's bounds is met. */
  function Pass(cfg: Config, s: State, i: nat): State
    decreases |cfg.tasks| - i
  {
    if i >= |cfg.tasks| || |s.active| >= cfg.parallelism then s
    else Pass(cfg, Consider(cfg, s, cfg.tasks[i]), i + 1)
  }

  ghost predicate Chain(cfg: Config, states: seq<State>, s: State, t: State) {
    && states != [] && states[0] == s && states[|states| - 1] == t
    && forall i :: 0 < i < |states| ==> Next(cfg, states[i - 1], states[i])
  }

  lemma ChainCons(cfg: Config, s: State, states: seq<State>, next: State, t: State)
    requires Chain(cfg, states, next, t) && Next(cfg, s, next)
    ensures Chain(cfg, [s] + states, s, t)
  {
    hide Next;
    var all := [s] + states;
    forall i | 0 < i < |all|
      ensures Next(cfg, all[i - 1], all[i])
    {
      if i > 1 {
        assert all[i - 1] == states[i - 2] && all[i] == states[i - 1];
      }
    }
  }

  /** A whole pass is one way the single steps can go. */
  lemma {:induction false} PassIsSteps(cfg: Config, s: State, i: nat) returns (states: seq<State>)
    requires !s.failed && i <= |cfg.tasks|
    ensures Chain(cfg, states, s.(pc := Scheduling(i)), Pass(cfg, s, i).(pc := Closing))
    decreases |cfg.tasks| - i
  {
    hide Ready, ChooseBackend, Done, WorkerStep, DrainOne, Harvest, Consider;
    var here := s.(pc := Scheduling(i));
    if i >= |cfg.tasks| || |s.active| >= cfg.parallelism {
      states := [here, s.(pc := Closing)];
    } else {
      var next := Consider(cfg, s, cfg.tasks[i]);
      ConsiderFrame(cfg, s, cfg.tasks[i]);
      ConsiderIgnoresPlace(cfg, s, cfg.tasks[i], Scheduling(i));
      var rest := PassIsSteps(cfg, next, i + 1);
      ChainCons(cfg, here, rest, next.(pc := Scheduling(i + 1)), Pass(cfg, s, i).(pc := Closing));
      states := [here] + rest;
    }
  }

  lemma ConsiderIgnoresPlace(cfg: Config, s: State, task: Task, pc: PC)
    ensures Consider(cfg, s.(pc := pc), task) == Consider(cfg, s, task).(pc := pc)
  {
    hide Ready, ChooseBackend, Done;
  }

  /** A whole drain is one way the single steps can go. */
  lemma {:induction false} DrainIsSteps(cfg: Config, s: State) returns (states: seq<State>)
    requires s.pc.Draining? || s.pc.Harvesting? || s.pc.Closing?
    ensures Chain(cfg, states, s, DrainAll(s))
    decreases |s.queue|
  {
    hide WorkerStep, Harvest, Consider;
    if s.queue == [] {
      states := [s];
    } else {
      var rest := DrainIsSteps(cfg, DrainOne(s));
      assert LoopStep(cfg, s, DrainOne(s));
      ChainCons(cfg, s, rest, DrainOne(s), DrainAll(s));
      states := [s] + rest;
    }
  }
}
