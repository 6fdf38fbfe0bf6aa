/** The dependency graph of a campaign, and when the scheduler can run it to the end. */
module SchedulerGraph {
  import opened Basics
  import opened Scheduler
  import opened SchedulerSafety

  const BASELINE := "baseline"
  const REPEAT_1 := "baseline_repeat_1"
  const REPEAT_2 := "baseline_repeat_2"
  const BALANCED := "adaptive_balanced"
  const BALANCED_REPEAT := "adaptive_balanced_repeat"

  /** `orders` holds each date's shuffle of the policies. */
  datatype Manifest = Manifest(dates: seq<string>, policies: seq<string>, orders: seq<seq<string>>)

  datatype Control = Control(key: Key, context: string)

  predicate ValidManifest(m: Manifest) {
    |m.orders| == |m.dates| && forall i :: 0 <= i < |m.orders| ==> multiset(m.orders[i]) == multiset(m.policies)
  }

  // ---------- building the graph ----------

  /** What a policy run, a bridge control and a secondary control wait for. */
  function Baselines(date: string): seq<Key> {
    [Key(date, BASELINE), Key(date, REPEAT_1)]
  }

  function PolicyTasks(date: string, order: seq<string>): (r: seq<Task>)
    ensures |r| == |order|
  {
    seq(|order|, i requires 0 <= i < |order| => Task(Key(date, order[i]), Baselines(date), None, false))
  }

  function PolicyKeys(date: string, order: seq<string>): (r: seq<Key>)
    ensures |r| == |order|
  {
    seq(|order|, i requires 0 <= i < |order| => Key(date, order[i]))
  }

  function DateTasks(date: string, order: seq<string>): seq<Task> {
    [Task(Key(date, BASELINE), [], None, false), Task(Key(date, REPEAT_1), [Key(date, BASELINE)], None, false)]
    + PolicyTasks(date, order)
    + [Task(Key(date, REPEAT_2), PolicyKeys(date, order), None, false),
       Task(Key(date, BALANCED_REPEAT), [Key(date, REPEAT_2), Key(date, BALANCED)], None, false)]
  }

  /** The tasks of the first n dates. */
  function TaskGraph(m: Manifest, n: nat): seq<Task>
    requires ValidManifest(m) && n <= |m.dates|
  {
    if n == 0 then [] else TaskGraph(m, n - 1) + DateTasks(m.dates[n - 1], m.orders[n - 1])
  }

  function Rewired(task: Task, bridge: Key): Task {
    if task.key == bridge then task.(dependencies := Baselines(bridge.date)) else task
  }

  function Rewire(tasks: seq<Task>, bridge: Key): (r: seq<Task>)
    ensures |r| == |tasks|
  {
    seq(|tasks|, i requires 0 <= i < |tasks| => Rewired(tasks[i], bridge))
  }

  function SecondaryTask(c: Control): Task {
    Task(c.key, Baselines(c.key.date), Some(c.context), true)
  }

  /** The graph with the controls: the bridge control waits for the two baselines only. */
  function Build(m: Manifest, bridge: Key, secondary: Option<Control>): seq<Task>
    requires ValidManifest(m)
  {
    Rewire(TaskGraph(m, |m.dates|) + (if secondary.Some? then [SecondaryTask(secondary.value)] else []), bridge)
  }

  // ---------- what is in the graph ----------

  ghost predicate DateTask(date: string, policies: seq<string>, task: Task) {
    || task == Task(Key(date, BASELINE), [], None, false)
    || task == Task(Key(date, REPEAT_1), [Key(date, BASELINE)], None, false)
    || (task.key.date == date && task.key.name in policies && task == Task(task.key, Baselines(date), None, false))
    || (task.key == Key(date, REPEAT_2) && !task.diagnostic && task.context == None
        && forall k :: k in task.dependencies <==> k.date == date && k.name in policies)
    || task == Task(Key(date, BALANCED_REPEAT), [Key(date, REPEAT_2), Key(date, BALANCED)], None, false)
  }

  lemma SameNames(order: seq<string>, policies: seq<string>)
    requires multiset(order) == multiset(policies)
    ensures forall p :: p in order <==> p in policies
  {
    forall p
      ensures p in order <==> p in policies
    {
      assert p in order <==> p in multiset(order);
      assert p in policies <==> p in multiset(policies);
    }
  }

  lemma DateTasksAre(date: string, order: seq<string>, policies: seq<string>)
    requires multiset(order) == multiset(policies)
    ensures forall task :: task in DateTasks(date, order) ==> DateTask(date, policies, task)
  {
    SameNames(order, policies);
    forall k
      ensures k in PolicyKeys(date, order) <==> k.date == date && k.name in policies
    {
      PolicyKeyIn(date, order, k);
    }
    forall task | task in PolicyTasks(date, order)
      ensures DateTask(date, policies, task)
    {
      var i :| 0 <= i < |order| && task == PolicyTasks(date, order)[i];
      assert order[i] in order;
    }
  }

  lemma PolicyKeyIn(date: string, order: seq<string>, k: Key)
    ensures k in PolicyKeys(date, order) <==> k.date == date && k.name in order
  {
    if k.date == date && k.name in order {
      var i :| 0 <= i < |order| && order[i] == k.name;
      assert PolicyKeys(date, order)[i] == k;
    }
    if k in PolicyKeys(date, order) {
      var i :| 0 <= i < |order| && PolicyKeys(date, order)[i] == k;
      assert order[i] in order;
    }
  }

  lemma {:induction false} GraphTasksAre(m: Manifest, n: nat)
    requires ValidManifest(m) && n <= |m.dates|
    ensures forall task :: task in TaskGraph(m, n) ==>
              task.key.date in m.dates && DateTask(task.key.date, m.policies, task)
  {
    hide DateTasks, DateTask;
    if n > 0 {
      GraphTasksAre(m, n - 1);
      var date := m.dates[n - 1];
      DateTasksAre(date, m.orders[n - 1], m.policies);
      forall task | task in DateTasks(date, m.orders[n - 1])
        ensures task.key.date in m.dates && DateTask(task.key.date, m.policies, task)
      {
        DateTaskDate(date, m.policies, task);
      }
    }
  }

  lemma DateTaskDate(date: string, policies: seq<string>, task: Task)
    requires DateTask(date, policies, task)
    ensures task.key.date == date
  {
  }

  lemma {:induction false} GraphHasDate(m: Manifest, n: nat, i: nat)
    requires ValidManifest(m) && i < n <= |m.dates|
    ensures forall task :: task in DateTasks(m.dates[i], m.orders[i]) ==> task in TaskGraph(m, n)
  {
    hide DateTasks;
    if i < n - 1 {
      GraphHasDate(m, n - 1, i);
    }
  }

  lemma RewireElements(tasks: seq<Task>, bridge: Key)
    ensures forall t :: t in tasks ==> Rewired(t, bridge) in Rewire(tasks, bridge)
    ensures forall r :: r in Rewire(tasks, bridge) ==> exists t :: t in tasks && r == Rewired(t, bridge)
  {
    hide Rewired;
    forall t | t in tasks
      ensures Rewired(t, bridge) in Rewire(tasks, bridge)
    {
      var i :| 0 <= i < |tasks| && tasks[i] == t;
      assert Rewire(tasks, bridge)[i] == Rewired(t, bridge);
    }
    forall r | r in Rewire(tasks, bridge)
      ensures exists t :: t in tasks && r == Rewired(t, bridge)
    {
      var i :| 0 <= i < |tasks| && Rewire(tasks, bridge)[i] == r;
      assert tasks[i] in tasks;
    }
  }

  /** Every task of the built graph is a date's task or the secondary control, rewired. */
  lemma BuiltFrom(m: Manifest, bridge: Key, secondary: Option<Control>, task: Task)
    requires ValidManifest(m) && task in Build(m, bridge, secondary)
    ensures exists t :: task == Rewired(t, bridge)
              && ((t.key.date in m.dates && DateTask(t.key.date, m.policies, t))
                  || (secondary.Some? && t == SecondaryTask(secondary.value)))
  {
    hide DateTask, Rewired, Rewire;
    GraphTasksAre(m, |m.dates|);
    RewireElements(TaskGraph(m, |m.dates|) + (if secondary.Some? then [SecondaryTask(secondary.value)] else []),
                   bridge);
  }

  lemma BuiltHas(m: Manifest, bridge: Key, secondary: Option<Control>, date: string, i: nat)
    requires ValidManifest(m) && i < |m.dates| && m.dates[i] == date
    ensures forall t :: t in DateTasks(date, m.orders[i]) ==> Rewired(t, bridge) in Build(m, bridge, secondary)
    ensures secondary.Some? ==> Rewired(SecondaryTask(secondary.value), bridge) in Build(m, bridge, secondary)
  {
    hide DateTasks, Rewired, Rewire, TaskGraph;
    GraphHasDate(m, |m.dates|, i);
    BuiltSecondary(m, bridge, secondary);
    RewireElements(TaskGraph(m, |m.dates|) + (if secondary.Some? then [SecondaryTask(secondary.value)] else []),
                   bridge);
  }

  lemma BuiltSecondary(m: Manifest, bridge: Key, secondary: Option<Control>)
    requires ValidManifest(m)
    ensures secondary.Some? ==> Rewired(SecondaryTask(secondary.value), bridge) in Build(m, bridge, secondary)
  {
    hide Rewired, Rewire, TaskGraph;
    if secondary.Some? {
      var all := TaskGraph(m, |m.dates|) + [SecondaryTask(secondary.value)];
      RewireElements(all, bridge);
      assert SecondaryTask(secondary.value) in all;
    }
  }

  // ---------- the graph, task by task ----------

  /** The tasks of one date, with what each waits for. */
  ghost predicate ListedFor(date: string, order: seq<string>, t: Task) {
    var base, first := Key(date, "baseline"), Key(date, "baseline_repeat_1");
    var last := Key(date, "baseline_repeat_2");
    && t.key.date == date && t.context == None && !t.diagnostic
    && (|| (t.key == base && t.dependencies == [])
        || (t.key == first && t.dependencies == [base])
        || (t.key.name in order && t.dependencies == [base, first])
        || (t.key == last && |t.dependencies| == |order|
            && forall k :: 0 <= k < |order| ==> t.dependencies[k] == Key(date, order[k]))
        || (t.key.name == "adaptive_balanced_repeat" && t.dependencies == [last, Key(date, "adaptive_balanced")]))
  }

  /** The tasks of all dates, and the secondary control, which waits for the two baselines of its date. */
  ghost predicate Listed(m: Manifest, secondary: Option<Control>, t: Task)
    requires ValidManifest(m)
  {
    || (exists i :: 0 <= i < |m.dates| && ListedFor(m.dates[i], m.orders[i], t))
    || (secondary.Some?
        && var key := secondary.value.key;
           t == Task(key, [Key(key.date, "baseline"), Key(key.date, "baseline_repeat_1")],
                     Some(secondary.value.context), true))
  }

  /** The bridge control waits for the two baselines of its date instead. */
  ghost function Instead(t: Task, bridge: Key): Task {
    if t.key != bridge then t
    else t.(dependencies := [Key(bridge.date, "baseline"), Key(bridge.date, "baseline_repeat_1")])
  }

  lemma PolicyTasksListed(date: string, order: seq<string>)
    ensures forall t :: t in PolicyTasks(date, order) <==>
              t.key.date == date && t.key.name in order
              && t == Task(t.key, [Key(date, "baseline"), Key(date, "baseline_repeat_1")], None, false)
  {
    forall t: Task | t.key.date == date && t.key.name in order && t == Task(t.key, Baselines(date), None, false)
      ensures t in PolicyTasks(date, order)
    {
      var i :| 0 <= i < |order| && order[i] == t.key.name;
      assert PolicyTasks(date, order)[i] == t;
    }
  }

  lemma PolicyKeysAre(date: string, order: seq<string>, keys: seq<Key>)
    ensures keys == PolicyKeys(date, order) <==>
              |keys| == |order| && forall k :: 0 <= k < |order| ==> keys[k] == Key(date, order[k])
  {
  }

  lemma DateTasksListed(date: string, order: seq<string>)
    ensures forall t :: t in DateTasks(date, order) <==> ListedFor(date, order, t)
  {
    hide PolicyTasks, PolicyKeys;
    PolicyTasksListed(date, order);
    forall t
      ensures t in DateTasks(date, order) <==> ListedFor(date, order, t)
    {
      PolicyKeysAre(date, order, t.dependencies);
      TaskParts(t);
    }
  }

  lemma TaskParts(t: Task)
    ensures t == Task(Key(t.key.date, t.key.name), t.dependencies, t.context, t.diagnostic)
  {
  }

  lemma {:induction false} GraphTaskDate(m: Manifest, n: nat, task: Task)
    requires ValidManifest(m) && n <= |m.dates| && task in TaskGraph(m, n)
    ensures exists i :: 0 <= i < n && task in DateTasks(m.dates[i], m.orders[i])
  {
    hide DateTasks;
    if task !in DateTasks(m.dates[n - 1], m.orders[n - 1]) {
      GraphTaskDate(m, n - 1, task);
    }
  }

  lemma GraphListed(m: Manifest, secondary: Option<Control>)
    requires ValidManifest(m)
    ensures var all := TaskGraph(m, |m.dates|) + if secondary.Some? then [SecondaryTask(secondary.value)] else [];
            forall t :: t in all <==> Listed(m, secondary, t)
  {
    hide DateTasks, TaskGraph, ListedFor;
    var all := TaskGraph(m, |m.dates|) + (if secondary.Some? then [SecondaryTask(secondary.value)] else []);
    forall t | t in TaskGraph(m, |m.dates|)
      ensures Listed(m, secondary, t)
    {
      GraphTaskDate(m, |m.dates|, t);
      var i :| 0 <= i < |m.dates| && t in DateTasks(m.dates[i], m.orders[i]);
      DateTasksListed(m.dates[i], m.orders[i]);
    }
    forall t | Listed(m, secondary, t)
      ensures t in all
    {
      if i :| 0 <= i < |m.dates| && ListedFor(m.dates[i], m.orders[i], t) {
        DateTasksListed(m.dates[i], m.orders[i]);
        GraphHasDate(m, |m.dates|, i);
      }
    }
  }

  /** The graph with its controls holds exactly the listed tasks, the bridge control with its own dependencies. */
  lemma BuildExactly(m: Manifest, bridge: Key, secondary: Option<Control>, task: Task)
    requires ValidManifest(m)
    ensures task in Build(m, bridge, secondary) <==> exists t :: Listed(m, secondary, t) && task == Instead(t, bridge)
  {
    hide Listed, Rewire, Instead, TaskGraph;
    var all := TaskGraph(m, |m.dates|) + (if secondary.Some? then [SecondaryTask(secondary.value)] else []);
    GraphListed(m, secondary);
    RewireElements(all, bridge);
    forall t
      ensures Rewired(t, bridge) == Instead(t, bridge)
    {
      InsteadIsRewired(t, bridge);
    }
  }

  lemma InsteadIsRewired(t: Task, bridge: Key)
    ensures Rewired(t, bridge) == Instead(t, bridge)
  {
  }

  // ---------- stalling ----------

  predicate HasKey(tasks: seq<Task>, key: Key) {
    exists task :: task in tasks && task.key == key
  }

  /** Nothing more can start. */
  predicate Stalled(tasks: seq<Task>, records: Records) {
    forall task :: task in tasks ==> Done(records, task.key) || !Ready(task, records)
  }

  predicate AllDone(tasks: seq<Task>, records: Records) {
    forall task :: task in tasks ==> Done(records, task.key)
  }

  /** The configuration can be run to the end: the bridge control is no baseline it would then wait for itself, the
      repeated policy exists where its repeat needs it, and the secondary control belongs to a date of the campaign. */
  predicate Sensible(m: Manifest, bridge: Key, secondary: Option<Control>)
    requires ValidManifest(m)
  {
    && (bridge.date in m.dates ==> bridge.name != BASELINE && bridge.name != REPEAT_1)
    && (forall date :: date in m.dates ==>
          bridge == Key(date, BALANCED_REPEAT) || HasKey(Build(m, bridge, secondary), Key(date, BALANCED)))
    && (secondary.Some? ==> secondary.value.key.date in m.dates)
  }

  /** Run directories and containers are named by key, so a key stands for one task. */
  predicate OneTaskPerKey(tasks: seq<Task>) {
    forall a, b :: a in tasks && b in tasks && a.key == b.key ==> a == b
  }

  lemma NamesDiffer()
    ensures BALANCED != BASELINE && BALANCED != REPEAT_1 && BALANCED != REPEAT_2 && BALANCED != BALANCED_REPEAT
    ensures BALANCED_REPEAT != BASELINE && BALANCED_REPEAT != REPEAT_1 && BALANCED_REPEAT != REPEAT_2
    ensures REPEAT_2 != BASELINE && REPEAT_2 != REPEAT_1 && BASELINE != REPEAT_1
  {
    assert BALANCED[0] == 'a' && REPEAT_1[0] == 'b' && REPEAT_2[0] == 'b' && BASELINE[0] == 'b';
    assert REPEAT_1[16] == '1' && REPEAT_2[16] == '2';
    assert |BASELINE| == 8 && |REPEAT_1| == 17 && |BALANCED| == 17 && |BALANCED_REPEAT| == 24;
  }

  /** In a stalled graph that waits only for the two baselines, everything of that kind is complete. */
  lemma BaselinesDone(m: Manifest, bridge: Key, secondary: Option<Control>, records: Records, date: string)
    requires ValidManifest(m) && Sensible(m, bridge, secondary) && Stalled(Build(m, bridge, secondary), records)
    requires date in m.dates
    ensures forall k :: k in Baselines(date) ==> Done(records, k)
  {
    hide Build, HasKey;
    NamesDiffer();
    var i :| 0 <= i < |m.dates| && m.dates[i] == date;
    BuiltHas(m, bridge, secondary, date, i);
    var tasks := DateTasks(date, m.orders[i]);
    var base, first := tasks[0], tasks[1];
    assert base in tasks && first in tasks;
    assert Rewired(base, bridge) == base && Rewired(first, bridge) == first;
    assert Done(records, base.key);
    assert Ready(first, records);
  }

  lemma StalledMeansDone(m: Manifest, bridge: Key, secondary: Option<Control>, records: Records, task: Task, t: Task)
    requires ValidManifest(m) && Sensible(m, bridge, secondary) && Stalled(Build(m, bridge, secondary), records)
    requires task in Build(m, bridge, secondary) && task == Rewired(t, bridge) && t.key.date in m.dates
    requires t.dependencies == [] || t.dependencies == Baselines(t.key.date)
             || t.dependencies == [Key(t.key.date, BASELINE)] || t.key == bridge
    ensures Done(records, task.key)
  {
    hide Build, HasKey, Sensible;
    BaselinesDone(m, bridge, secondary, records, t.key.date);
    assert Baselines(t.key.date)[0] == Key(t.key.date, BASELINE) && Key(t.key.date, BASELINE) in Baselines(t.key.date);
    assert Ready(task, records);
  }

  lemma PoliciesDone(m: Manifest, bridge: Key, secondary: Option<Control>, records: Records, date: string, k: Key)
    requires ValidManifest(m) && Sensible(m, bridge, secondary) && Stalled(Build(m, bridge, secondary), records)
    requires date in m.dates && k.date == date && k.name in m.policies
    ensures Done(records, k)
  {
    hide Build, HasKey, Sensible, DateTasks, Rewired, Stalled;
    var i :| 0 <= i < |m.dates| && m.dates[i] == date;
    BuiltHas(m, bridge, secondary, date, i);
    SameNames(m.orders[i], m.policies);
    var p :| 0 <= p < |m.orders[i]| && m.orders[i][p] == k.name;
    var t := Task(k, Baselines(date), None, false);
    PolicyTaskIn(date, m.orders[i], p);
    RewiredKey(t, bridge);
    StalledMeansDone(m, bridge, secondary, records, Rewired(t, bridge), t);
  }

  lemma RewiredKey(t: Task, bridge: Key)
    ensures Rewired(t, bridge).key == t.key
    ensures t.key != bridge ==> Rewired(t, bridge) == t
    ensures t.key == bridge ==> Rewired(t, bridge).dependencies == Baselines(t.key.date)
  {
  }

  lemma PolicyTaskIn(date: string, order: seq<string>, p: nat)
    requires p < |order|
    ensures Task(Key(date, order[p]), Baselines(date), None, false) in DateTasks(date, order)
  {
    var t := PolicyTasks(date, order)[p];
    assert t in PolicyTasks(date, order);
  }

  lemma LastDone(m: Manifest, bridge: Key, secondary: Option<Control>, records: Records, date: string)
    requires ValidManifest(m) && Sensible(m, bridge, secondary) && Stalled(Build(m, bridge, secondary), records)
    requires date in m.dates
    ensures Done(records, Key(date, REPEAT_2))
  {
    hide Build, HasKey, Sensible, Stalled;
    var i :| 0 <= i < |m.dates| && m.dates[i] == date;
    BuiltHas(m, bridge, secondary, date, i);
    var tasks := DateTasks(date, m.orders[i]);
    var last := tasks[|tasks| - 2];
    assert last in tasks && last.key == Key(date, REPEAT_2) && last.dependencies == PolicyKeys(date, m.orders[i]);
    SameNames(m.orders[i], m.policies);
    if last.key == bridge {
      StalledMeansDone(m, bridge, secondary, records, Rewired(last, bridge), last);
    } else {
      forall k | k in last.dependencies
        ensures Done(records, k)
      {
        PolicyKeyIn(date, m.orders[i], k);
        PoliciesDone(m, bridge, secondary, records, date, k);
      }
      StalledUse(Build(m, bridge, secondary), records, last);
    }
  }

  lemma StalledUse(tasks: seq<Task>, records: Records, task: Task)
    requires Stalled(tasks, records) && task in tasks && forall k :: k in task.dependencies ==> Done(records, k)
    ensures Done(records, task.key)
  {
  }

  lemma WaitsForBaselines(date: string, policies: seq<string>, t: Task)
    ensures DateTask(date, policies, t) && t.key.name != BALANCED_REPEAT ==>
              || t.dependencies == [] || t.dependencies == Baselines(date) || t.dependencies == [Key(date, BASELINE)]
              || (t.key.name == REPEAT_2 && !t.diagnostic)
  {
  }

  /** Everything but the repeated policy's repeats. */
  lemma OthersDone(m: Manifest, bridge: Key, secondary: Option<Control>, records: Records, task: Task)
    requires ValidManifest(m) && Sensible(m, bridge, secondary) && Stalled(Build(m, bridge, secondary), records)
    requires task in Build(m, bridge, secondary) && task.key.name != BALANCED_REPEAT
    ensures Done(records, task.key)
  {
    hide Build, HasKey, Stalled, Done, DateTask, Rewired;
    BuiltFrom(m, bridge, secondary, task);
    var t :| task == Rewired(t, bridge)
             && ((t.key.date in m.dates && DateTask(t.key.date, m.policies, t))
                 || (secondary.Some? && t == SecondaryTask(secondary.value)));
    RewiredKey(t, bridge);
    WaitsForBaselines(t.key.date, m.policies, t);
    if t.key.name == REPEAT_2 && !t.diagnostic && t.key.date in m.dates {
      LastDone(m, bridge, secondary, records, t.key.date);
    } else {
      StalledMeansDone(m, bridge, secondary, records, task, t);
    }
  }

  lemma SensibleFinishes(m: Manifest, bridge: Key, secondary: Option<Control>, records: Records)
    requires ValidManifest(m) && Sensible(m, bridge, secondary) && Stalled(Build(m, bridge, secondary), records)
    ensures AllDone(Build(m, bridge, secondary), records)
  {
    hide Build, Stalled, Done, DateTask;
    var tasks := Build(m, bridge, secondary);
    forall task | task in tasks
      ensures Done(records, task.key)
    {
      if task.key.name != BALANCED_REPEAT {
        OthersDone(m, bridge, secondary, records, task);
      } else {
        RepeatDone(m, bridge, secondary, records, task);
      }
    }
  }

  lemma RepeatWaitsFor(date: string, policies: seq<string>, t: Task)
    requires DateTask(date, policies, t) && t.key.name == BALANCED_REPEAT
    ensures t.dependencies == Baselines(date) || t.dependencies == [Key(date, REPEAT_2), Key(date, BALANCED)]
  {
    NamesDiffer();
  }

  lemma RepeatDone(m: Manifest, bridge: Key, secondary: Option<Control>, records: Records, task: Task)
    requires ValidManifest(m) && Sensible(m, bridge, secondary) && Stalled(Build(m, bridge, secondary), records)
    requires task in Build(m, bridge, secondary) && task.key.name == BALANCED_REPEAT
    ensures Done(records, task.key)
  {
    hide Build, Stalled, Done, DateTask, Rewired;
    NamesDiffer();
    BuiltFrom(m, bridge, secondary, task);
    var t :| task == Rewired(t, bridge)
             && ((t.key.date in m.dates && DateTask(t.key.date, m.policies, t))
                 || (secondary.Some? && t == SecondaryTask(secondary.value)));
    RewiredKey(t, bridge);
    var date := task.key.date;
    if DateTask(date, m.policies, t) {
      RepeatWaitsFor(date, m.policies, t);
    }
    if t.key == bridge || t.dependencies == Baselines(date) {
      StalledMeansDone(m, bridge, secondary, records, task, t);
    } else {
      LastDone(m, bridge, secondary, records, date);
      var balanced :| balanced in Build(m, bridge, secondary) && balanced.key == Key(date, BALANCED);
      OthersDone(m, bridge, secondary, records, balanced);
      StalledUse(Build(m, bridge, secondary), records, task);
    }
  }

  // ---------- the configurations that hang ----------

  /** Keys that wait for each other: each task with one of these keys depends on one of them. */
  predicate Blocked(tasks: seq<Task>, keys: set<Key>) {
    forall task :: task in tasks && task.key in keys ==> exists key :: key in keys && key in task.dependencies
  }

  /** Blocked keys, one of which the campaign is to run. */
  predicate Hangs(tasks: seq<Task>, keys: set<Key>) {
    Blocked(tasks, keys) && exists task :: task in tasks && task.key in keys
  }

  function KeysOf(tasks: seq<Task>): set<Key> {
    set task | task in tasks :: task.key
  }

  /** Every task complete but those with the given keys. */
  function AllBut(tasks: seq<Task>, keys: set<Key>): Records {
    map k | k in KeysOf(tasks) - keys :: Record(Complete, None)
  }

  lemma BlockedStalls(tasks: seq<Task>, keys: set<Key>)
    requires Hangs(tasks, keys)
    ensures Stalled(tasks, AllBut(tasks, keys)) && !AllDone(tasks, AllBut(tasks, keys))
  {
    var records := AllBut(tasks, keys);
    forall task | task in tasks
      ensures Done(records, task.key) || !Ready(task, records)
    {
      if task.key in keys {
        var key :| key in keys && key in task.dependencies;
        assert !Done(records, key);
      }
    }
    var task :| task in tasks && task.key in keys;
    assert !Done(records, task.key);
  }

  /** A bridge control that is a baseline or first repeat waits for itself. */
  lemma SelfWaitHangs(m: Manifest, bridge: Key, secondary: Option<Control>)
    requires ValidManifest(m) && bridge.date in m.dates && (bridge.name == BASELINE || bridge.name == REPEAT_1)
    ensures Hangs(Build(m, bridge, secondary), {bridge})
  {
    hide Build;
    var i :| 0 <= i < |m.dates| && m.dates[i] == bridge.date;
    BuiltHas(m, bridge, secondary, bridge.date, i);
    var tasks := DateTasks(bridge.date, m.orders[i]);
    var t := if bridge.name == BASELINE then tasks[0] else tasks[1];
    assert t in tasks && t.key == bridge;
    assert Rewired(t, bridge) in Build(m, bridge, secondary);
    assert Baselines(bridge.date)[0] == bridge || Baselines(bridge.date)[1] == bridge;
    forall other | other in Build(m, bridge, secondary) && other.key == bridge
      ensures bridge in other.dependencies
    {
      BuiltFrom(m, bridge, secondary, other);
    }
  }

  /** Without the repeated policy, its repeat waits for a task that does not exist. */
  lemma MissingPolicyHangs(m: Manifest, bridge: Key, secondary: Option<Control>, date: string)
    requires ValidManifest(m) && OneTaskPerKey(Build(m, bridge, secondary)) && date in m.dates
    requires bridge != Key(date, BALANCED_REPEAT) && !HasKey(Build(m, bridge, secondary), Key(date, BALANCED))
    ensures Hangs(Build(m, bridge, secondary), {Key(date, BALANCED), Key(date, BALANCED_REPEAT)})
  {
    hide Build;
    var i :| 0 <= i < |m.dates| && m.dates[i] == date;
    BuiltHas(m, bridge, secondary, date, i);
    var tasks := DateTasks(date, m.orders[i]);
    var repeat := tasks[|tasks| - 1];
    assert repeat in tasks && repeat.key == Key(date, BALANCED_REPEAT);
    assert repeat.dependencies[1] == Key(date, BALANCED) && Key(date, BALANCED) in repeat.dependencies;
    assert Rewired(repeat, bridge) == repeat;
  }

  /** A secondary control of a foreign date waits for baselines that do not exist. */
  lemma ForeignSecondaryHangs(m: Manifest, bridge: Key, c: Control)
    requires ValidManifest(m) && c.key.date !in m.dates
    ensures Hangs(Build(m, bridge, Some(c)), {c.key, Key(c.key.date, BASELINE)})
  {
    hide Build;
    BuiltSecondary(m, bridge, Some(c));
    var missing := Key(c.key.date, BASELINE);
    assert Baselines(c.key.date)[0] == missing;
    assert Rewired(SecondaryTask(c), bridge).key == c.key;
    forall other | other in Build(m, bridge, Some(c)) && other.key.date == c.key.date
      ensures missing in other.dependencies
    {
      BuiltFrom(m, bridge, Some(c), other);
    }
  }

  /** Every configuration that is not sensible has blocked keys. */
  lemma UnsensibleHangs(m: Manifest, bridge: Key, secondary: Option<Control>) returns (keys: set<Key>)
    requires ValidManifest(m) && OneTaskPerKey(Build(m, bridge, secondary)) && !Sensible(m, bridge, secondary)
    ensures Hangs(Build(m, bridge, secondary), keys)
  {
    hide Build, HasKey, OneTaskPerKey, Hangs;
    if bridge.date in m.dates && (bridge.name == BASELINE || bridge.name == REPEAT_1) {
      SelfWaitHangs(m, bridge, secondary);
      keys := {bridge};
    } else if secondary.Some? && secondary.value.key.date !in m.dates {
      ForeignSecondaryHangs(m, bridge, secondary.value);
      keys := {secondary.value.key, Key(secondary.value.key.date, BASELINE)};
    } else {
      var date :| date in m.dates && bridge != Key(date, BALANCED_REPEAT)
                  && !HasKey(Build(m, bridge, secondary), Key(date, BALANCED));
      MissingPolicyHangs(m, bridge, secondary, date);
      keys := {Key(date, BALANCED), Key(date, BALANCED_REPEAT)};
    }
  }

  /** Where nothing can start any more everything is complete, whatever records a campaign resumes, exactly when its
      configuration is sensible (a key standing for one task). */
  lemma FinishesExactly(m: Manifest, bridge: Key, secondary: Option<Control>)
    requires ValidManifest(m) && OneTaskPerKey(Build(m, bridge, secondary))
    ensures Sensible(m, bridge, secondary) <==>
              forall records :: Stalled(Build(m, bridge, secondary), records) ==>
                AllDone(Build(m, bridge, secondary), records)
  {
    hide Build, Stalled, AllDone, HasKey, OneTaskPerKey, Sensible, Hangs, AllBut;
    if Sensible(m, bridge, secondary) {
      forall records | Stalled(Build(m, bridge, secondary), records)
        ensures AllDone(Build(m, bridge, secondary), records)
      {
        SensibleFinishes(m, bridge, secondary, records);
      }
    } else {
      var keys := UnsensibleHangs(m, bridge, secondary);
      BlockedStalls(Build(m, bridge, secondary), keys);
    }
  }
}
