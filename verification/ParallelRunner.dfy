/** The scheduler as the program runs it: an object whose loops update its fields. */
module ParallelRunner {
  import opened Basics
  import opened Scheduler
  import opened SchedulerRecords
  import opened SchedulerSafety
  import opened SchedulerGraph
  import opened SchedulerExit

  /** Live work first, then the controls, then the rest; otherwise in graph order. */
  function Rank(task: Task, records: Records, marked: set<Key>): nat {
    if task.key in records && records[task.key].status == Running then 0
    else if task.key in marked then 1
    else 2
  }

  predicate Ordered(tasks: seq<Task>, records: Records, marked: set<Key>) {
    forall i, j :: 0 <= i < j < |tasks| ==> Rank(tasks[i], records, marked) <= Rank(tasks[j], records, marked)
  }

  function OfRank(tasks: seq<Task>, records: Records, marked: set<Key>, rank: nat): seq<Task> {
    if tasks == [] then []
    else
      var rest := OfRank(tasks[..|tasks| - 1], records, marked, rank);
      var last := tasks[|tasks| - 1];
      if Rank(last, records, marked) == rank then rest + [last] else rest
  }

  /** The stable sort by rank. */
  function Prioritised(tasks: seq<Task>, records: Records, marked: set<Key>): seq<Task> {
    OfRank(tasks, records, marked, 0) + OfRank(tasks, records, marked, 1) + OfRank(tasks, records, marked, 2)
  }

  lemma {:induction false} OfRankOnly(tasks: seq<Task>, records: Records, marked: set<Key>, rank: nat)
    ensures forall t :: t in OfRank(tasks, records, marked, rank) ==> Rank(t, records, marked) == rank
  {
    if tasks != [] {
      OfRankOnly(tasks[..|tasks| - 1], records, marked, rank);
    }
  }

  lemma {:induction false} RanksCover(tasks: seq<Task>, records: Records, marked: set<Key>)
    ensures multiset(OfRank(tasks, records, marked, 0)) + multiset(OfRank(tasks, records, marked, 1))
            + multiset(OfRank(tasks, records, marked, 2)) == multiset(tasks)
  {
    hide Rank;
    if tasks != [] {
      RanksCover(tasks[..|tasks| - 1], records, marked);
      assert tasks == tasks[..|tasks| - 1] + [tasks[|tasks| - 1]];
      RankBelowThree(tasks[|tasks| - 1], records, marked);
    }
  }

  lemma RankBelowThree(task: Task, records: Records, marked: set<Key>)
    ensures Rank(task, records, marked) < 3
  {
  }

  ghost predicate Live(task: Task, records: Records) {
    task.key in records && records[task.key].status == Running
  }

  /** Task t is of the same kind as u: both live, or both controls, or both neither. */
  ghost predicate Alike(t: Task, u: Task, records: Records, marked: set<Key>) {
    (Live(t, records) <==> Live(u, records)) && (!Live(u, records) ==> (t.key in marked <==> u.key in marked))
  }

  /** The tasks of the same kind as u, in their order. */
  ghost function KindOf(tasks: seq<Task>, u: Task, records: Records, marked: set<Key>): seq<Task> {
    if tasks == [] then []
    else (if Alike(tasks[0], u, records, marked) then [tasks[0]] else []) + KindOf(tasks[1..], u, records, marked)
  }

  /** Live work comes first, then the controls. */
  ghost predicate LiveFirst(tasks: seq<Task>, records: Records, marked: set<Key>) {
    forall i, j :: 0 <= i < j < |tasks| ==>
      && (Live(tasks[j], records) ==> Live(tasks[i], records))
      && (tasks[j].key in marked ==> Live(tasks[i], records) || tasks[i].key in marked)
  }

  lemma RankMeans(t: Task, u: Task, records: Records, marked: set<Key>)
    ensures Rank(t, records, marked) == Rank(u, records, marked) <==> Alike(t, u, records, marked)
    ensures Rank(t, records, marked) <= Rank(u, records, marked) <==>
              && (Live(u, records) ==> Live(t, records))
              && (u.key in marked ==> Live(t, records) || t.key in marked || Live(u, records))
  {
  }

  lemma {:induction false} KindAppend(a: seq<Task>, b: seq<Task>, u: Task, records: Records, marked: set<Key>)
    ensures KindOf(a + b, u, records, marked) == KindOf(a, u, records, marked) + KindOf(b, u, records, marked)
  {
    hide Alike;
    if a == [] {
      assert a + b == b;
    } else {
      assert (a + b)[1..] == a[1..] + b;
      KindAppend(a[1..], b, u, records, marked);
    }
  }

  lemma {:induction false} KindIsRank(tasks: seq<Task>, u: Task, records: Records, marked: set<Key>)
    ensures KindOf(tasks, u, records, marked) == OfRank(tasks, records, marked, Rank(u, records, marked))
  {
    hide Alike, Rank;
    if tasks != [] {
      var n := |tasks| - 1;
      KindIsRank(tasks[..n], u, records, marked);
      KindAppend(tasks[..n], [tasks[n]], u, records, marked);
      assert tasks == tasks[..n] + [tasks[n]];
      assert [tasks[n]][1..] == [];
      RankMeans(tasks[n], u, records, marked);
    }
  }

  lemma {:induction false} KindOfKind(tasks: seq<Task>, u: Task, records: Records, marked: set<Key>, rank: nat)
    requires forall t :: t in tasks ==> Rank(t, records, marked) == rank
    ensures KindOf(tasks, u, records, marked) == if Rank(u, records, marked) == rank then tasks else []
  {
    hide Alike, Rank;
    if tasks != [] {
      KindOfKind(tasks[1..], u, records, marked, rank);
      RankMeans(tasks[0], u, records, marked);
    }
  }

  /** The reordering is stable: tasks of one kind keep their order. */
  lemma PrioritisedStable(tasks: seq<Task>, u: Task, records: Records, marked: set<Key>)
    ensures KindOf(Prioritised(tasks, records, marked), u, records, marked) == KindOf(tasks, u, records, marked)
  {
    hide Rank, OfRank, KindOf;
    var a, b := OfRank(tasks, records, marked, 0), OfRank(tasks, records, marked, 1);
    var c := OfRank(tasks, records, marked, 2);
    OfRankOnly(tasks, records, marked, 0);
    OfRankOnly(tasks, records, marked, 1);
    OfRankOnly(tasks, records, marked, 2);
    KindAppend(a + b, c, u, records, marked);
    KindAppend(a, b, u, records, marked);
    KindOfKind(a, u, records, marked, 0);
    KindOfKind(b, u, records, marked, 1);
    KindOfKind(c, u, records, marked, 2);
    RankBelowThree(u, records, marked);
    KindIsRank(tasks, u, records, marked);
  }

  lemma OrderedIsLiveFirst(tasks: seq<Task>, records: Records, marked: set<Key>)
    requires Ordered(tasks, records, marked)
    ensures LiveFirst(tasks, records, marked)
  {
    hide Live, Rank;
    forall i, j | 0 <= i < j < |tasks|
      ensures Live(tasks[j], records) ==> Live(tasks[i], records)
      ensures tasks[j].key in marked ==> Live(tasks[i], records) || tasks[i].key in marked
    {
      RankMeans(tasks[i], tasks[j], records, marked);
    }
  }

  /** The reordering loses and repeats no task, keeps the order of tasks of one kind, and puts live work first, then the
      controls. */
  lemma PrioritisedKeepsTasks(tasks: seq<Task>, records: Records, marked: set<Key>)
    ensures multiset(Prioritised(tasks, records, marked)) == multiset(tasks)
    ensures Ordered(Prioritised(tasks, records, marked), records, marked)
    ensures LiveFirst(Prioritised(tasks, records, marked), records, marked)
    ensures forall u :: KindOf(Prioritised(tasks, records, marked), u, records, marked)
                        == KindOf(tasks, u, records, marked)
  {
    hide Rank, OfRank, LiveFirst, KindOf;
    RanksCover(tasks, records, marked);
    var a, b := OfRank(tasks, records, marked, 0), OfRank(tasks, records, marked, 1);
    var c := OfRank(tasks, records, marked, 2);
    OfRankOnly(tasks, records, marked, 0);
    OfRankOnly(tasks, records, marked, 1);
    OfRankOnly(tasks, records, marked, 2);
    var r := a + b + c;
    forall i | 0 <= i < |r|
      ensures Rank(r[i], records, marked) == if i < |a| then 0 else if i < |a| + |b| then 1 else 2
    {
      if i < |a| {
        assert r[i] == a[i] && a[i] in a;
      } else if i < |a| + |b| {
        assert r[i] == b[i - |a|] && b[i - |a|] in b;
      } else {
        assert r[i] == c[i - |a| - |b|] && c[i - |a| - |b|] in c;
      }
    }
    OrderedIsLiveFirst(r, records, marked);
    forall u
      ensures KindOf(r, u, records, marked) == KindOf(tasks, u, records, marked)
    {
      PrioritisedStable(tasks, u, records, marked);
    }
  }

  method GraphOf(m: Manifest) returns (tasks: seq<Task>)
    requires ValidManifest(m)
    ensures tasks == TaskGraph(m, |m.dates|)
  {
    tasks := [];
    for i := 0 to |m.dates|
      invariant tasks == TaskGraph(m, i)
    {
      var date, order := m.dates[i], m.orders[i];
      var base, first, last := Key(date, BASELINE), Key(date, REPEAT_1), Key(date, REPEAT_2);
      ghost var before := tasks;
      assert [base, first] == Baselines(date);
      tasks := tasks + [Task(base, [], None, false), Task(first, [base], None, false)];
      ghost var withBaselines := tasks;
      var policyKeys: seq<Key> := [];
      for k := 0 to |order|
        invariant policyKeys == PolicyKeys(date, order)[..k]
        invariant tasks == withBaselines + PolicyTasks(date, order)[..k]
      {
        var key := Key(date, order[k]);
        assert PolicyTasks(date, order)[k] == Task(key, [base, first], None, false);
        tasks := tasks + [Task(key, [base, first], None, false)];
        policyKeys := policyKeys + [key];
      }
      assert policyKeys == PolicyKeys(date, order);
      assert PolicyTasks(date, order)[..|order|] == PolicyTasks(date, order);
      tasks := tasks + [Task(last, policyKeys, None, false),
                        Task(Key(date, BALANCED_REPEAT), [last, Key(date, BALANCED)], None, false)];
      assert tasks == before + DateTasks(date, order);
    }
  }

  method TasksOf(m: Manifest, bridge: Key, secondary: Option<Control>) returns (tasks: seq<Task>)
    requires ValidManifest(m)
    ensures tasks == Build(m, bridge, secondary)
  {
    hide TaskGraph, Baselines;
    tasks := GraphOf(m);
    if secondary.Some? {
      tasks := tasks + [SecondaryTask(secondary.value)];
    }
    ghost var plain := tasks;
    for i := 0 to |tasks|
      invariant |tasks| == |plain| && tasks[i..] == plain[i..] && tasks[..i] == Rewire(plain, bridge)[..i]
    {
      assert tasks[i] == tasks[i..][0] == plain[i];
      if tasks[i].key == bridge {
        tasks := tasks[i := tasks[i].(dependencies := Baselines(bridge.date))];
      }
    }
    assert tasks == Rewire(plain, bridge);
  }

  lemma PassUnfolds(cfg: Config, s: State, i: nat)
    ensures Pass(cfg, s, i)
            == if i >= |cfg.tasks| || |s.active| >= cfg.parallelism then s
               else Pass(cfg, Consider(cfg, s, cfg.tasks[i]), i + 1)
  {
    hide Consider;
  }

  lemma ConsiderUnfolds(cfg: Config, s: State, task: Task)
    ensures var choice := ChooseBackend(cfg, task, s.records, s.assignments);
            Consider(cfg, s, task)
            == if task.key in s.active || Done(s.records, task.key) || !Ready(task, s.records) || choice == None then s
               else s.(active := s.active[task.key := Working(false)],
                       assignments := s.assignments[task.key := choice.value], started := s.started + [task.key])
  {
    hide ChooseBackend, Done, Ready;
  }

  class Runner {
    const cfg: Config
    var records: Records
    var active: map<Key, Worker>
    var assignments: map<Key, string>
    var queue: seq<Event>
    var failed: bool
    ghost var pc: PC
    ghost var started: seq<Key>

    ghost function Contents(): State
      reads this
    {
      State(records, active, assignments, queue, failed, pc, started)
    }

    constructor (m: Manifest, backends: seq<Backend>, parallelism: nat, bridge: Key, secondary: Option<Control>,
                 records: Records)
      requires ValidManifest(m)
      ensures Contents() == Begin(records)
      ensures cfg.backends == backends && cfg.parallelism == parallelism
      ensures multiset(cfg.tasks) == multiset(Build(m, bridge, secondary))
      ensures var marked := {bridge} + if secondary.Some? then {secondary.value.key} else {};
              && Ordered(cfg.tasks, records, marked) && LiveFirst(cfg.tasks, records, marked)
              && forall u :: KindOf(cfg.tasks, u, records, marked)
                             == KindOf(Build(m, bridge, secondary), u, records, marked)
      ensures Inv(cfg, records, Contents())
    {
      hide Build, Prioritised, Ordered, Inv, LiveFirst, KindOf;
      var tasks := TasksOf(m, bridge, secondary);
      var marked := {bridge} + if secondary.Some? then {secondary.value.key} else {};
      cfg := Config(Prioritised(tasks, records, marked), backends, parallelism);
      this.records, active, assignments, queue, failed := records, map[], map[], [], false;
      pc, started := Draining, [];
      PrioritisedKeepsTasks(tasks, records, marked);
      new;
      BeginInv(cfg, records);
    }

    /** Takes over every event posted so far. */
    method Drain()
      modifies this`queue, this`records
      ensures Contents() == DrainAll(old(Contents()))
      ensures queue == [] && Drained(old(Contents()), records)
    {
      DrainExactly(Contents());
      while queue != []
        invariant DrainAll(Contents()) == DrainAll(old(Contents()))
        decreases |queue|
      {
        var event := queue[0];
        queue := queue[1..];
        if event.record.Some? {
          records := records[event.key := event.record.value];
        }
      }
    }

    method CountOn(context: string) returns (n: nat)
      ensures n == Used(assignments, context)
    {
      var counted := set key | key in assignments && assignments[key] == context;
      n := |counted|;
    }

    method Choose(task: Task) returns (choice: Option<string>)
      ensures choice == ChooseBackend(cfg, task, records, assignments)
    {
      hide Used;
      var preferred := task.context;
      if task.key in records && records[task.key].status == Running {
        preferred := records[task.key].context;
        if preferred == None && cfg.backends != [] {
          preferred := Some(cfg.backends[0].context);
        }
      }
      for i := 0 to |cfg.backends|
        invariant FirstFit(cfg.backends[i..], preferred, assignments) == ChooseBackend(cfg, task, records, assignments)
      {
        var backend := cfg.backends[i];
        assert cfg.backends[i..][0] == backend && cfg.backends[i..][1..] == cfg.backends[i + 1..];
        if preferred == None || preferred.value == backend.context {
          var used := CountOn(backend.context);
          if used < backend.slots {
            return Some(backend.context);
          }
        }
      }
      choice := None;
    }

    /** One pass over the tasks, starting what can be started. */
    method StartReady()
      modifies this`active, this`assignments, this`started
      ensures Contents() == if old(failed) then old(Contents()) else Pass(cfg, old(Contents()), 0)
    {
      hide ChooseBackend, Used, Ready, Done, Pass, Consider;
      if failed {
        return;
      }
      var i := 0;
      while i < |cfg.tasks|
        invariant 0 <= i <= |cfg.tasks| && failed == old(failed) && records == old(records)
        invariant Pass(cfg, Contents(), i) == Pass(cfg, old(Contents()), 0)
      {
        PassUnfolds(cfg, Contents(), i);
        if |active| >= cfg.parallelism {
          break;
        }
        var task := cfg.tasks[i];
        ConsiderUnfolds(cfg, Contents(), task);
        if task.key !in active && !Done(records, task.key) && Ready(task, records) {
          var context := Choose(task);
          if context.Some? {
            assignments := assignments[task.key := context.value];
            active := active[task.key := Working(false)];
            started := started + [task.key];
          }
        }
        i := i + 1;
      }
      PassUnfolds(cfg, Contents(), i);
    }

    /** Collects one finished worker, after taking over everything it posted. */
    method Collect(key: Key)
      requires key in active && active[key].Finished?
      modifies this
      ensures Contents() == Harvest(DrainAll(old(Contents())), key)
      ensures active == old(active) - {key} && assignments == old(assignments) - {key} && queue == []
      ensures match old(active[key]).outcome
              case Returned(record) =>
                RecordOf(records, key) == Some(record) && failed == old(failed)
              case Raised =>
                var before := RecordOf(DrainAll(old(Contents())).records, key);
                failed && RecordOf(records, key)
                          == Some(Record(Status.Failed, if before.Some? then before.value.context else None))
      ensures forall k :: k != key ==> RecordOf(records, k) == RecordOf(DrainAll(old(Contents())).records, k)
    {
      Drain();
      match active[key].outcome {
        case Returned(record) => records := records[key := record];
        case Raised =>
          records := records[key := Record(Status.Failed, if key in records then records[key].context else None)];
          failed := true;
      }
      active := active - {key};
      assignments := assignments - {key};
    }
  }
}
