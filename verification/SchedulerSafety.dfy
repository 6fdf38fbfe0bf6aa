/** What every interleaving of loop and workers keeps. */
module SchedulerSafety {
  import opened Basics
  import opened Scheduler
  import opened SchedulerRecords

  // ---------- the invariant ----------

  predicate IsComplete(record: Option<Record>) {
    record.Some? && record.value.status == Complete
  }

  predicate Claimed(w: Worker) {
    if w.Working? then w.claimed else w.outcome.Returned?
  }

  /** A worker's word is final: after its first complete record only complete ones are in the queue, and it will not
      fail any more. */
  ghost predicate FinalWord(s: State) {
    && (forall i :: 0 <= i < |s.queue| ==> s.queue[i].key in s.active)
    && (forall i :: 0 <= i < |s.queue| && IsComplete(s.queue[i].record) ==> Claimed(s.active[s.queue[i].key]))
    && (forall i, j :: 0 <= i < j < |s.queue| && s.queue[i].key == s.queue[j].key && IsComplete(s.queue[i].record) ==>
          IsComplete(s.queue[j].record))
    && (forall key :: key in s.active && Done(s.records, key) ==> Claimed(s.active[key]))
    && (forall i :: 0 <= i < |s.queue| && Done(s.records, s.queue[i].key) ==> IsComplete(s.queue[i].record))
    && (forall key :: key in s.active && s.active[key].Finished? && s.active[key].outcome.Returned? ==>
          s.active[key].outcome.record.status == Complete)
  }

  /** Never more replays than allowed, in all and on each backend. */
  ghost predicate WithinLimits(cfg: Config, s: State) {
    && s.assignments.Keys == s.active.Keys
    && |s.active| <= cfg.parallelism
    && (forall key :: key in s.assignments ==> OnBackend(cfg, s.assignments, s.assignments[key]))
  }

  ghost predicate OnBackend(cfg: Config, assignments: map<Key, string>, context: string) {
    exists b :: b in cfg.backends && b.context == context && Used(assignments, context) <= b.slots
  }

  /** Every started key started with its dependencies complete, and they still are. */
  ghost predicate Justified(cfg: Config, s: State) {
    forall key :: key in s.started ==> exists task :: task in cfg.tasks && task.key == key && Ready(task, s.records)
  }

  predicate Once(keys: seq<Key>) {
    forall i, j :: 0 <= i < j < |keys| ==> keys[i] != keys[j]
  }

  /** Nothing is started twice; what was started is active, complete, or the run has failed. */
  ghost predicate StartedOnce(s: State, initial: Records) {
    && Once(s.started)
    && (forall key :: key in s.active ==> key in s.started)
    && (forall key :: key in s.started ==> key in s.active || Done(s.records, key) || s.failed)
    && (forall key :: key !in s.started ==> RecordOf(s.records, key) == RecordOf(initial, key))
  }

  /** The loop's own bookkeeping. */
  ghost predicate PlaceKept(s: State) {
    match s.pc
    case Scanning(left) => Once(left) && forall key :: key in left ==> key in s.active
    case Harvesting(key, left) =>
      && Once(left) && key !in left && key in s.active && s.active[key].Finished?
      && forall k :: k in left ==> k in s.active
    case _ => true
  }

  /** A task that could not start although nothing is running. */
  ghost predicate Settled(cfg: Config, s: State, task: Task) {
    Done(s.records, task.key) || !Ready(task, s.records) || ChooseBackend(cfg, task, s.records, s.assignments) == None
  }

  /** If nothing is running after a healthy pass over the tasks, none of them could start. */
  ghost predicate PassSettled(cfg: Config, s: State) {
    s.active == map[] && !s.failed && cfg.parallelism > 0 ==>
      match s.pc
      case Scheduling(next) => next <= |cfg.tasks| && forall i :: 0 <= i < next ==> Settled(cfg, s, cfg.tasks[i])
      case Closing => forall i :: 0 <= i < |cfg.tasks| ==> Settled(cfg, s, cfg.tasks[i])
      case Exited => forall i :: 0 <= i < |cfg.tasks| ==> Settled(cfg, s, cfg.tasks[i])
      case _ => true
  }

  ghost predicate Inv(cfg: Config, initial: Records, s: State) {
    && FinalWord(s) && WithinLimits(cfg, s) && Justified(cfg, s) && StartedOnce(s, initial) && PlaceKept(s)
    && PassSettled(cfg, s) && (s.pc == Exited ==> s.active == map[])
  }

  lemma BeginInv(cfg: Config, initial: Records)
    ensures Inv(cfg, initial, Begin(initial))
  {
  }

  // ---------- what no step undoes ----------

  /** Complete stays complete, a failure stays, and after a failure nothing starts. */
  ghost predicate Progress(s: State, t: State) {
    && (forall key :: Done(s.records, key) ==> Done(t.records, key))
    && (s.failed ==> t.failed && t.started == s.started)
    && s.started <= t.started
  }

  lemma ReadyStays(task: Task, a: Records, b: Records)
    requires Ready(task, a) && forall key :: Done(a, key) ==> Done(b, key)
    ensures Ready(task, b)
  {
  }

  lemma JustifiedStays(cfg: Config, s: State, t: State)
    requires Justified(cfg, s) && t.started == s.started && forall key :: Done(s.records, key) ==> Done(t.records, key)
    ensures Justified(cfg, t)
  {
    hide Ready, Done;
    forall key | key in t.started
      ensures exists task :: task in cfg.tasks && task.key == key && Ready(task, t.records)
    {
      var task :| task in cfg.tasks && task.key == key && Ready(task, s.records);
      ReadyStays(task, s.records, t.records);
    }
  }

  // ---------- workers ----------

  /** A worker changes its own entry and the queue, nothing else. */
  ghost predicate OnlyWorkers(s: State, t: State) {
    && t == s.(active := t.active, queue := t.queue) && t.active.Keys == s.active.Keys
    && forall key :: key in s.active && s.active[key].Finished? ==> t.active[key] == s.active[key]
  }

  lemma SameSize(a: map<Key, Worker>, b: map<Key, Worker>)
    requires a.Keys == b.Keys
    ensures |a| == |b| && (a == map[] <==> b == map[])
  {
    assert |a| == |a.Keys| && |b| == |b.Keys|;
    assert a == map[] <==> a.Keys == {};
    assert b == map[] <==> b.Keys == {};
  }

  lemma WorkerActsOnly(s: State, t: State, key: Key)
    requires key in s.active && s.active[key].Working? && WorkerActs(s, t, key)
    ensures OnlyWorkers(s, t)
  {
  }

  lemma SettledFrame(cfg: Config, s: State, t: State)
    requires PassSettled(cfg, s) && t.records == s.records && t.assignments == s.assignments
    requires t.pc == s.pc && t.failed == s.failed && (t.active == map[] <==> s.active == map[])
    ensures PassSettled(cfg, t)
  {
    hide Ready, ChooseBackend, Done;
    forall task | Settled(cfg, s, task)
      ensures Settled(cfg, t, task)
    {
    }
  }

  lemma OnlyWorkersKeeps(cfg: Config, initial: Records, s: State, t: State)
    requires OnlyWorkers(s, t) && WithinLimits(cfg, s) && StartedOnce(s, initial) && PlaceKept(s) && PassSettled(cfg, s)
    ensures WithinLimits(cfg, t) && StartedOnce(t, initial) && PlaceKept(t) && PassSettled(cfg, t)
  {
    hide Settled, OnBackend, Done;
    SameSize(s.active, t.active);
    SettledFrame(cfg, s, t);
  }

  lemma WorkerKeeps(cfg: Config, initial: Records, s: State, t: State, key: Key)
    requires Inv(cfg, initial, s) && key in s.active && s.active[key].Working? && WorkerActs(s, t, key)
    ensures Inv(cfg, initial, t) && Progress(s, t)
  {
    hide WithinLimits, StartedOnce, PlaceKept, PassSettled, Justified, FinalWord, WorkerActs;
    WorkerActsOnly(s, t, key);
    WorkerFinalWord(s, t, key);
    OnlyWorkersKeeps(cfg, initial, s, t);
    JustifiedStays(cfg, s, t);
    assert key in t.active && s.active != map[];
    SameSize(s.active, t.active);
  }

  lemma WorkerFinalWord(s: State, t: State, key: Key)
    requires FinalWord(s) && key in s.active && s.active[key].Working? && WorkerActs(s, t, key)
    ensures FinalWord(t)
  {
    if t.queue == s.queue {
      assert forall k :: k in s.active && Claimed(s.active[k]) ==> Claimed(t.active[k]);
    } else {
      var record := t.queue[|s.queue|].record;
      PostFinalWord(s, t, key, record);
    }
  }

  lemma PostFinalWord(s: State, t: State, key: Key, record: Option<Record>)
    requires FinalWord(s) && key in s.active && s.active[key].Working?
    requires s.active[key].claimed ==> IsComplete(record)
    requires t == s.(queue := s.queue + [Event(key, record)],
                     active := s.active[key := Working(s.active[key].claimed || IsComplete(record))])
    ensures FinalWord(t)
  {
    hide Done;
    assert forall k :: k in s.active && Claimed(s.active[k]) ==> Claimed(t.active[k]);
  }

  // ---------- the loop ----------

  lemma DrainKeeps(cfg: Config, initial: Records, s: State)
    requires Inv(cfg, initial, s) && s.queue != [] && s.pc != Exited
    ensures Inv(cfg, initial, DrainOne(s)) && Progress(s, DrainOne(s))
  {
    hide Justified, FinalWord, PassSettled, WithinLimits, StartedOnce, DrainOne;
    DrainFrame(s);
    DrainFinalWord(s);
    DrainRest(cfg, initial, s);
    JustifiedStays(cfg, s, DrainOne(s));
  }

  lemma DrainFrame(s: State)
    requires s.queue != []
    ensures DrainOne(s) == s.(queue := s.queue[1..], records := DrainOne(s).records)
  {
  }

  lemma DrainRest(cfg: Config, initial: Records, s: State)
    requires FinalWord(s) && WithinLimits(cfg, s) && StartedOnce(s, initial) && s.queue != []
    ensures WithinLimits(cfg, DrainOne(s)) && StartedOnce(DrainOne(s), initial) && PassSettled(cfg, DrainOne(s))
  {
    hide OnBackend, Settled;
    assert s.queue[0].key in s.active && s.active != map[];
    DrainFinalWord(s);
  }

  lemma DrainFinalWord(s: State)
    requires FinalWord(s) && s.queue != []
    ensures FinalWord(DrainOne(s)) && forall key :: Done(s.records, key) ==> Done(DrainOne(s).records, key)
  {
    var t, e := DrainOne(s), s.queue[0];
    assert forall i :: 0 <= i < |t.queue| ==> t.queue[i] == s.queue[i + 1];
    forall key | key in t.active && Done(t.records, key)
      ensures Claimed(t.active[key])
    {
      assert (key == e.key && e.record.Some?) || Done(s.records, key);
    }
    forall i | 0 <= i < |t.queue| && Done(t.records, t.queue[i].key)
      ensures IsComplete(t.queue[i].record)
    {
      assert (t.queue[i].key == e.key && e.record.Some?) || Done(s.records, t.queue[i].key);
    }
  }

  lemma UsedShrinks(assignments: map<Key, string>, key: Key, context: string)
    ensures Used(assignments - {key}, context) <= Used(assignments, context)
  {
    var a := set k | k in assignments && assignments[k] == context;
    var b := set k | k in assignments - {key} && (assignments - {key})[k] == context;
    assert b <= a;
    SubsetSmaller(b, a);
  }

  lemma HarvestLimits(cfg: Config, s: State, key: Key)
    requires WithinLimits(cfg, s) && key in s.active && s.active[key].Finished?
    ensures WithinLimits(cfg, Harvest(s, key))
  {
    hide Used;
    var t := Harvest(s, key);
    SubsetSmaller(t.active.Keys, s.active.Keys);
    assert |t.active| == |t.active.Keys| && |s.active| == |s.active.Keys|;
    forall k | k in t.assignments
      ensures OnBackend(cfg, t.assignments, t.assignments[k])
    {
      assert OnBackend(cfg, s.assignments, s.assignments[k]);
      UsedShrinks(s.assignments, key, s.assignments[k]);
      var b :| b in cfg.backends && b.context == s.assignments[k] && Used(s.assignments, b.context) <= b.slots;
    }
  }

  lemma HarvestKeeps(cfg: Config, initial: Records, s: State)
    requires Inv(cfg, initial, s) && s.pc.Harvesting? && s.queue == []
    ensures var t := Harvest(s, s.pc.key).(pc := Scanning(s.pc.left)); Inv(cfg, initial, t) && Progress(s, t)
  {
    hide Ready, Justified, WithinLimits, FinalWord, StartedOnce, Done;
    var key := s.pc.key;
    var t := Harvest(s, key).(pc := Scanning(s.pc.left));
    HarvestLimits(cfg, s, key);
    PlaceIgnored(cfg, initial, Harvest(s, key), t.pc);
    HarvestFinalWord(s, key);
    HarvestStarted(s, initial, key);
    JustifiedStays(cfg, s, t);
  }

  lemma HarvestFinalWord(s: State, key: Key)
    requires FinalWord(s) && key in s.active && s.active[key].Finished? && s.queue == []
    ensures FinalWord(Harvest(s, key)) && forall k :: Done(s.records, k) ==> Done(Harvest(s, key).records, k)
  {
  }

  lemma HarvestStarted(s: State, initial: Records, key: Key)
    requires FinalWord(s) && StartedOnce(s, initial) && key in s.active && s.active[key].Finished?
    ensures StartedOnce(Harvest(s, key), initial)
  {
  }

  /** Only the loop's own bookkeeping depends on where the loop is. */
  lemma PlaceIgnored(cfg: Config, initial: Records, s: State, pc: PC)
    ensures var t := s.(pc := pc);
            && (WithinLimits(cfg, s) ==> WithinLimits(cfg, t)) && (FinalWord(s) ==> FinalWord(t))
            && (StartedOnce(s, initial) ==> StartedOnce(t, initial)) && (Justified(cfg, s) ==> Justified(cfg, t))
  {
    hide OnBackend, Ready;
    if Justified(cfg, s) {
      JustifiedStays(cfg, s, s.(pc := pc));
    }
  }

  lemma {:induction false} FirstFitFits(
    backends: seq<Backend>, preferred: Option<string>, assignments: map<Key, string>)
    ensures match FirstFit(backends, preferred, assignments)
            case Some(context) => exists b :: b in backends && b.context == context && Fits(b, preferred, assignments)
            case None => forall b :: b in backends ==> !Fits(b, preferred, assignments)
  {
    hide Fits;
    if backends != [] && !Fits(backends[0], preferred, assignments) {
      FirstFitFits(backends[1..], preferred, assignments);
      assert forall b :: b in backends <==> b == backends[0] || b in backends[1..];
    }
  }

  lemma UsedGrows(assignments: map<Key, string>, key: Key, context: string, other: string)
    requires key !in assignments
    ensures Used(assignments[key := context], other) == Used(assignments, other) + if other == context then 1 else 0
  {
    var next := assignments[key := context];
    var a := set k | k in assignments && assignments[k] == other;
    var b := set k | k in next && next[k] == other;
    if other == context {
      assert b == a + {key};
    } else {
      assert b == a;
    }
  }

  /** One more replay on a backend with a free slot. */
  lemma BackendsKept(cfg: Config, assignments: map<Key, string>, key: Key, b: Backend)
    requires key !in assignments && b in cfg.backends && Used(assignments, b.context) < b.slots
    requires forall k :: k in assignments ==> OnBackend(cfg, assignments, assignments[k])
    ensures var next := assignments[key := b.context]; forall k :: k in next ==> OnBackend(cfg, next, next[k])
  {
    hide Used;
    var next := assignments[key := b.context];
    forall k | k in next
      ensures OnBackend(cfg, next, next[k])
    {
      UsedGrows(assignments, key, b.context, next[k]);
      if next[k] == b.context {
        assert Used(next, b.context) <= b.slots;
      } else {
        assert OnBackend(cfg, assignments, assignments[k]);
      }
    }
  }

  lemma ConsiderLimits(cfg: Config, s: State, task: Task)
    requires WithinLimits(cfg, s) && |s.active| < cfg.parallelism
    ensures WithinLimits(cfg, Consider(cfg, s, task))
  {
    hide Used, FirstFit, Ready, Done, OnBackend, Preferred, WithinLimits;
    var t, key := Consider(cfg, s, task), task.key;
    if t != s {
      var preferred := Preferred(task, RecordOf(s.records, key), cfg.backends);
      FirstFitFits(cfg.backends, preferred, s.assignments);
      var context := t.assignments[key];
      var b :| b in cfg.backends && b.context == context && Fits(b, preferred, s.assignments);
      StartLimits(cfg, s, key, b, t);
    }
  }

  lemma StartLimits(cfg: Config, s: State, key: Key, b: Backend, t: State)
    requires WithinLimits(cfg, s) && |s.active| < cfg.parallelism && key !in s.active
    requires b in cfg.backends && Used(s.assignments, b.context) < b.slots
    requires t.active == s.active[key := Working(false)] && t.assignments == s.assignments[key := b.context]
    ensures WithinLimits(cfg, t)
  {
    hide Used, OnBackend;
    assert t.active.Keys == s.active.Keys + {key};
    assert |t.active| == |t.active.Keys| && |s.active| == |s.active.Keys|;
    BackendsKept(cfg, s.assignments, key, b);
  }

  lemma ConsiderKeeps(cfg: Config, initial: Records, s: State)
    requires Inv(cfg, initial, s) && s.pc.Scheduling? && !s.failed
    requires s.pc.next < |cfg.tasks| && |s.active| < cfg.parallelism
    ensures var t := Consider(cfg, s, cfg.tasks[s.pc.next]).(pc := Scheduling(s.pc.next + 1));
            Inv(cfg, initial, t) && Progress(s, t)
  {
    hide Ready, ChooseBackend, WithinLimits, FinalWord, StartedOnce, Justified, Consider, Settled;
    var task := cfg.tasks[s.pc.next];
    var r := Consider(cfg, s, task);
    var t := r.(pc := Scheduling(s.pc.next + 1));
    ConsiderFrame(cfg, s, task);
    ConsiderLimits(cfg, s, task);
    PlaceIgnored(cfg, initial, r, t.pc);
    ConsiderFinalWord(cfg, s, task);
    ConsiderStarted(cfg, s, task, initial);
    ConsiderJustified(cfg, s, task);
    if t.active == map[] {
      ConsiderSettles(cfg, s, task);
    }
  }

  lemma ConsiderFrame(cfg: Config, s: State, task: Task)
    ensures var r := Consider(cfg, s, task);
            && r == s.(active := r.active, assignments := r.assignments, started := r.started)
            && s.started <= r.started && (r != s ==> r.active != map[])
  {
    hide Ready, ChooseBackend, Done;
    if Consider(cfg, s, task) != s {
      assert task.key in Consider(cfg, s, task).active;
    }
  }

  lemma ConsiderFinalWord(cfg: Config, s: State, task: Task)
    requires FinalWord(s)
    ensures FinalWord(Consider(cfg, s, task))
  {
    hide Ready, ChooseBackend;
  }

  lemma ConsiderStarted(cfg: Config, s: State, task: Task, initial: Records)
    requires StartedOnce(s, initial) && !s.failed
    ensures StartedOnce(Consider(cfg, s, task), initial)
  {
    hide Ready, ChooseBackend;
    var r := Consider(cfg, s, task);
    if r != s {
      assert r.started == s.started + [task.key];
      assert forall k :: k in r.started <==> k in s.started || k == task.key;
      assert task.key !in s.started;
    }
  }

  lemma ConsiderJustified(cfg: Config, s: State, task: Task)
    requires Justified(cfg, s) && task in cfg.tasks
    ensures Justified(cfg, Consider(cfg, s, task))
  {
    hide Ready, ChooseBackend, Done;
    var r := Consider(cfg, s, task);
    forall key | key in r.started
      ensures exists x :: x in cfg.tasks && x.key == key && Ready(x, r.records)
    {
      if key in s.started {
        var x :| x in cfg.tasks && x.key == key && Ready(x, s.records);
      } else {
        assert task.key == key && Ready(task, s.records);
      }
    }
  }

  lemma ConsiderSettles(cfg: Config, s: State, task: Task)
    requires Consider(cfg, s, task).active == map[]
    ensures Consider(cfg, s, task) == s && Settled(cfg, s, task)
    ensures forall x, pc :: Settled(cfg, s, x) <==> Settled(cfg, s.(pc := pc), x)
  {
    hide Ready, ChooseBackend, Done;
    ConsiderFrame(cfg, s, task);
  }

  /** Steps that only move on, or set the failure flag. */
  ghost predicate Moves(cfg: Config, s: State, t: State) {
    && t == s.(pc := t.pc, failed := t.failed) && (s.failed ==> t.failed)
    && match s.pc
       case Draining => t.pc.Scanning? && Lists(t.pc.left, s.active.Keys)
       case Scanning(left) =>
         || (left == [] && t.pc == Guarding)
         || (left != [] && left[0] in s.active && s.active[left[0]].Finished? && t.pc == Harvesting(left[0], left[1..]))
         || (left != [] && t.pc == Scanning(left[1..]))
       case Guarding => t.pc == Scheduling(0)
       case Scheduling(next) =>
         t.pc == Closing && (s.failed || next >= |cfg.tasks| || |s.active| >= cfg.parallelism)
       case Closing => t.pc == if s.active == map[] then Exited else Draining
       case _ => false
  }

  lemma LoopKeeps(cfg: Config, initial: Records, s: State, t: State)
    requires Inv(cfg, initial, s) && LoopStep(cfg, s, t)
    ensures Inv(cfg, initial, t) && Progress(s, t)
  {
    hide Ready, ChooseBackend, OnBackend, Justified, Consider, Harvest, DrainOne, Settled, FinalWord, WithinLimits,
         StartedOnce, PlaceKept, PassSettled, Lists, Moves;
    if s.queue != [] && (s.pc.Draining? || s.pc.Harvesting? || s.pc.Closing?) {
      DrainKeeps(cfg, initial, s);
    } else if s.pc.Harvesting? {
      HarvestKeeps(cfg, initial, s);
    } else if s.pc.Scheduling? && !s.failed && s.pc.next < |cfg.tasks| && |s.active| < cfg.parallelism {
      ConsiderKeeps(cfg, initial, s);
    } else {
      StepMoves(cfg, s, t);
      MoveKeeps(cfg, initial, s, t);
    }
  }

  lemma StepMoves(cfg: Config, s: State, t: State)
    requires LoopStep(cfg, s, t) && !s.pc.Harvesting?
    requires !(s.queue != [] && (s.pc.Draining? || s.pc.Closing?))
    requires !(s.pc.Scheduling? && !s.failed && s.pc.next < |cfg.tasks| && |s.active| < cfg.parallelism)
    ensures Moves(cfg, s, t)
  {
    hide Consider, Harvest, DrainOne, Lists;
  }

  lemma MoveKeeps(cfg: Config, initial: Records, s: State, t: State)
    requires Inv(cfg, initial, s) && Moves(cfg, s, t)
    ensures Inv(cfg, initial, t) && Progress(s, t)
  {
    hide Justified, WithinLimits, StartedOnce, FinalWord, PassSettled, PlaceKept;
    MovePieces(cfg, initial, s, t);
    MovePlace(cfg, s, t);
    MoveSettled(cfg, s, t);
    JustifiedStays(cfg, s, t);
  }

  lemma MovePieces(cfg: Config, initial: Records, s: State, t: State)
    requires FinalWord(s) && WithinLimits(cfg, s) && StartedOnce(s, initial)
    requires t == s.(pc := t.pc, failed := t.failed) && (s.failed ==> t.failed)
    ensures FinalWord(t) && WithinLimits(cfg, t) && StartedOnce(t, initial)
  {
    hide OnBackend, Done;
  }

  lemma MovePlace(cfg: Config, s: State, t: State)
    requires PlaceKept(s) && Moves(cfg, s, t)
    ensures PlaceKept(t)
  {
    if s.pc.Scanning? && s.pc.left != [] {
      assert s.pc.left == [s.pc.left[0]] + s.pc.left[1..];
    }
  }

  lemma MoveSettled(cfg: Config, s: State, t: State)
    requires PassSettled(cfg, s) && Moves(cfg, s, t)
    ensures PassSettled(cfg, t)
  {
    hide Ready, ChooseBackend, Done, Lists;
    forall task
      ensures Settled(cfg, s, task) == Settled(cfg, t, task)
    {
    }
  }

  /** No step of the loop or of a worker breaks the invariant, loses a complete record, forgets a failure, or starts
      anything after one; every record that changes has a reason. */
  lemma NextKeeps(cfg: Config, initial: Records, s: State, t: State)
    requires Inv(cfg, initial, s) && Next(cfg, s, t)
    ensures Inv(cfg, initial, t) && Progress(s, t)
    ensures forall key :: Accounted(s, t, key)
    ensures forall key :: Done(t.records, key) && !Done(s.records, key) ==> BecameComplete(s, t, key)
  {
    hide Inv, Progress, LoopStep, WorkerActs, Accounted, BecameComplete, Done;
    forall key
      ensures Accounted(s, t, key)
      ensures Done(t.records, key) && !Done(s.records, key) ==> BecameComplete(s, t, key)
    {
      StepAccounted(cfg, s, t, key);
    }
    if WorkerStep(s, t) {
      var key :| key in s.active && s.active[key].Working? && WorkerActs(s, t, key);
      WorkerKeeps(cfg, initial, s, t, key);
    } else {
      LoopKeeps(cfg, initial, s, t);
    }
  }

  // ---------- runs ----------

  lemma {:induction false} TraceKeeps(cfg: Config, initial: Records, states: seq<State>, i: nat)
    requires Trace(cfg, initial, states) && i < |states|
    ensures Inv(cfg, initial, states[i])
    decreases i
  {
    hide Inv, Next;
    if i == 0 {
      BeginInv(cfg, initial);
    } else {
      TraceKeeps(cfg, initial, states, i - 1);
      NextKeeps(cfg, initial, states[i - 1], states[i]);
    }
  }

  lemma {:induction false} TraceProgress(cfg: Config, initial: Records, states: seq<State>, i: nat, j: nat)
    requires Trace(cfg, initial, states) && i <= j < |states|
    ensures Progress(states[i], states[j])
    decreases j - i
  {
    hide Inv, Next;
    if i < j {
      TraceProgress(cfg, initial, states, i, j - 1);
      TraceKeeps(cfg, initial, states, j - 1);
      NextKeeps(cfg, initial, states[j - 1], states[j]);
    }
  }

  lemma ReadyMeans(task: Task, records: Records)
    ensures Ready(task, records) <==>
              forall d :: d in task.dependencies ==> d in records && records[d].status == Complete
  {
  }

  /** In every run: what is active or was started had all its dependencies complete, no key was started twice, the
      replays stay within the total and within each backend's slots; complete records stay complete, and nothing starts
      after a failure. A key becomes complete only because a complete record was posted for it or a worker of it
      returned one, and a worker leaves only by being collected: a raised one leaves a failed record and the failure. */
  lemma EveryRun(cfg: Config, initial: Records, states: seq<State>, i: nat, j: nat, key: Key)
    requires Trace(cfg, initial, states) && i <= j < |states|
    ensures var s, t := states[i], states[j];
            && (key in s.active ==> key in s.started)
            && (key in s.started ==> exists task :: task in cfg.tasks && task.key == key && Ready(task, s.records))
            && (forall task, d :: Ready(task, s.records) && d in task.dependencies ==>
                  d in s.records && s.records[d].status == Complete)
            && Once(s.started) && |s.active| <= cfg.parallelism
            && (key in s.assignments ==> OnBackend(cfg, s.assignments, s.assignments[key]))
            && s.assignments.Keys == s.active.Keys
            && (Done(s.records, key) ==> Done(t.records, key))
            && (s.failed ==> t.failed && t.started == s.started)
            && (!Done(s.records, key) && Done(t.records, key) ==>
                  exists k :: i < k <= j && BecameComplete(states[k - 1], states[k], key))
            && (key in s.active && key !in t.active ==>
                  exists k :: i < k <= j && Collected(states[k - 1], states[k], key))
  {
    hide OnBackend, Ready, Done, PlaceKept, PassSettled, FinalWord, Next, BecameComplete, Collected;
    TraceKeeps(cfg, initial, states, i);
    TraceProgress(cfg, initial, states, i, j);
    ReasonInRun(cfg, initial, states, i, j, key);
    forall task | Ready(task, states[i].records)
      ensures forall d :: d in task.dependencies ==>
                d in states[i].records && states[i].records[d].status == Complete
    {
      ReadyMeans(task, states[i].records);
    }
  }

  /** A key that starts does so on complete dependencies, without running or being complete already. */
  lemma StartsReady(cfg: Config, s: State, t: State, key: Key)
    requires Next(cfg, s, t) && key !in s.active && key in t.active
    ensures !Done(s.records, key) && !s.failed && |s.active| < cfg.parallelism
    ensures exists task :: task in cfg.tasks && task.key == key && Ready(task, s.records)
    ensures t.started == s.started + [key]
  {
    hide Ready, ChooseBackend, Done;
    if WorkerStep(s, t) {
      var k :| k in s.active && s.active[k].Working? && WorkerActs(s, t, k);
      WorkerActsOnly(s, t, k);
      assert false;
    }
  }
}
