/** Why a record changes and where a replay starts: the reasons of single steps, step by step. */
module SchedulerRecords {
  import opened Basics
  import opened Scheduler

  // ---------- why a record changes ----------

  /** The step took a record posted for the key off the head of the queue. */
  ghost predicate TookOver(s: State, t: State, key: Key) {
    && s.queue != [] && t.queue == s.queue[1..]
    && s.queue[0].key == key && s.queue[0].record.Some?
    && key in t.records && t.records[key] == s.queue[0].record.value
  }

  /** The step collected the key's finished worker: what it returned is the record; one that raised leaves a failed
      record with the context it had, and condemns the run. */
  ghost predicate Collected(s: State, t: State, key: Key) {
    && s.queue == [] && key in s.active && s.active[key].Finished? && key !in t.active && key in t.records
    && match s.active[key].outcome
       case Returned(record) => t.records[key] == record && t.failed == s.failed
       case Raised =>
         && t.records[key].status == Status.Failed && t.failed
         && t.records[key].context == (if key in s.records then s.records[key].context else None)
  }

  /** Every change of the key's record has its reason, no posted record is lost, and no worker is forgotten. */
  ghost predicate Accounted(s: State, t: State, key: Key) {
    && (RecordOf(t.records, key) == RecordOf(s.records, key) || TookOver(s, t, key) || Collected(s, t, key))
    && (|t.queue| < |s.queue| && s.queue[0].key == key && s.queue[0].record.Some? ==> TookOver(s, t, key))
    && (key in s.active && key !in t.active ==> Collected(s, t, key))
  }

  /** The step made the key complete: it took over a complete record posted for it, or collected a worker of it that
      returned one. */
  ghost predicate BecameComplete(s: State, t: State, key: Key) {
    || (TookOver(s, t, key) && s.queue[0].record.value.status == Complete)
    || (Collected(s, t, key) && s.active[key].outcome.Returned? && s.active[key].outcome.record.status == Complete)
  }

  lemma StepAccounted(cfg: Config, s: State, t: State, key: Key)
    requires Next(cfg, s, t)
    ensures Accounted(s, t, key)
    ensures !Done(s.records, key) && Done(t.records, key) ==> BecameComplete(s, t, key)
  {
    hide Accounted, BecameComplete, Done, Consider, Lists, WorkerActs, DrainOne, Harvest;
    if WorkerStep(s, t) {
      var k :| k in s.active && s.active[k].Working? && WorkerActs(s, t, k);
      WorkerLeavesRecords(s, t, k);
      SameRecordsAccounted(s, t, key);
    } else if s.queue != [] && (s.pc.Draining? || s.pc.Harvesting? || s.pc.Closing?) {
      DrainAccounted(s, key);
    } else if s.pc.Harvesting? {
      HarvestAccounted(s, s.pc.key, s.pc.left, key);
    } else {
      ConsiderLeavesRecords(cfg, s);
      SameRecordsAccounted(s, t, key);
    }
  }

  lemma SameRecordsAccounted(s: State, t: State, key: Key)
    requires t.records == s.records && s.queue <= t.queue && s.active.Keys <= t.active.Keys
    ensures Accounted(s, t, key) && (Done(t.records, key) <==> Done(s.records, key))
  {
  }

  lemma DrainAccounted(s: State, key: Key)
    requires s.queue != []
    ensures Accounted(s, DrainOne(s), key)
    ensures !Done(s.records, key) && Done(DrainOne(s).records, key) ==> BecameComplete(s, DrainOne(s), key)
  {
  }

  lemma HarvestAccounted(s: State, collected: Key, left: seq<Key>, key: Key)
    requires s.queue == [] && collected in s.active && s.active[collected].Finished?
    ensures var t := Harvest(s, collected).(pc := Scanning(left));
            Accounted(s, t, key) && (!Done(s.records, key) && Done(t.records, key) ==> BecameComplete(s, t, key))
  {
  }

  lemma WorkerLeavesRecords(s: State, t: State, key: Key)
    requires key in s.active && s.active[key].Working? && WorkerActs(s, t, key)
    ensures t.records == s.records && t.active.Keys == s.active.Keys && s.queue <= t.queue
  {
  }

  lemma ConsiderLeavesRecords(cfg: Config, s: State)
    ensures forall task :: var r := Consider(cfg, s, task);
              r.records == s.records && r.queue == s.queue && s.active.Keys <= r.active.Keys
  {
    hide Ready, Done, ChooseBackend;
  }

  /** Over a run: a key becomes complete only in a step that makes it so, and leaves only by being collected. */
  lemma {:induction false} ReasonInRun(
    cfg: Config, initial: Records, states: seq<State>, i: nat, j: nat, key: Key)
    requires Trace(cfg, initial, states) && i <= j < |states|
    ensures !Done(states[i].records, key) && Done(states[j].records, key) ==>
              exists k :: i < k <= j && BecameComplete(states[k - 1], states[k], key)
    ensures key in states[i].active && key !in states[j].active ==>
              exists k :: i < k <= j && Collected(states[k - 1], states[k], key)
    decreases j - i
  {
    hide Next, Done, BecameComplete, Collected, Accounted;
    if i < j {
      ReasonInRun(cfg, initial, states, i, j - 1, key);
      StepAccounted(cfg, states[j - 1], states[j], key);
      LeavesCollected(states[j - 1], states[j], key);
    }
  }

  lemma LeavesCollected(s: State, t: State, key: Key)
    requires Accounted(s, t, key)
    ensures key in s.active && key !in t.active ==> Collected(s, t, key)
  {
  }

  // ---------- where a replay starts ----------

  /** Backend b is where the task was left running, or where it is pinned, or anything when neither says. */
  ghost predicate Suits(cfg: Config, task: Task, records: Records, b: Backend) {
    if task.key in records && records[task.key].status == Running then
      match records[task.key].context
      case Some(context) => b.context == context
      case None => cfg.backends != [] && b.context == cfg.backends[0].context
    else
      task.context == None || task.context == Some(b.context)
  }

  /** Backend number i suits the task and has a free slot. */
  ghost predicate Takes(cfg: Config, s: State, task: Task, i: nat)
    requires i < |cfg.backends|
  {
    var b := cfg.backends[i];
    && Suits(cfg, task, s.records, b)
    && |set key | key in s.assignments && s.assignments[key] == b.context| < b.slots
  }

  lemma FitsIsTakes(cfg: Config, s: State, task: Task, i: nat)
    requires i < |cfg.backends|
    ensures Fits(cfg.backends[i], Preferred(task, RecordOf(s.records, task.key), cfg.backends), s.assignments) <==>
              Takes(cfg, s, task, i)
  {
  }

  lemma {:induction false} FirstFitAt(backends: seq<Backend>, preferred: Option<string>, assignments: map<Key, string>)
    ensures match FirstFit(backends, preferred, assignments)
            case Some(context) =>
              exists i :: 0 <= i < |backends| && backends[i].context == context
                          && Fits(backends[i], preferred, assignments)
                          && forall j :: 0 <= j < i ==> !Fits(backends[j], preferred, assignments)
            case None => forall i :: 0 <= i < |backends| ==> !Fits(backends[i], preferred, assignments)
  {
    hide Fits;
    if backends != [] && !Fits(backends[0], preferred, assignments) {
      var rest := backends[1..];
      FirstFitAt(rest, preferred, assignments);
      if FirstFit(rest, preferred, assignments).Some? {
        var context := FirstFit(rest, preferred, assignments).value;
        var i :| 0 <= i < |rest| && rest[i].context == context && Fits(rest[i], preferred, assignments)
                 && forall j :: 0 <= j < i ==> !Fits(rest[j], preferred, assignments);
        assert backends[i + 1] == rest[i];
        assert forall j :: 0 <= j < i + 1 ==> backends[j] == if j == 0 then backends[0] else rest[j - 1];
      }
    }
  }

  /** A task gets the first backend that suits it and has a free slot, and none only if there is none. */
  lemma BackendExactly(cfg: Config, s: State, task: Task)
    ensures match ChooseBackend(cfg, task, s.records, s.assignments)
            case Some(context) =>
              exists i :: 0 <= i < |cfg.backends| && cfg.backends[i].context == context && Takes(cfg, s, task, i)
                          && forall j :: 0 <= j < i ==> !Takes(cfg, s, task, j)
            case None => forall i :: 0 <= i < |cfg.backends| ==> !Takes(cfg, s, task, i)
  {
    hide Fits, Takes, Preferred;
    var preferred := Preferred(task, RecordOf(s.records, task.key), cfg.backends);
    FirstFitAt(cfg.backends, preferred, s.assignments);
    forall i: nat | i < |cfg.backends|
      ensures Fits(cfg.backends[i], preferred, s.assignments) <==> Takes(cfg, s, task, i)
    {
      FitsIsTakes(cfg, s, task, i);
    }
    if ChooseBackend(cfg, task, s.records, s.assignments).Some? {
      var context := ChooseBackend(cfg, task, s.records, s.assignments).value;
      var i :| 0 <= i < |cfg.backends| && cfg.backends[i].context == context
               && Fits(cfg.backends[i], preferred, s.assignments)
               && forall j :: 0 <= j < i ==> !Fits(cfg.backends[j], preferred, s.assignments);
      assert Takes(cfg, s, task, i);
    }
  }

  /** A task is started exactly when it is neither running nor complete, every task it waits for is complete, and some
      backend that suits it has a free slot. */
  lemma StartsExactly(cfg: Config, s: State, task: Task)
    ensures var t := Consider(cfg, s, task);
            && (t.started == s.started || t.started == s.started + [task.key])
            && (t.started == s.started ==> t == s)
            && (t.started == s.started + [task.key] <==>
                  && task.key !in s.active
                  && !(task.key in s.records && s.records[task.key].status == Complete)
                  && (forall d :: d in task.dependencies ==> d in s.records && s.records[d].status == Complete)
                  && exists i :: 0 <= i < |cfg.backends| && Takes(cfg, s, task, i))
  {
    hide ChooseBackend, Takes;
    BackendExactly(cfg, s, task);
    assert |s.started + [task.key]| == |s.started| + 1;
  }

  /** The backend of a key that a step starts. */
  lemma StartsWhere(cfg: Config, s: State, t: State, key: Key)
    requires Next(cfg, s, t) && key !in s.active && key in t.active
    ensures exists task, i :: task in cfg.tasks && task.key == key && 0 <= i < |cfg.backends|
              && t.assignments == s.assignments[key := cfg.backends[i].context] && Takes(cfg, s, task, i)
              && forall j :: 0 <= j < i ==> !Takes(cfg, s, task, j)
  {
    hide Ready, ChooseBackend, Done, Takes, WorkerActs, Lists;
    if WorkerStep(s, t) {
      var k :| k in s.active && s.active[k].Working? && WorkerActs(s, t, k);
      WorkerLeavesRecords(s, t, k);
      assert false;
    } else {
      var task := cfg.tasks[s.pc.next];
      BackendExactly(cfg, s, task);
      var i :| 0 <= i < |cfg.backends| && Takes(cfg, s, task, i) && t.assignments[key] == cfg.backends[i].context
               && forall j :: 0 <= j < i ==> !Takes(cfg, s, task, j);
    }
  }
}
