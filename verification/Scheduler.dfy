/** The parallel replay scheduler of `run_multiday_parallel.py`: one loop that owns the records, workers that post
    events into a queue, and every interleaving of the two. */
module Scheduler {
  import opened Basics

  datatype Key = Key(date: string, name: string)

  datatype Task = Task(key: Key, dependencies: seq<Key>, context: Option<string>, diagnostic: bool)

  datatype Status = Running | Complete | Failed

  datatype Record = Record(status: Status, context: Option<string>)

  type Records = map<Key, Record>

  datatype Backend = Backend(context: string, slots: nat)

  datatype Config = Config(tasks: seq<Task>, backends: seq<Backend>, parallelism: nat)

  // ---------- what the loop computes ----------

  predicate Done(records: Records, key: Key) {
    key in records && records[key].status == Complete
  }

  predicate Ready(task: Task, records: Records) {
    forall key :: key in task.dependencies ==> Done(records, key)
  }

  /** How many active replays run on a backend. */
  function Used(assignments: map<Key, string>, context: string): nat {
    |set key | key in assignments && assignments[key] == context|
  }

  /** The backend a task must run on, if any: where it was left running, or where it is pinned. */
  function Preferred(task: Task, record: Option<Record>, backends: seq<Backend>): Option<string> {
    if record.Some? && record.value.status == Running then
      if record.value.context.Some? then record.value.context
      else if backends != [] then Some(backends[0].context)
      else None
    else task.context
  }

  predicate Fits(backend: Backend, preferred: Option<string>, assignments: map<Key, string>) {
    (preferred.Some? ==> preferred.value == backend.context) && Used(assignments, backend.context) < backend.slots
  }

  /** The first backend that fits. */
  function FirstFit(backends: seq<Backend>, preferred: Option<string>, assignments: map<Key, string>): Option<string> {
    if backends == [] then None
    else if Fits(backends[0], preferred, assignments) then Some(backends[0].context)
    else FirstFit(backends[1..], preferred, assignments)
  }

  function RecordOf(records: Records, key: Key): Option<Record> {
    if key in records then Some(records[key]) else None
  }

  function ChooseBackend(cfg: Config, task: Task, records: Records, assignments: map<Key, string>): Option<string> {
    FirstFit(cfg.backends, Preferred(task, RecordOf(records, task.key), cfg.backends), assignments)
  }

  // ---------- state ----------

  datatype Outcome = Returned(record: Record) | Raised

  /** A worker still running (`claimed`: it has posted a complete record) or finished. */
  datatype Worker = Working(claimed: bool) | Finished(outcome: Outcome)

  datatype Event = Event(key: Key, record: Option<Record>)

  /** Where the loop is; `left` are active keys still to be looked at, `next` the task to be considered next. */
  datatype PC =
    | Draining
    | Scanning(left: seq<Key>)
    | Harvesting(key: Key, left: seq<Key>)
    | Guarding
    | Scheduling(next: nat)
    | Closing
    | Exited

  /** `started` lists the keys this run has started, in order. */
  datatype State = State(
    records: Records, active: map<Key, Worker>, assignments: map<Key, string>, queue: seq<Event>,
    failed: bool, pc: PC, started: seq<Key>)

  function Begin(records: Records): State {
    State(records, map[], map[], [], false, Draining, [])
  }

  /** Taking one event off the queue. */
  function DrainOne(s: State): State
    requires s.queue != []
  {
    var e := s.queue[0];
    s.(queue := s.queue[1..], records := if e.record.Some? then s.records[e.key := e.record.value] else s.records)
  }

  /** Collecting a finished worker's result. */
  function Harvest(s: State, key: Key): State
    requires key in s.active && s.active[key].Finished?
  {
    var outcome := s.active[key].outcome;
    var record := if outcome.Returned? then outcome.record
                  else Record(Status.Failed, if key in s.records then s.records[key].context else None);
    s.(records := s.records[key := record], failed := s.failed || outcome.Raised?,
       active := s.active - {key}, assignments := s.assignments - {key})
  }

  /** Considering one task: started if it is neither active nor complete, is ready, and finds a backend. */
  function Consider(cfg: Config, s: State, task: Task): State {
    var key := task.key;
    if key in s.active || Done(s.records, key) || !Ready(task, s.records) then s
    else
      match ChooseBackend(cfg, task, s.records, s.assignments)
      case None => s
      case Some(context) =>
        s.(active := s.active[key := Working(false)], assignments := s.assignments[key := context],
           started := s.started + [key])
  }

  // ---------- steps ----------

  /** A worker may post events and finish at any time. A worker that has posted a complete record posts only complete
      records afterwards and returns; one that returns, returns a complete record. */
  ghost predicate WorkerStep(s: State, t: State) {
    exists key :: key in s.active && s.active[key].Working? && WorkerActs(s, t, key)
  }

  ghost predicate WorkerActs(s: State, t: State, key: Key)
    requires key in s.active && s.active[key].Working?
  {
    || (exists record: Option<Record> ::
          && (s.active[key].claimed ==> record.Some? && record.value.status == Complete)
          && t == s.(queue := s.queue + [Event(key, record)],
                     active := s.active[key := Working(s.active[key].claimed
                                                       || (record.Some? && record.value.status == Complete))]))
    || (exists outcome: Outcome ::
          && (outcome.Returned? ==> outcome.record.status == Complete)
          && (outcome.Raised? ==> !s.active[key].claimed)
          && t == s.(active := s.active[key := Finished(outcome)]))
  }

  ghost predicate Lists(left: seq<Key>, keys: set<Key>) {
    && (forall i, j :: 0 <= i < j < |left| ==> left[i] != left[j])
    && (forall key :: key in left <==> key in keys)
  }

  ghost predicate LoopStep(cfg: Config, s: State, t: State) {
    match s.pc
    case Draining =>
      if s.queue != [] then t == DrainOne(s)
      else exists left :: Lists(left, s.active.Keys) && t == s.(pc := Scanning(left))
    case Scanning(left) =>
      if left == [] then t == s.(pc := Guarding)
      else if left[0] in s.active && s.active[left[0]].Finished? then t == s.(pc := Harvesting(left[0], left[1..]))
      else t == s.(pc := Scanning(left[1..]))
    case Harvesting(key, left) =>
      if s.queue != [] then t == DrainOne(s)
      else key in s.active && s.active[key].Finished? && t == Harvest(s, key).(pc := Scanning(left))
    case Guarding =>
      // the carbon guards may condemn the run
      t == s.(pc := Scheduling(0)) || t == s.(failed := true, pc := Scheduling(0))
    case Scheduling(next) =>
      if s.failed || next >= |cfg.tasks| || |s.active| >= cfg.parallelism then t == s.(pc := Closing)
      else t == Consider(cfg, s, cfg.tasks[next]).(pc := Scheduling(next + 1))
    case Closing =>
      if s.queue != [] then t == DrainOne(s)
      else t == s.(pc := if s.active == map[] then Exited else Draining)
    case Exited => false
  }

  ghost predicate Next(cfg: Config, s: State, t: State) {
    WorkerStep(s, t) || LoopStep(cfg, s, t)
  }

  ghost predicate Trace(cfg: Config, records: Records, states: seq<State>) {
    && states != [] && states[0] == Begin(records)
    && forall i :: 0 < i < |states| ==> Next(cfg, states[i - 1], states[i])
  }
}
