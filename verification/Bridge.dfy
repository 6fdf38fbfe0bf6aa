/** The simulator-side bridge of `policy_v2/feedback_bridge.h` as a state machine: jobs it holds back, the
    controller's replies it checks, and the failsafe that submits everything. */
module Bridge {
  import opened Basics

  const MAX_JOBS: nat := 4096
  const INT64_MAX: int := 0x7fff_ffff_ffff_ffff

  /** `state` is the last observed scheduler state: -1 none, 1 pending, 2 running, 3 gone. */
  datatype V2Job = V2Job(id: int, arrived: int, submitted: bool, reported: bool, state: int)

  /** `submits` lists the ids handed to the scheduler by `v2_release`, `direct` those `v2_arrive` passed on. */
  datatype State = State(jobs: seq<V2Job>, wake: int, failed: bool, submits: seq<int>, direct: seq<int>)

  const START := State([], INT64_MAX, false, [], [])

  /** What an exchange with the controller yields: no process, no whole line, or the numbers the line starts with. */
  datatype Reply = NoController | NoLine | Line(numbers: seq<int>)

  // ---------- submitting ----------

  function Pending(jobs: seq<V2Job>): nat {
    if jobs == [] then 0
    else Pending(jobs[..|jobs| - 1]) + if jobs[|jobs| - 1].submitted then 0 else 1
  }

  function SubmitOne(st: State, i: nat): State
    requires i < |st.jobs|
  {
    st.(jobs := st.jobs[i := st.jobs[i].(submitted := true)], submits := st.submits + [st.jobs[i].id])
  }

  function Submit(st: State, indices: seq<nat>): (r: State)
    requires forall k :: 0 <= k < |indices| ==> indices[k] < |st.jobs|
    ensures |r.jobs| == |st.jobs|
  {
    if indices == [] then st
    else SubmitOne(Submit(st, indices[..|indices| - 1]), indices[|indices| - 1])
  }

  /** Places of the jobs not yet submitted, in order. */
  function Unsubmitted(jobs: seq<V2Job>): (r: seq<nat>)
    ensures forall k :: 0 <= k < |r| ==> r[k] < |jobs| && !jobs[r[k]].submitted
  {
    if jobs == [] then []
    else
      var rest := Unsubmitted(jobs[..|jobs| - 1]);
      if jobs[|jobs| - 1].submitted then rest else rest + [|jobs| - 1]
  }

  function Fail(st: State): State {
    st.(failed := true)
  }

  /** The `fallback` label: everything not yet submitted goes out, and no wake-up is needed any more. */
  function Fallback(st: State): State {
    Submit(st, Unsubmitted(st.jobs)).(wake := INT64_MAX)
  }

  // ---------- arrivals ----------

  function Arrive(st: State, id: int, when: int): State {
    if |st.jobs| >= MAX_JOBS then Fail(st).(direct := st.direct + [id])
    else st.(jobs := st.jobs + [V2Job(id, when, false, false, -1)], wake := 0)
  }

  // ---------- reading a reply ----------

  /** The last unsubmitted job with this id. */
  function LastPending(jobs: seq<V2Job>, id: int): Option<nat> {
    if jobs == [] then None
    else if jobs[|jobs| - 1].id == id && !jobs[|jobs| - 1].submitted then Some(|jobs| - 1)
    else LastPending(jobs[..|jobs| - 1], id)
  }

  function ReleaseIds(numbers: seq<int>): seq<int>
    requires |numbers| >= 2 && 0 <= numbers[1] <= |numbers| - 2
  {
    numbers[2..2 + numbers[1]]
  }

  predicate DistinctIds(ids: seq<int>) {
    forall i, j :: 0 <= i < j < |ids| ==> ids[i] != ids[j]
  }

  predicate AllPending(jobs: seq<V2Job>, ids: seq<int>) {
    forall id :: id in ids ==> LastPending(jobs, id).Some?
  }

  /** A reply the bridge can read: a wake time, a count no larger than the pending jobs, and as many different ids of
      pending jobs. */
  predicate WellFormed(jobs: seq<V2Job>, numbers: seq<int>) {
    && |numbers| >= 2 && 0 <= numbers[1] <= Pending(jobs) && numbers[1] <= |numbers| - 2
    && AllPending(jobs, ReleaseIds(numbers)) && DistinctIds(ReleaseIds(numbers))
  }

  function Places(jobs: seq<V2Job>, ids: seq<int>): (r: seq<nat>)
    requires AllPending(jobs, ids)
    ensures |r| == |ids|
  {
    seq(|ids|, k requires 0 <= k < |ids| => LastPending(jobs, ids[k]).value)
  }

  // ---------- a tick ----------

  function Observe(jobs: seq<V2Job>, observed: seq<int>): (r: seq<V2Job>)
    requires |observed| == |jobs|
    ensures |r| == |jobs|
  {
    seq(|jobs|, i requires 0 <= i < |jobs| =>
      if jobs[i].submitted then jobs[i].(state := observed[i]) else jobs[i])
  }

  predicate News(j: V2Job, seen: int) {
    if j.submitted then seen != j.state else !j.reported
  }

  predicate Dirty(jobs: seq<V2Job>, observed: seq<int>)
    requires |observed| == |jobs|
  {
    exists i :: 0 <= i < |jobs| && News(jobs[i], observed[i])
  }

  function Reported(jobs: seq<V2Job>): (r: seq<V2Job>)
    ensures |r| == |jobs|
  {
    seq(|jobs|, i requires 0 <= i < |jobs| => jobs[i].(reported := true))
  }

  /** A tick with nothing new, and nothing pending or no wake-up due, ends before the exchange. */
  predicate Quiet(st: State, now: int, observed: seq<int>)
    requires |observed| == |st.jobs|
  {
    !Dirty(st.jobs, observed) && (Pending(st.jobs) == 0 || now < st.wake)
  }

  /** A readable reply whose wake time is in the future, unless nothing stays pending. */
  predicate Accepted(jobs: seq<V2Job>, reply: Reply, later: int, epoch: int) {
    && reply.Line? && WellFormed(jobs, reply.numbers)
    && (reply.numbers[0] + epoch > later || reply.numbers[1] == Pending(jobs))
  }

  lemma {:induction false} LastPendingExactly(jobs: seq<V2Job>, id: int)
    ensures match LastPending(jobs, id)
            case Some(i) =>
              && i < |jobs| && jobs[i].id == id && !jobs[i].submitted
              && (forall k :: i < k < |jobs| ==> jobs[k].id != id || jobs[k].submitted)
            case None => forall k :: 0 <= k < |jobs| ==> jobs[k].id != id || jobs[k].submitted
  {
    if jobs != [] {
      LastPendingExactly(jobs[..|jobs| - 1], id);
    }
  }

  lemma PlacesExactly(jobs: seq<V2Job>, ids: seq<int>)
    requires AllPending(jobs, ids) && DistinctIds(ids)
    ensures var r := Places(jobs, ids);
            && (forall k :: 0 <= k < |r| ==> r[k] < |jobs| && jobs[r[k]].id == ids[k] && !jobs[r[k]].submitted)
            && (forall i, j :: 0 <= i < j < |r| ==> r[i] != r[j])
  {
    forall k | 0 <= k < |ids|
      ensures Places(jobs, ids)[k] < |jobs| && jobs[Places(jobs, ids)[k]].id == ids[k]
      ensures !jobs[Places(jobs, ids)[k]].submitted
    {
      LastPendingExactly(jobs, ids[k]);
    }
  }

  lemma {:induction false} PendingSame(a: seq<V2Job>, b: seq<V2Job>)
    requires |a| == |b| && forall i :: 0 <= i < |a| ==> a[i].submitted == b[i].submitted
    ensures Pending(a) == Pending(b)
  {
    if a != [] {
      PendingSame(a[..|a| - 1], b[..|b| - 1]);
    }
  }

  /** What the accepted reply does: everything counts as reported, the wake is set, the named jobs go out. */
  function Obey(st: State, numbers: seq<int>, epoch: int): State
    requires WellFormed(st.jobs, numbers)
  {
    PlacesExactly(st.jobs, ReleaseIds(numbers));
    Submit(st.(jobs := Reported(st.jobs), wake := numbers[0] + epoch), Places(st.jobs, ReleaseIds(numbers)))
  }

  /** The failing path after a readable reply with a past wake has already marked the jobs as reported. */
  function Reject(st: State, reply: Reply): State {
    if reply.Line? && WellFormed(st.jobs, reply.numbers)
    then Fallback(Fail(st.(jobs := Reported(st.jobs))))
    else Fallback(Fail(st))
  }

  /** One `v2_tick`: `now` decides whether to ask, `later` is the clock read just before asking. */
  function Tick(st: State, now: int, observed: seq<int>, later: int, reply: Reply, epoch: int): State
    requires |observed| == |st.jobs|
  {
    if st.jobs == [] then st
    else if Quiet(st, now, observed) then st
    else
      var st1 := st.(jobs := Observe(st.jobs, observed));
      if st.failed then Fallback(st1)
      else if Accepted(st1.jobs, reply, later, epoch) then Obey(st1, reply.numbers, epoch)
      else Reject(st1, reply)
  }
}
