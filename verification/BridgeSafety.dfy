/** What every bridge event keeps: no job goes out twice, replies are obeyed in full or not at all, and after a failure
    nothing stays behind. */
module BridgeSafety {
  import opened Basics
  import opened Bridge

  // ---------- submitting marks exactly the listed jobs ----------

  lemma {:induction false} SubmitExactly(st: State, indices: seq<nat>)
    requires forall k :: 0 <= k < |indices| ==> indices[k] < |st.jobs|
    ensures var r := Submit(st, indices);
            && r == st.(jobs := r.jobs, submits := r.submits)
            && (forall i :: 0 <= i < |st.jobs| ==>
                  r.jobs[i] == if i in indices then st.jobs[i].(submitted := true) else st.jobs[i])
            && |r.submits| == |st.submits| + |indices| && st.submits <= r.submits
            && (forall k :: 0 <= k < |indices| ==> r.submits[|st.submits| + k] == st.jobs[indices[k]].id)
  {
    if indices != [] {
      var n := |indices| - 1;
      SubmitExactly(st, indices[..n]);
      assert indices == indices[..n] + [indices[n]];
      assert forall i :: i in indices <==> i in indices[..n] || i == indices[n];
    }
  }

  /** How often each id is among the submitted jobs. */
  ghost function SubmittedIds(jobs: seq<V2Job>): multiset<int> {
    if jobs == [] then multiset{}
    else
      var last := jobs[|jobs| - 1];
      SubmittedIds(jobs[..|jobs| - 1]) + if last.submitted then multiset{last.id} else multiset{}
  }

  /** The jobs handed to the scheduler are exactly those marked as submitted, each once. */
  ghost predicate TraceExact(st: State) {
    multiset(st.submits) == SubmittedIds(st.jobs)
  }

  lemma {:induction false} SubmittedSame(a: seq<V2Job>, b: seq<V2Job>)
    requires |a| == |b| && forall i :: 0 <= i < |a| ==> a[i].submitted == b[i].submitted && a[i].id == b[i].id
    ensures SubmittedIds(a) == SubmittedIds(b)
  {
    if a != [] {
      SubmittedSame(a[..|a| - 1], b[..|b| - 1]);
    }
  }

  lemma {:induction false} SubmittedOneMore(jobs: seq<V2Job>, i: nat)
    requires i < |jobs| && !jobs[i].submitted
    ensures SubmittedIds(jobs[i := jobs[i].(submitted := true)]) == SubmittedIds(jobs) + multiset{jobs[i].id}
  {
    var n := |jobs| - 1;
    var next := jobs[i := jobs[i].(submitted := true)];
    if i == n {
      assert next[..n] == jobs[..n];
    } else {
      assert next[..n] == jobs[..n][i := jobs[i].(submitted := true)];
      SubmittedOneMore(jobs[..n], i);
    }
  }

  lemma {:induction false} SubmitKeepsTrace(st: State, indices: seq<nat>)
    requires TraceExact(st)
    requires forall k :: 0 <= k < |indices| ==> indices[k] < |st.jobs| && !st.jobs[indices[k]].submitted
    requires forall i, j :: 0 <= i < j < |indices| ==> indices[i] != indices[j]
    ensures TraceExact(Submit(st, indices))
  {
    if indices != [] {
      var n := |indices| - 1;
      SubmitKeepsTrace(st, indices[..n]);
      SubmitExactly(st, indices[..n]);
      var before := Submit(st, indices[..n]);
      assert indices[n] !in indices[..n];
      SubmittedOneMore(before.jobs, indices[n]);
    }
  }

  lemma {:induction false} UnsubmittedDistinct(jobs: seq<V2Job>)
    ensures var r := Unsubmitted(jobs); forall i, j :: 0 <= i < j < |r| ==> r[i] < r[j]
    ensures |Unsubmitted(jobs)| == Pending(jobs)
    ensures forall i :: 0 <= i < |jobs| && !jobs[i].submitted ==> i in Unsubmitted(jobs)
  {
    if jobs != [] {
      var rest := Unsubmitted(jobs[..|jobs| - 1]);
      UnsubmittedDistinct(jobs[..|jobs| - 1]);
    }
  }

  lemma FallbackKeepsTrace(st: State)
    requires TraceExact(st)
    ensures TraceExact(Fallback(st))
  {
    UnsubmittedDistinct(st.jobs);
    SubmitKeepsTrace(st, Unsubmitted(st.jobs));
  }

  lemma SameJobsSameTrace(st: State, next: State)
    requires TraceExact(st) && next.submits == st.submits && |next.jobs| == |st.jobs|
    requires forall i :: 0 <= i < |st.jobs| ==>
               next.jobs[i].submitted == st.jobs[i].submitted && next.jobs[i].id == st.jobs[i].id
    ensures TraceExact(next)
  {
    SubmittedSame(st.jobs, next.jobs);
  }

  // ---------- every event ----------

  datatype Event = Arrival(id: int, when: int)
                 | Ticking(now: int, observed: seq<int>, later: int, reply: Reply)

  predicate Possible(st: State, e: Event) {
    e.Ticking? ==> |e.observed| == |st.jobs|
  }

  function Next(st: State, e: Event, epoch: int): State
    requires Possible(st, e)
  {
    match e
    case Arrival(id, when) => Arrive(st, id, when)
    case Ticking(now, observed, later, reply) => Tick(st, now, observed, later, reply, epoch)
  }

  lemma ObserveKeeps(st: State, observed: seq<int>)
    requires |observed| == |st.jobs| && TraceExact(st)
    ensures TraceExact(st.(jobs := Observe(st.jobs, observed)))
    ensures TraceExact(st.(jobs := Reported(Observe(st.jobs, observed))))
  {
    SameJobsSameTrace(st, st.(jobs := Observe(st.jobs, observed)));
    SameJobsSameTrace(st, st.(jobs := Reported(Observe(st.jobs, observed))));
  }

  lemma ObeyKeepsTrace(st: State, numbers: seq<int>, epoch: int)
    requires TraceExact(st.(jobs := Reported(st.jobs))) && WellFormed(st.jobs, numbers)
    ensures TraceExact(Obey(st, numbers, epoch))
  {
    hide Reported;
    var ids := ReleaseIds(numbers);
    PlacesExactly(st.jobs, ids);
    ReportedKeeps(st.jobs);
    var st1 := st.(jobs := Reported(st.jobs), wake := numbers[0] + epoch);
    assert TraceExact(st1);
    SubmitKeepsTrace(st1, Places(st.jobs, ids));
  }

  lemma ReportedKeeps(jobs: seq<V2Job>)
    ensures forall i :: 0 <= i < |jobs| ==> Reported(jobs)[i] == jobs[i].(reported := true)
  {
  }

  lemma RejectKeepsTrace(st: State, reply: Reply)
    requires TraceExact(st.(jobs := Reported(st.jobs))) && TraceExact(st)
    ensures TraceExact(Reject(st, reply))
  {
    hide WellFormed, Reported, Fallback;
    FallbackKeepsTrace(Fail(st));
    FallbackKeepsTrace(Fail(st.(jobs := Reported(st.jobs))));
  }

  lemma ArriveKeepsTrace(st: State, id: int, when: int)
    requires TraceExact(st)
    ensures TraceExact(Arrive(st, id, when))
  {
    var next := Arrive(st, id, when);
    if |st.jobs| < MAX_JOBS {
      assert next.jobs[..|st.jobs|] == st.jobs;
    }
  }

  /** No event hands a job over twice, or without marking it. */
  lemma NextKeepsTrace(st: State, e: Event, epoch: int)
    requires TraceExact(st) && Possible(st, e)
    ensures TraceExact(Next(st, e, epoch))
  {
    hide TraceExact, Obey, Reject, Observe, Reported, Fallback, Accepted, Quiet, Arrive;
    match e
    case Arrival(id, when) => ArriveKeepsTrace(st, id, when);
    case Ticking(now, observed, later, reply) =>
      ObserveKeeps(st, observed);
      var st1 := st.(jobs := Observe(st.jobs, observed));
      FallbackKeepsTrace(st1);
      if Accepted(st1.jobs, reply, later, epoch) {
        AcceptedWellFormed(st1.jobs, reply, later, epoch);
        ObeyKeepsTrace(st1, reply.numbers, epoch);
      }
      RejectKeepsTrace(st1, reply);
  }

  lemma AcceptedWellFormed(jobs: seq<V2Job>, reply: Reply, later: int, epoch: int)
    requires Accepted(jobs, reply, later, epoch)
    ensures reply.Line? && WellFormed(jobs, reply.numbers)
  {
  }

  ghost function Run(st: State, es: seq<Event>, epoch: int): Option<State>
    decreases |es|
  {
    if es == [] then Some(st)
    else if !Possible(st, es[0]) then None
    else Run(Next(st, es[0], epoch), es[1..], epoch)
  }

  /** Over any run, the ids handed to the scheduler are exactly the submitted jobs, each as often as it arrived. */
  lemma {:induction false} SubmittedOnce(st: State, es: seq<Event>, epoch: int)
    requires TraceExact(st) && Run(st, es, epoch).Some?
    ensures TraceExact(Run(st, es, epoch).value)
    decreases |es|
  {
    hide TraceExact, Next;
    if es != [] {
      NextKeepsTrace(st, es[0], epoch);
      SubmittedOnce(Next(st, es[0], epoch), es[1..], epoch);
    }
  }

  // ---------- all or nothing ----------

  /** The ids of the jobs still waiting, in arrival order. */
  function WaitingIds(jobs: seq<V2Job>): seq<int> {
    if jobs == [] then []
    else WaitingIds(jobs[..|jobs| - 1]) + if jobs[|jobs| - 1].submitted then [] else [jobs[|jobs| - 1].id]
  }

  lemma {:induction false} WaitingAreUnsubmitted(jobs: seq<V2Job>)
    ensures |WaitingIds(jobs)| == |Unsubmitted(jobs)|
    ensures forall k :: 0 <= k < |Unsubmitted(jobs)| ==>
              WaitingIds(jobs)[k] == jobs[Unsubmitted(jobs)[k]].id
  {
    if jobs != [] {
      WaitingAreUnsubmitted(jobs[..|jobs| - 1]);
    }
  }

  lemma FallbackExactly(st: State)
    ensures var r := Fallback(st);
            && r.submits == st.submits + WaitingIds(st.jobs)
            && r.wake == INT64_MAX && r.failed == st.failed && r.direct == st.direct
            && |r.jobs| == |st.jobs|
            && (forall i :: 0 <= i < |r.jobs| ==> r.jobs[i] == st.jobs[i].(submitted := true))
  {
    hide Submit, Unsubmitted, WaitingIds;
    var r := Submit(st, Unsubmitted(st.jobs));
    SubmitExactly(st, Unsubmitted(st.jobs));
    UnsubmittedDistinct(st.jobs);
    WaitingAreUnsubmitted(st.jobs);
    assert r.submits == st.submits + WaitingIds(st.jobs);
  }

  lemma {:induction false} WaitingSame(a: seq<V2Job>, b: seq<V2Job>)
    requires |a| == |b| && forall i :: 0 <= i < |a| ==> a[i].submitted == b[i].submitted && a[i].id == b[i].id
    ensures WaitingIds(a) == WaitingIds(b)
  {
    if a != [] {
      WaitingSame(a[..|a| - 1], b[..|b| - 1]);
    }
  }

  lemma ObserveFacts(jobs: seq<V2Job>, observed: seq<int>)
    requires |observed| == |jobs|
    ensures var r := Observe(jobs, observed);
            && (forall i :: 0 <= i < |jobs| ==>
                  && r[i] == jobs[i].(state := r[i].state)
                  && r[i].state == if jobs[i].submitted then observed[i] else jobs[i].state)
            && WaitingIds(r) == WaitingIds(jobs) && WaitingIds(Reported(r)) == WaitingIds(jobs)
            && Pending(r) == Pending(jobs)
  {
    var r := Observe(jobs, observed);
    WaitingSame(r, jobs);
    WaitingSame(Reported(r), jobs);
    PendingSame(r, jobs);
  }

  lemma ObeyExactly(st: State, numbers: seq<int>, epoch: int)
    requires WellFormed(st.jobs, numbers)
    ensures var r := Obey(st, numbers, epoch);
            var ids := ReleaseIds(numbers);
            && r == State(r.jobs, numbers[0] + epoch, st.failed, st.submits + ids, st.direct)
            && |r.jobs| == |st.jobs|
            && (forall i :: 0 <= i < |st.jobs| ==>
                  r.jobs[i] == st.jobs[i].(reported := true, submitted := r.jobs[i].submitted))
            && (forall i :: 0 <= i < |st.jobs| ==>
                  (r.jobs[i].submitted <==> st.jobs[i].submitted || i in Places(st.jobs, ids)))
  {
    hide Reported;
    var ids := ReleaseIds(numbers);
    PlacesExactly(st.jobs, ids);
    ReportedKeeps(st.jobs);
    var st1 := st.(jobs := Reported(st.jobs), wake := numbers[0] + epoch);
    SubmitExactly(st1, Places(st.jobs, ids));
    assert Submit(st1, Places(st.jobs, ids)).submits == st.submits + ids;
  }

  /** Every tick that reaches the exchange submits either exactly the ids of a reply that passed every check, or every
      job still waiting; the second case switches to failsafe for good, and a passed reply does not. */
  lemma AllOrNothing(st: State, now: int, observed: seq<int>, later: int, reply: Reply, epoch: int)
    requires |observed| == |st.jobs| && st.jobs != [] && !Quiet(st, now, observed)
    ensures var r := Tick(st, now, observed, later, reply, epoch);
            if !st.failed && Accepted(st.jobs, reply, later, epoch) then
              && r.submits == st.submits + ReleaseIds(reply.numbers)
              && !r.failed && r.wake == reply.numbers[0] + epoch
              && (forall i :: 0 <= i < |r.jobs| ==> r.jobs[i].reported)
            else
              && r.submits == st.submits + WaitingIds(st.jobs)
              && r.failed && r.wake == INT64_MAX
              && (forall i :: 0 <= i < |r.jobs| ==> r.jobs[i].submitted)
  {
    hide Quiet, Observe, Reported, Obey, Fallback, WaitingIds, Pending;
    var st1 := st.(jobs := Observe(st.jobs, observed));
    ObserveFacts(st.jobs, observed);
    SameReading(st.jobs, st1.jobs, reply, later, epoch);
    FallbackExactly(st1);
    FallbackExactly(Fail(st1));
    FallbackExactly(Fail(st1.(jobs := Reported(st1.jobs))));
    if Accepted(st1.jobs, reply, later, epoch) {
      ObeyExactly(st1, reply.numbers, epoch);
    }
  }

  lemma {:induction false} LastPendingSame(a: seq<V2Job>, b: seq<V2Job>, id: int)
    requires |a| == |b| && forall i :: 0 <= i < |a| ==> a[i].submitted == b[i].submitted && a[i].id == b[i].id
    ensures LastPending(a, id) == LastPending(b, id)
  {
    if a != [] {
      LastPendingSame(a[..|a| - 1], b[..|b| - 1], id);
    }
  }

  lemma SameReading(a: seq<V2Job>, b: seq<V2Job>, reply: Reply, later: int, epoch: int)
    requires |a| == |b| && forall i :: 0 <= i < |a| ==> a[i].submitted == b[i].submitted && a[i].id == b[i].id
    ensures Accepted(a, reply, later, epoch) == Accepted(b, reply, later, epoch)
  {
    hide Pending, LastPending, DistinctIds;
    PendingSame(a, b);
    forall id: int
      ensures LastPending(a, id) == LastPending(b, id)
    {
      LastPendingSame(a, b, id);
    }
    if reply.Line? && |reply.numbers| >= 2 && 0 <= reply.numbers[1] <= |reply.numbers| - 2 {
      assert AllPending(a, ReleaseIds(reply.numbers)) <==> AllPending(b, ReleaseIds(reply.numbers));
    }
  }

  // ---------- after a failure ----------

  predicate SomethingNew(jobs: seq<V2Job>) {
    exists i :: 0 <= i < |jobs| && !jobs[i].submitted && !jobs[i].reported
  }

  lemma {:induction false} PendingZero(jobs: seq<V2Job>)
    ensures Pending(jobs) == 0 <==> forall i :: 0 <= i < |jobs| ==> jobs[i].submitted
  {
    if jobs != [] {
      PendingZero(jobs[..|jobs| - 1]);
      assert forall i :: 0 <= i < |jobs| - 1 ==> jobs[..|jobs| - 1][i] == jobs[i];
    }
  }

  /** Once the bridge has failed it stays failed; the next tick submits every job that arrived since, and the first
      tick at or after the wake time submits every job still held back. */
  lemma FailsafeDrains(st: State, now: int, observed: seq<int>, later: int, reply: Reply, epoch: int)
    requires |observed| == |st.jobs| && st.failed
    ensures var r := Tick(st, now, observed, later, reply, epoch);
            && r.failed
            && (SomethingNew(st.jobs) || now >= st.wake ==> forall i :: 0 <= i < |r.jobs| ==> r.jobs[i].submitted)
  {
    hide Tick, Fallback, Submit;
    PendingZero(st.jobs);
    QuietFacts(st, now, observed, later, reply, epoch);
    if st.jobs != [] && !Quiet(st, now, observed) {
      AllOrNothing(st, now, observed, later, reply, epoch);
    }
  }

  lemma QuietFacts(st: State, now: int, observed: seq<int>, later: int, reply: Reply, epoch: int)
    requires |observed| == |st.jobs|
    ensures SomethingNew(st.jobs) ==> !Quiet(st, now, observed)
    ensures now >= st.wake && Pending(st.jobs) > 0 ==> !Quiet(st, now, observed)
    ensures st.jobs == [] || Quiet(st, now, observed) ==> Tick(st, now, observed, later, reply, epoch) == st
  {
    if SomethingNew(st.jobs) {
      var i :| 0 <= i < |st.jobs| && !st.jobs[i].submitted && !st.jobs[i].reported;
      assert News(st.jobs[i], observed[i]);
    }
  }

  /** An arrival is either held back as something new or, when the table is full, passed straight on. */
  lemma ArrivalNoticed(st: State, id: int, when: int)
    ensures var r := Arrive(st, id, when);
            if |st.jobs| < MAX_JOBS then SomethingNew(r.jobs) && r.failed == st.failed && r.wake == 0
            else r.failed && r.direct == st.direct + [id] && r.jobs == st.jobs
  {
    var r := Arrive(st, id, when);
    if |st.jobs| < MAX_JOBS {
      var k := |st.jobs|;
      assert !r.jobs[k].submitted && !r.jobs[k].reported;
    }
  }
}
