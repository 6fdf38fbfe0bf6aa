/** One tick of the bridge in full: when it asks, which replies it accepts, and the state it leaves. */
module BridgeTicks {
  import opened Basics
  import opened Bridge
  import opened BridgeSafety

  // ---------- when the bridge asks ----------

  /** Something has changed, or a job waits and the wake time has come. */
  ghost predicate Asks(st: State, now: int, observed: seq<int>)
    requires |observed| == |st.jobs|
  {
    || (exists i :: 0 <= i < |st.jobs| && st.jobs[i].submitted && observed[i] != st.jobs[i].state)
    || (exists i :: 0 <= i < |st.jobs| && !st.jobs[i].submitted && !st.jobs[i].reported)
    || (now >= st.wake && exists i :: 0 <= i < |st.jobs| && !st.jobs[i].submitted)
  }

  lemma AsksExactly(st: State, now: int, observed: seq<int>)
    requires |observed| == |st.jobs|
    ensures Asks(st, now, observed) <==> st.jobs != [] && !Quiet(st, now, observed)
  {
    hide Pending;
    PendingZero(st.jobs);
    if i :| 0 <= i < |st.jobs| && st.jobs[i].submitted && observed[i] != st.jobs[i].state {
      assert News(st.jobs[i], observed[i]);
    }
    if i :| 0 <= i < |st.jobs| && !st.jobs[i].submitted && !st.jobs[i].reported {
      assert News(st.jobs[i], observed[i]);
    }
  }

  // ---------- which replies pass ----------

  /** The places of the jobs not yet submitted. */
  ghost function WaitingPlaces(jobs: seq<V2Job>): set<int> {
    set i | 0 <= i < |jobs| && !jobs[i].submitted
  }

  lemma {:induction false} PendingCounts(jobs: seq<V2Job>)
    ensures Pending(jobs) == |WaitingPlaces(jobs)|
  {
    if jobs == [] {
      assert WaitingPlaces(jobs) == {};
    } else {
      var n := |jobs| - 1;
      PendingCounts(jobs[..n]);
      var before := WaitingPlaces(jobs[..n]);
      if jobs[n].submitted {
        assert WaitingPlaces(jobs) == before;
      } else {
        assert WaitingPlaces(jobs) == before + {n};
      }
    }
  }

  ghost predicate Waits(jobs: seq<V2Job>, id: int) {
    exists i :: 0 <= i < |jobs| && jobs[i].id == id && !jobs[i].submitted
  }

  /** The line holds a wake time, a count, and as many ids of waiting jobs, each once, no more than jobs wait. */
  ghost predicate Readable(jobs: seq<V2Job>, numbers: seq<int>) {
    && 2 <= |numbers| && 0 <= numbers[1] <= |WaitingPlaces(jobs)| && 2 + numbers[1] <= |numbers|
    && (forall k :: 2 <= k < 2 + numbers[1] ==> Waits(jobs, numbers[k]))
    && (forall j, k :: 2 <= j < k < 2 + numbers[1] ==> numbers[j] != numbers[k])
  }

  /** A readable line, whose wake time is ahead unless it names every waiting job. */
  ghost predicate Passes(jobs: seq<V2Job>, reply: Reply, later: int, epoch: int) {
    && reply.Line? && Readable(jobs, reply.numbers)
    && (reply.numbers[0] + epoch <= later ==> reply.numbers[1] == |WaitingPlaces(jobs)|)
  }

  lemma ReadableExactly(jobs: seq<V2Job>, numbers: seq<int>)
    ensures Readable(jobs, numbers) <==> WellFormed(jobs, numbers)
  {
    hide Pending, LastPending, WaitingPlaces;
    PendingCounts(jobs);
    if 2 <= |numbers| && 0 <= numbers[1] && 2 + numbers[1] <= |numbers| {
      var ids := numbers[2..2 + numbers[1]];
      assert forall k :: 0 <= k < |ids| ==> ids[k] == numbers[k + 2];
      assert forall k :: 2 <= k < 2 + numbers[1] ==> numbers[k] == ids[k - 2] && ids[k - 2] in ids;
      forall id: int
        ensures LastPending(jobs, id).Some? <==> Waits(jobs, id)
      {
        LastPendingExactly(jobs, id);
      }
    }
  }

  lemma PassesExactly(jobs: seq<V2Job>, reply: Reply, later: int, epoch: int)
    ensures Passes(jobs, reply, later, epoch) <==> Accepted(jobs, reply, later, epoch)
  {
    hide Readable, WellFormed, Pending, WaitingPlaces;
    PendingCounts(jobs);
    if reply.Line? {
      ReadableExactly(jobs, reply.numbers);
      if Readable(jobs, reply.numbers) {
        ReadableLength(jobs, reply.numbers);
      }
    }
  }

  lemma ReadableLength(jobs: seq<V2Job>, numbers: seq<int>)
    requires Readable(jobs, numbers)
    ensures |numbers| >= 2
  {
  }

  // ---------- what a tick does ----------

  /** The jobs keep their ids and arrival times; submitted ones show the state observed. */
  ghost predicate Observed(jobs: seq<V2Job>, observed: seq<int>, next: seq<V2Job>)
    requires |observed| == |jobs|
  {
    && |next| == |jobs|
    && forall i :: 0 <= i < |jobs| ==>
         && next[i].id == jobs[i].id && next[i].arrived == jobs[i].arrived
         && next[i].state == (if jobs[i].submitted then observed[i] else jobs[i].state)
  }

  /** The last waiting job with one of the ids named. */
  ghost predicate Named(jobs: seq<V2Job>, numbers: seq<int>, i: nat)
    requires i < |jobs| && Readable(jobs, numbers)
  {
    && !jobs[i].submitted && (exists k :: 2 <= k < 2 + numbers[1] && numbers[k] == jobs[i].id)
    && forall j :: i < j < |jobs| ==> jobs[j].id != jobs[i].id || jobs[j].submitted
  }

  /** A reply that passes: everything is reported, the named jobs go out, and the wake time is set. */
  ghost predicate Obeyed(st: State, numbers: seq<int>, epoch: int, r: State)
    requires |r.jobs| == |st.jobs| && Readable(st.jobs, numbers)
  {
    && r.failed == st.failed && r.direct == st.direct && r.wake == numbers[0] + epoch
    && r.submits == st.submits + numbers[2..2 + numbers[1]]
    && forall i :: 0 <= i < |st.jobs| ==>
         r.jobs[i].reported && (r.jobs[i].submitted <==> st.jobs[i].submitted || Named(st.jobs, numbers, i))
  }

  /** Any other outcome: every waiting job goes out in order, no wake-up is set, and the failure stays. */
  ghost predicate GaveUp(st: State, r: State)
    requires |r.jobs| == |st.jobs|
  {
    && r.failed && r.direct == st.direct && r.wake == INT64_MAX && r.submits == st.submits + WaitingIds(st.jobs)
    && forall i :: 0 <= i < |st.jobs| ==> r.jobs[i].submitted && (st.jobs[i].reported ==> r.jobs[i].reported)
  }

  /** A tick changes nothing unless the bridge asks; then it obeys a reply that passes and gives up on any other. */
  ghost predicate Ticked(st: State, now: int, observed: seq<int>, later: int, reply: Reply, epoch: int, r: State)
    requires |observed| == |st.jobs|
  {
    if !Asks(st, now, observed) then r == st
    else
      && Observed(st.jobs, observed, r.jobs)
      && if !st.failed && Passes(st.jobs, reply, later, epoch) then Obeyed(st, reply.numbers, epoch, r)
         else GaveUp(st, r)
  }

  lemma TickExactly(st: State, now: int, observed: seq<int>, later: int, reply: Reply, epoch: int)
    requires |observed| == |st.jobs|
    ensures Ticked(st, now, observed, later, reply, epoch, Tick(st, now, observed, later, reply, epoch))
  {
    hide Asks, Passes, Accepted, Quiet, Observe, Obey, Fallback, WaitingIds, Pending, Reported, Obeyed, WellFormed,
         Readable;
    AsksExactly(st, now, observed);
    PassesExactly(st.jobs, reply, later, epoch);
    if Asks(st, now, observed) {
      var st1 := st.(jobs := Observe(st.jobs, observed));
      ObserveFacts(st.jobs, observed);
      SameReading(st.jobs, st1.jobs, reply, later, epoch);
      ReportedKeeps(st1.jobs);
      FallbackExactly(st1);
      FallbackExactly(Fail(st1));
      FallbackExactly(Fail(st1.(jobs := Reported(st1.jobs))));
      if !st.failed && Accepted(st1.jobs, reply, later, epoch) {
        AcceptedReads(st1.jobs, reply, later, epoch);
        AcceptedReads(st.jobs, reply, later, epoch);
        ObeyExactly(st1, reply.numbers, epoch);
        ObeyedExactly(st, st1, reply.numbers, epoch, Obey(st1, reply.numbers, epoch));
      }
    }
  }

  lemma AcceptedReads(jobs: seq<V2Job>, reply: Reply, later: int, epoch: int)
    requires Accepted(jobs, reply, later, epoch)
    ensures reply.Line? && WellFormed(jobs, reply.numbers) && Readable(jobs, reply.numbers)
  {
    hide WellFormed, Pending, Readable;
    ReadableExactly(jobs, reply.numbers);
  }

  lemma ObeyedExactly(st: State, st1: State, numbers: seq<int>, epoch: int, r: State)
    requires Readable(st.jobs, numbers) && WellFormed(st1.jobs, numbers)
    requires st1 == st.(jobs := st1.jobs) && |st1.jobs| == |st.jobs| == |r.jobs|
    requires forall i :: 0 <= i < |st.jobs| ==>
               st1.jobs[i].submitted == st.jobs[i].submitted && st1.jobs[i].id == st.jobs[i].id
    requires var ids := ReleaseIds(numbers);
             && r == State(r.jobs, numbers[0] + epoch, st1.failed, st1.submits + ids, st1.direct)
             && (forall i :: 0 <= i < |st.jobs| ==>
                   r.jobs[i].reported
                   && (r.jobs[i].submitted <==> st1.jobs[i].submitted || i in Places(st1.jobs, ids)))
    ensures Obeyed(st, numbers, epoch, r)
  {
    hide Pending, LastPending, WaitingPlaces, Readable, Named;
    forall i: nat | i < |st.jobs|
      ensures i in Places(st1.jobs, ReleaseIds(numbers)) <==> Named(st.jobs, numbers, i)
    {
      NamedExactly(st.jobs, st1.jobs, numbers, i);
    }
  }

  lemma NamedExactly(jobs: seq<V2Job>, seen: seq<V2Job>, numbers: seq<int>, i: nat)
    requires |seen| == |jobs| && i < |jobs| && Readable(jobs, numbers) && WellFormed(seen, numbers)
    requires forall j :: 0 <= j < |jobs| ==> seen[j].submitted == jobs[j].submitted && seen[j].id == jobs[j].id
    ensures i in Places(seen, ReleaseIds(numbers)) <==> Named(jobs, numbers, i)
  {
    hide Pending, LastPending, WaitingPlaces, DistinctIds;
    var ids := ReleaseIds(numbers);
    var places := Places(seen, ids);
    assert forall k :: 0 <= k < |ids| ==> ids[k] == numbers[k + 2];
    if i in places {
      var k :| 0 <= k < |places| && places[k] == i;
      LastPendingExactly(seen, ids[k]);
      assert numbers[k + 2] == jobs[i].id;
    }
    if Named(jobs, numbers, i) {
      var k :| 2 <= k < 2 + numbers[1] && numbers[k] == jobs[i].id;
      LastPendingExactly(seen, ids[k - 2]);
      assert ids[k - 2] in ids && places[k - 2] == i;
    }
  }
}
