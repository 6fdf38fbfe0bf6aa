/** The bridge as the simulator runs it: one fixed table of jobs changed in place. */
module SimulatorBridge {
  import opened Basics
  import opened Bridge
  import opened BridgeSafety
  import opened BridgeTicks

  class PolicyBridge {
    const enabled: bool
    const epoch: int
    const table: array<V2Job>
    var count: nat
    var wake: int
    var failed: bool
    var busy: bool
    var submits: seq<int>
    var direct: seq<int>

    ghost predicate Valid()
      reads this
    {
      table.Length == MAX_JOBS && count <= MAX_JOBS
    }

    ghost function Contents(): State
      requires Valid()
      reads this, table
    {
      State(table[..count], wake, failed, submits, direct)
    }

    constructor (enabled: bool, epoch: int)
      ensures Valid() && Contents() == START && !busy && fresh(table)
      ensures this.enabled == enabled && this.epoch == epoch
    {
      this.enabled, this.epoch := enabled, epoch;
      table := new V2Job[MAX_JOBS](_ => V2Job(0, 0, false, false, 0));
      count, wake, failed, busy, submits, direct := 0, INT64_MAX, false, false, [], [];
    }

    method CountPending() returns (n: nat)
      requires Valid()
      ensures n == Pending(table[..count])
    {
      n := 0;
      for i := 0 to count
        invariant n == Pending(table[..i])
      {
        assert table[..i + 1][..i] == table[..i];
        if !table[i].submitted {
          n := n + 1;
        }
      }
    }

    method Release(i: nat)
      requires Valid() && i < count
      modifies this`submits, table
      ensures Valid() && Contents() == SubmitOne(old(Contents()), i)
    {
      table[i] := table[i].(submitted := true);
      submits := submits + [table[i].id];
    }

    method Arrive(id: int, when: int)
      requires Valid()
      modifies this, table
      ensures Valid() && busy == old(busy)
      ensures Contents() == if enabled then Bridge.Arrive(old(Contents()), id, when)
                            else old(Contents()).(direct := old(direct) + [id])
    {
      if !enabled {
        direct := direct + [id];
        return;
      }
      if count >= MAX_JOBS {
        failed := true;
        direct := direct + [id];
        return;
      }
      table[count] := V2Job(id, when, false, false, -1);
      count := count + 1;
      wake := 0;
    }

    /** First loop of a tick: takes over the observed states and reports whether anything is new. */
    method Scan(observed: seq<int>) returns (dirty: bool)
      requires Valid() && |observed| == count
      modifies table
      ensures Valid() && table[..count] == Observe(old(table[..count]), observed)
      ensures dirty == Dirty(old(table[..count]), observed)
    {
      dirty := false;
      ghost var jobs := table[..count];
      for i := 0 to count
        invariant table[i..count] == jobs[i..]
        invariant table[..i] == Observe(jobs, observed)[..i]
        invariant dirty == exists k :: 0 <= k < i && News(jobs[k], observed[k])
      {
        assert table[i] == table[i..count][0] == jobs[i];
        if !table[i].submitted {
          if !table[i].reported {
            dirty := true;
          }
        } else {
          if observed[i] != table[i].state {
            dirty := true;
          }
          table[i] := table[i].(state := observed[i]);
        }
        assert News(jobs[i], observed[i]) ==> dirty;
      }
    }

    /** The place of the last unsubmitted job with this id. */
    method Find(id: int) returns (found: Option<nat>)
      requires Valid()
      ensures found == LastPending(table[..count], id)
    {
      found := None;
      for i := 0 to count
        invariant found == LastPending(table[..i], id)
      {
        assert table[..i + 1][..i] == table[..i];
        if table[i].id == id && !table[i].submitted {
          found := Some(i);
        }
      }
    }

    /** Reads a reply number by number and stops at the first one that does not fit. */
    method Read(numbers: seq<int>) returns (ok: bool, indices: seq<nat>)
      requires Valid()
      ensures ok <==> WellFormed(table[..count], numbers)
      ensures ok ==> indices == Places(table[..count], ReleaseIds(numbers))
    {
      ghost var jobs := table[..count];
      ok, indices := false, [];
      if |numbers| < 1 {
        return;
      }
      var pending := CountPending();
      if |numbers| < 2 || numbers[1] < 0 || numbers[1] > pending {
        return;
      }
      var ids := numbers[2..];
      var k := 0;
      while k < numbers[1]
        invariant 0 <= k <= numbers[1] && k <= |ids|
        invariant ReadSoFar(jobs, ids, k, indices)
      {
        if k >= |ids| {
          return;
        }
        var index := Find(ids[k]);
        var i := 0;
        while i < k
          invariant 0 <= i <= k
          invariant index.Some? ==>
                      index == LastPending(jobs, ids[k]) && forall m :: 0 <= m < i ==> indices[m] != index.value
          invariant index.None? ==> Misfit(jobs, ids, k)
        {
          ReadAt(jobs, ids, k, indices, i);
          if index.Some? && indices[i] == index.value {
            LastPendingExactly(jobs, ids[k]);
            index := None;
          }
          i := i + 1;
        }
        if index == None {
          MisfitRejects(jobs, numbers, k);
          return;
        }
        ReadGrows(jobs, ids, k, indices, index.value);
        indices := indices + [index.value];
        k := k + 1;
      }
      ReadComplete(jobs, numbers, indices);
      ok := true;
    }

    method MarkReported()
      requires Valid()
      modifies table
      ensures Valid() && table[..count] == Reported(old(table[..count]))
    {
      ghost var jobs := table[..count];
      for i := 0 to count
        invariant table[i..count] == jobs[i..]
        invariant table[..i] == Reported(jobs)[..i]
      {
        assert table[i] == table[i..count][0] == jobs[i];
        table[i] := table[i].(reported := true);
      }
    }

    method ReleaseAll()
      requires Valid()
      modifies this`submits, this`wake, table
      ensures Valid() && Contents() == Fallback(old(Contents()))
    {
      hide Submit, Unsubmitted;
      ghost var st := Contents();
      NothingUnsubmitted(st);
      for i := 0 to count
        invariant Contents() == Submit(st, Unsubmitted(st.jobs[..i]))
      {
        UnsubmittedStep(st, i);
        if !table[i].submitted {
          Release(i);
        }
      }
      assert st.jobs[..count] == st.jobs;
      wake := INT64_MAX;
    }

    method ReleaseListed(indices: seq<nat>)
      requires Valid() && forall k :: 0 <= k < |indices| ==> indices[k] < count
      modifies this`submits, table
      ensures Valid() && Contents() == Submit(old(Contents()), indices)
    {
      for k := 0 to |indices|
        invariant Contents() == Submit(old(Contents()), indices[..k])
      {
        assert indices[..k + 1][..k] == indices[..k];
        Release(indices[k]);
      }
      assert indices[..|indices|] == indices;
    }

    /** The exchange and what follows it, in a bridge that has not failed. */
    method Exchange(later: int, reply: Reply)
      requires Valid() && !failed
      modifies this`submits, this`wake, this`failed, table
      ensures Valid()
      ensures var st := old(Contents());
              Contents() == if Accepted(st.jobs, reply, later, epoch) then Obey(st, reply.numbers, epoch)
                            else Reject(st, reply)
    {
      hide Fallback, Submit, Reported, WellFormed, Pending;
      ghost var st := Contents();
      if !reply.Line? {
        failed := true;
        ReleaseAll();
        return;
      }
      var ok, indices := Read(reply.numbers);
      if !ok {
        failed := true;
        ReleaseAll();
        return;
      }
      WellFormedMeans(st.jobs, reply.numbers);
      MarkReported();
      ReportedPending(st.jobs);
      wake := reply.numbers[0] + epoch;
      var pending := CountPending();
      if wake <= later && reply.numbers[1] < pending {
        WakeForgotten(Fail(st.(jobs := Reported(st.jobs))), wake);
        failed := true;
        ReleaseAll();
        return;
      }
      PlacesExactly(st.jobs, ReleaseIds(reply.numbers));
      ReleaseListed(indices);
    }

    method Tick(now: int, observed: seq<int>, later: int, reply: Reply)
      requires Valid() && |observed| == count
      modifies this, table
      ensures Valid() && busy == old(busy)
      ensures Contents() == if enabled && !old(busy)
                            then Bridge.Tick(old(Contents()), now, observed, later, reply, epoch)
                            else old(Contents())
      ensures enabled && !old(busy) ==> Ticked(old(Contents()), now, observed, later, reply, epoch, Contents())
    {
      hide Fallback, Observe, Dirty, Pending, Accepted, Obey, Reject, Ticked;
      TickExactly(Contents(), now, observed, later, reply, epoch);
      if !enabled || count == 0 || busy {
        return;
      }
      busy := true;
      ghost var st := Contents();
      var dirty := Scan(observed);
      ObserveFacts(st.jobs, observed);
      var pending := CountPending();
      if !dirty && (pending == 0 || now < wake) {
        CleanObserve(st.jobs, observed);
      } else if failed {
        ReleaseAll();
      } else {
        Exchange(later, reply);
      }
      busy := false;
    }
  }

  // ---------- reading id by id ----------

  /** The first k ids fit, and `indices` are their places. */
  ghost predicate ReadSoFar(jobs: seq<V2Job>, ids: seq<int>, k: nat, indices: seq<nat>)
    requires k <= |ids|
  {
    && |indices| == k
    && (forall m :: 0 <= m < k ==> LastPending(jobs, ids[m]) == Some(indices[m]))
    && (forall m, n :: 0 <= m < n < k ==> ids[m] != ids[n])
  }

  /** The k-th id is no pending job, or repeats an earlier id. */
  ghost predicate Misfit(jobs: seq<V2Job>, ids: seq<int>, k: nat)
    requires k < |ids|
  {
    LastPending(jobs, ids[k]) == None || exists m :: 0 <= m < k && ids[m] == ids[k]
  }

  lemma ReadAt(jobs: seq<V2Job>, ids: seq<int>, k: nat, indices: seq<nat>, i: nat)
    requires k < |ids| && ReadSoFar(jobs, ids, k, indices) && i < k
    ensures LastPending(jobs, ids[k]) == Some(indices[i]) ==> Misfit(jobs, ids, k)
  {
    hide LastPending;
    LastPendingExactly(jobs, ids[k]);
    LastPendingExactly(jobs, ids[i]);
  }

  lemma MisfitRejects(jobs: seq<V2Job>, numbers: seq<int>, k: nat)
    requires |numbers| >= 2 && k < |numbers[2..]| && Misfit(jobs, numbers[2..], k) && k < numbers[1]
    ensures !WellFormed(jobs, numbers)
  {
    hide LastPending, Pending;
    if 0 <= numbers[1] <= |numbers| - 2 {
      var ids := ReleaseIds(numbers);
      assert forall m :: 0 <= m < |ids| ==> ids[m] == numbers[2..][m];
      assert ids[k] in ids;
    }
  }

  lemma ReadGrows(jobs: seq<V2Job>, ids: seq<int>, k: nat, indices: seq<nat>, index: nat)
    requires k < |ids| && ReadSoFar(jobs, ids, k, indices)
    requires LastPending(jobs, ids[k]) == Some(index)
    requires forall m :: 0 <= m < k ==> indices[m] != index
    ensures ReadSoFar(jobs, ids, k + 1, indices + [index])
  {
    hide LastPending;
  }

  lemma ReadComplete(jobs: seq<V2Job>, numbers: seq<int>, indices: seq<nat>)
    requires |numbers| >= 2 && 0 <= numbers[1] <= Pending(jobs) && numbers[1] <= |numbers| - 2
    requires ReadSoFar(jobs, numbers[2..], numbers[1], indices)
    ensures WellFormed(jobs, numbers) && indices == Places(jobs, ReleaseIds(numbers))
  {
    hide LastPending, Pending;
    var ids := ReleaseIds(numbers);
    assert forall m :: 0 <= m < |ids| ==> ids[m] == numbers[2..][m];
    assert AllPending(jobs, ids);
    assert DistinctIds(ids);
  }

  // ---------- small facts about a tick ----------

  lemma NothingUnsubmitted(st: State)
    ensures Submit(st, Unsubmitted(st.jobs[..0])) == st
  {
  }

  lemma UnsubmittedStep(st: State, i: nat)
    requires i < |st.jobs|
    ensures Submit(st, Unsubmitted(st.jobs[..i])).jobs[i] == st.jobs[i]
    ensures var before := Submit(st, Unsubmitted(st.jobs[..i]));
            Submit(st, Unsubmitted(st.jobs[..i + 1])) == if st.jobs[i].submitted then before else SubmitOne(before, i)
  {
    assert st.jobs[..i + 1][..i] == st.jobs[..i];
    var rest := Unsubmitted(st.jobs[..i]);
    SubmitExactly(st, rest);
    assert i !in rest;
    assert (rest + [i])[..|rest|] == rest;
  }

  lemma CleanObserve(jobs: seq<V2Job>, observed: seq<int>)
    requires |observed| == |jobs| && !Dirty(jobs, observed)
    ensures Observe(jobs, observed) == jobs
  {
    forall i | 0 <= i < |jobs|
      ensures Observe(jobs, observed)[i] == jobs[i]
    {
      assert !News(jobs[i], observed[i]);
    }
  }

  lemma WellFormedMeans(jobs: seq<V2Job>, numbers: seq<int>)
    requires WellFormed(jobs, numbers)
    ensures |numbers| >= 2 && 0 <= numbers[1] <= Pending(jobs) && numbers[1] <= |numbers| - 2
    ensures AllPending(jobs, ReleaseIds(numbers)) && DistinctIds(ReleaseIds(numbers))
  {
  }

  lemma ReportedPending(jobs: seq<V2Job>)
    ensures Pending(Reported(jobs)) == Pending(jobs)
  {
    PendingSame(Reported(jobs), jobs);
  }

  lemma WakeForgotten(st: State, wake: int)
    ensures Fallback(st) == Fallback(st.(wake := wake))
  {
    FallbackExactly(st);
    FallbackExactly(st.(wake := wake));
    assert Fallback(st).jobs == Fallback(st.(wake := wake)).jobs;
  }
}
