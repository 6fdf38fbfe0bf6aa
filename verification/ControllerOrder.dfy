/** The order in which simultaneous arrivals are listed does not matter. */
module ControllerOrder {
  import opened Selection
  import opened Controller
  import opened ControllerBooks
  import opened ControllerStep
  import opened ControllerBudget
  import opened ControllerGreedy
  import opened ControllerRuns

  // ---------- ranking has one result ----------

  lemma TailElements<T>(s: seq<T>)
    requires s != []
    ensures multiset(s) == multiset(s[1..]) + multiset{s[0]}
  {
    assert s == [s[0]] + s[1..];
  }

  lemma CancelHead<T>(s: seq<T>, t: seq<T>)
    requires s != [] && t != [] && s[0] == t[0] && multiset(s) == multiset(t)
    ensures multiset(s[1..]) == multiset(t[1..])
  {
    TailElements(s);
    TailElements(t);
    assert multiset(s[1..]) == multiset(s) - multiset{s[0]};
    assert multiset(t[1..]) == multiset(t) - multiset{t[0]};
  }

  lemma SortedHead(s: seq<Candidate>, t: seq<Candidate>)
    requires Sorted(s) && Sorted(t) && Keyed(s) && multiset(s) == multiset(t) && s != []
    ensures t != [] && s[0] == t[0]
  {
    hide Precedes;
    SameMembers(s, t);
    assert t[0] in s && s[0] in t;
    var i, j :| 0 <= i < |s| && 0 <= j < |t| && s[i] == t[0] && t[j] == s[0];
    NeverBeforeItself(s[0]);
  }

  lemma {:induction false} SortedUnique(s: seq<Candidate>, t: seq<Candidate>)
    requires Sorted(s) && Sorted(t) && Keyed(s) && multiset(s) == multiset(t)
    ensures s == t
  {
    hide Precedes;
    if s == [] {
      assert |t| == |multiset(t)| == 0;
    } else {
      SortedHead(s, t);
      CancelHead(s, t);
      SortedUnique(s[1..], t[1..]);
    }
  }

  // ---------- the same arrivals in another order ----------

  lemma {:induction false} Concat(cfg: Config, a: seq<Arrival>, b: seq<Arrival>, states: seq<Observation>, now: real)
    requires ValidConfig(cfg) && Readable(cfg, states) && forall x :: x in a + b ==> x.job in cfg.jobs
    ensures forall x :: x in a || x in b ==> x in a + b
    ensures AllCandidates(cfg, a + b, states, now)
            == AllCandidates(cfg, a, states, now) + AllCandidates(cfg, b, states, now)
    ensures AtOnce(cfg, a + b, states, now) == AtOnce(cfg, a, states, now) + AtOnce(cfg, b, states, now)
    decreases |a|
  {
    hide ValidConfig, CandidatesOf, AllCandidates, AtOnce, Readable;
    assert forall x :: x in a || x in b ==> x in a + b;
    if a == [] {
      assert a + b == b;
      ArrivalsUnfold(cfg, a, states, now);
    } else {
      assert (a + b)[1..] == a[1..] + b;
      Concat(cfg, a[1..], b, states, now);
      ArrivalsUnfold(cfg, a, states, now);
      ArrivalsUnfold(cfg, a + b, states, now);
    }
  }

  lemma ArrivalsUnfold(cfg: Config, xs: seq<Arrival>, states: seq<Observation>, now: real)
    requires ValidConfig(cfg) && Readable(cfg, states) && forall x :: x in xs ==> x.job in cfg.jobs
    ensures xs == [] ==> AllCandidates(cfg, xs, states, now) == [] && AtOnce(cfg, xs, states, now) == []
    ensures xs != [] ==>
              && (forall x :: x in xs[1..] ==> x.job in cfg.jobs) && xs[0] in xs
              && AllCandidates(cfg, xs, states, now)
                   == CandidatesOf(cfg, xs[0], states, now) + AllCandidates(cfg, xs[1..], states, now)
              && AtOnce(cfg, xs, states, now)
                   == (if CandidatesOf(cfg, xs[0], states, now) == [] then [xs[0].job] else [])
                      + AtOnce(cfg, xs[1..], states, now)
  {
    hide ValidConfig, CandidatesOf, Readable;
    if xs != [] {
      assert forall x :: x in xs[1..] ==> x in xs;
    }
  }

  lemma MoveToFront(cfg: Config, xs: seq<Arrival>, i: nat, states: seq<Observation>, now: real)
    requires ValidConfig(cfg) && Readable(cfg, states) && (forall x :: x in xs ==> x.job in cfg.jobs) && i < |xs|
    ensures var ys := [xs[i]] + (xs[..i] + xs[i + 1..]);
            && multiset(ys) == multiset(xs) && (forall x :: x in ys ==> x in xs)
            && multiset(AllCandidates(cfg, ys, states, now)) == multiset(AllCandidates(cfg, xs, states, now))
            && multiset(AtOnce(cfg, ys, states, now)) == multiset(AtOnce(cfg, xs, states, now))
  {
    hide ValidConfig, CandidatesOf, AllCandidates, AtOnce;
    var a, x, b := xs[..i], [xs[i]], xs[i + 1..];
    assert xs == a + (x + b);
    assert multiset(xs) == multiset(a) + (multiset(x) + multiset(b));
    assert forall y :: y in x + (a + b) ==> y in xs;
    Concat(cfg, a, x + b, states, now);
    Concat(cfg, x, b, states, now);
    Concat(cfg, x, a + b, states, now);
    Concat(cfg, a, b, states, now);
  }

  lemma {:induction false} PermutedGather(
    cfg: Config, p: seq<Arrival>, q: seq<Arrival>, states: seq<Observation>, now: real)
    requires ValidConfig(cfg) && Readable(cfg, states) && multiset(p) == multiset(q)
    requires forall x :: x in p ==> x.job in cfg.jobs
    ensures forall x :: x in q <==> x in p
    ensures multiset(AllCandidates(cfg, p, states, now)) == multiset(AllCandidates(cfg, q, states, now))
    ensures multiset(AtOnce(cfg, p, states, now)) == multiset(AtOnce(cfg, q, states, now))
    decreases |p|
  {
    hide ValidConfig, CandidatesOf;
    SameMembers(p, q);
    if q != [] {
      assert q[0] in p;
      var i :| 0 <= i < |p| && p[i] == q[0];
      var rest := p[..i] + p[i + 1..];
      MoveToFront(cfg, p, i, states, now);
      assert ([p[i]] + rest)[1..] == rest;
      CancelHead([p[i]] + rest, q);
      PermutedGather(cfg, rest, q[1..], states, now);
    } else {
      assert |p| == |multiset(p)| == 0;
    }
  }

  lemma SameMembers<T>(p: seq<T>, q: seq<T>)
    requires multiset(p) == multiset(q)
    ensures forall x :: x in q <==> x in p
    ensures |p| == |q|
  {
    assert |p| == |multiset(p)| == |multiset(q)| == |q|;
    forall x
      ensures x in q <==> x in p
    {
      assert x in q <==> x in multiset(q);
      assert x in p <==> x in multiset(p);
    }
  }

  lemma TwiceMeansTwoPlaces<T>(s: seq<T>, i: nat, j: nat)
    requires i < j < |s| && s[i] == s[j]
    ensures multiset(s)[s[i]] >= 2
  {
    assert s == s[..j] + ([s[j]] + s[j + 1..]);
    assert s[i] == s[..j][i];
    assert s[i] in multiset(s[..j]);
    assert multiset(s) == multiset(s[..j]) + (multiset{s[j]} + multiset(s[j + 1..]));
  }

  lemma {:induction false} OncePerPlace<T>(s: seq<T>, x: T)
    requires multiset(s)[x] >= 2
    ensures exists i, j :: 0 <= i < j < |s| && s[i] == x && s[j] == x
  {
    assert s != [];
    var n := |s| - 1;
    assert s == s[..n] + [s[n]];
    if s[n] == x {
      assert x in multiset(s[..n]);
      assert x in s[..n];
      var i :| 0 <= i < n && s[..n][i] == x;
      assert s[i] == x;
    } else {
      OncePerPlace(s[..n], x);
      var i, j :| 0 <= i < j < n && s[..n][i] == x && s[..n][j] == x;
      assert s[i] == x && s[j] == x;
    }
  }

  lemma PermutedFresh(cfg: Config, seen: set<JobId>, p: seq<Arrival>, q: seq<Arrival>)
    requires Fresh(cfg, seen, p) && multiset(p) == multiset(q)
    ensures Fresh(cfg, seen, q)
  {
    SameMembers(p, q);
    forall i, j | 0 <= i < j < |q|
      ensures q[i].job != q[j].job
    {
      if q[i] == q[j] {
        TwiceMeansTwoPlaces(q, i, j);
        OncePerPlace(p, q[i]);
      } else {
        assert q[i] in p && q[j] in p;
      }
    }
  }

  // ---------- the rest of the step ----------

  /** One release depends on the books only. */
  lemma ReleaseJobSame(cfg: Config, w: Work, v: Work, job: JobId, now: real)
    requires job in cfg.jobs && w.st == v.st
    ensures var a, b := ReleaseJob(cfg, w, job, now), ReleaseJob(cfg, v, job, now);
            && (a.Ok? <==> b.Ok?)
            && (a.Ok? ==>
                  a.value.st == b.value.st && a.value.output == w.output + [job] && b.value.output == v.output + [job])
  {
    hide HeldJobs, HoldOf, Without, Add, Get;
  }

  lemma SuffixStep(w: seq<JobId>, job: JobId, x: seq<JobId>)
    requires w + [job] <= x
    ensures w <= x && x[|w|..] == [job] + x[|w| + 1..]
  {
    assert x == (w + [job]) + x[|w| + 1..];
  }

  /** The releases for want of budget depend on who is out already, not on the order they left. */
  lemma {:induction false} ReleaseRestSame(cfg: Config, w: Work, v: Work, ranked: seq<Candidate>, now: real)
    requires forall c :: c in ranked ==> c.job in cfg.jobs
    requires w.st == v.st && Elements(w.output) == Elements(v.output)
    ensures var a, b := ReleaseRest(cfg, w, ranked, now), ReleaseRest(cfg, v, ranked, now);
            && (a.Ok? <==> b.Ok?)
            && (a.Ok? ==>
                  && a.value.st == b.value.st
                  && w.output <= a.value.output && v.output <= b.value.output
                  && a.value.output[|w.output|..] == b.value.output[|v.output|..])
    decreases |ranked|
  {
    hide HeldJobs, ReleaseJob;
    if ranked != [] {
      var c := ranked[0];
      assert c.job in w.output <==> c.job in Elements(w.output);
      assert c.job in v.output <==> c.job in Elements(v.output);
      if c.job in HeldJobs(w.st.held) || c.job in w.output {
        ReleaseRestSame(cfg, w, v, ranked[1..], now);
      } else {
        ReleaseJobSame(cfg, w, v, c.job, now);
      }
      if c.job !in HeldJobs(w.st.held) && c.job !in w.output && ReleaseJob(cfg, w, c.job, now).Ok? {
        var a, b := ReleaseJob(cfg, w, c.job, now).value, ReleaseJob(cfg, v, c.job, now).value;
        ElementsAdd(w.output, [c.job]);
        ElementsAdd(v.output, [c.job]);
        ReleaseRestSame(cfg, a, b, ranked[1..], now);
        var x, y := ReleaseRest(cfg, a, ranked[1..], now), ReleaseRest(cfg, b, ranked[1..], now);
        if x.Ok? {
          SuffixStep(w.output, c.job, x.value.output);
          SuffixStep(v.output, c.job, y.value.output);
        }
      }
    }
  }

  lemma RankedSame(cfg: Config, p: seq<Arrival>, q: seq<Arrival>, states: seq<Observation>, now: real, seen: set<JobId>)
    requires ValidConfig(cfg) && Readable(cfg, states) && Fresh(cfg, seen, p) && multiset(p) == multiset(q)
    ensures Fresh(cfg, seen, q)
    ensures Rank(AllCandidates(cfg, p, states, now)) == Rank(AllCandidates(cfg, q, states, now))
  {
    hide ValidConfig, AllCandidates, Precedes, Rank;
    PermutedFresh(cfg, seen, p, q);
    PermutedGather(cfg, p, q, states, now);
    var a, b := AllCandidates(cfg, p, states, now), AllCandidates(cfg, q, states, now);
    CandidatesKeyed(cfg, p, states, now, seen);
    RankSameElements(a);
    RankSameElements(b);
    RankSorted(a);
    RankSorted(b);
    assert Keyed(Rank(a));
    SortedUnique(Rank(a), Rank(b));
  }

  lemma SameAfterArrivals(cfg: Config, w: Work, p: seq<Arrival>, q: seq<Arrival>, states: seq<Observation>, now: real)
    requires ValidConfig(cfg) && Readable(cfg, states) && multiset(p) == multiset(q)
    requires forall x :: x in p ==> x.job in cfg.jobs
    ensures forall x :: x in q <==> x in p
    ensures var a, b := AfterArrivals(cfg, w, p, states, now), AfterArrivals(cfg, w, q, states, now);
            && a.st == b.st && Elements(a.output) == Elements(b.output) && multiset(a.output) == multiset(b.output)
  {
    hide ValidConfig, AtOnce;
    PermutedGather(cfg, p, q, states, now);
    var x, y := AtOnce(cfg, p, states, now), AtOnce(cfg, q, states, now);
    SameMembers(x, y);
    ElementsAdd(w.output, x);
    ElementsAdd(w.output, y);
    assert Elements(x) == Elements(y);
    assert ArrivalJobs(p) == ArrivalJobs(q);
  }

  /** Listing simultaneous arrivals in another order leads to the same state, the same wake time and the same jobs
      released. */
  lemma ArrivalOrderIrrelevant(cfg: Config, st: State, r: Request, q: Request)
    requires ValidConfig(cfg) && Sound(cfg, st)
    requires r.now == q.now && r.states == q.states && multiset(r.arrivals) == multiset(q.arrivals)
    ensures Known(cfg, st)
    ensures var a, b := Step(cfg, st, r), Step(cfg, st, q);
            && (a.Ok? <==> b.Ok?)
            && (a.Ok? ==>
                  && a.value.0 == b.value.0
                  && a.value.1.nextWake == b.value.1.nextWake
                  && multiset(a.value.1.release) == multiset(b.value.1.release))
  {
    hide ValidConfig, Sound, Fresh, Recheck, AfterArrivals, AllCandidates, Rank, Admit, ReleaseRest, NextWake, Step,
         StepFacts;
    SoundIsKnown(cfg, st);
    StepSucceedsExactly(cfg, st, r);
    StepSucceedsExactly(cfg, st, q);
    if Fresh(cfg, st.seen, q.arrivals) {
      PermutedFresh(cfg, st.seen, q.arrivals, r.arrivals);
    }
    if Valid(cfg, st, r) {
      PermutedFresh(cfg, st.seen, r.arrivals, q.arrivals);
      ValidKnown(cfg, st, r);
      var x := StepInPhases(cfg, st, r);
      var y := StepInPhases(cfg, st, q);
      RankedSame(cfg, r.arrivals, q.arrivals, r.states, r.now, st.seen);
      SameAfterArrivals(cfg, x.rechecked, r.arrivals, q.arrivals, r.states, r.now);
      SamePhases(cfg, r.now, x.gathered, y.gathered, x.admitted, x.ranked, x.final, y.final);
    }
  }

  lemma SamePhases(cfg: Config, now: real, g: Work, h: Work, st: State, ranked: seq<Candidate>, a: Work, b: Work)
    requires forall c :: c in ranked ==> c.job in cfg.jobs
    requires Elements(g.output) == Elements(h.output) && multiset(g.output) == multiset(h.output)
    requires ReleaseRest(cfg, g.(st := st), ranked, now) == Ok(a)
    requires ReleaseRest(cfg, h.(st := st), ranked, now) == Ok(b)
    ensures a.st == b.st && multiset(a.output) == multiset(b.output)
  {
    hide ReleaseRest, Elements;
    ReleaseRestSame(cfg, g.(st := st), h.(st := st), ranked, now);
    var i, j := |g.output|, |h.output|;
    assert a.output == g.output + a.output[i..] && b.output == h.output + b.output[j..];
  }
}
