/** Marginal costs telescope: added up over the jobs in the order they were planned, they give the carbon of the final
    plan, whatever that order was. */
module PlanCarbon {
  import opened Basics
  import opened Intensity
  import opened Sweep
  import opened MarginalCost

  // ---------- the plan as a whole ----------

  /** Carbon rate of all planned nodes together, capped at the whole cluster. */
  function NodeTotal(carbon: seq<Row>, plan: seq<Item>): real -> real {
    (x: real) => Priced(Capped(NodeLoad(plan, x)), Level(carbon, x))
  }

  /** Carbon rate of one class, capped at its capacity and weighted by its nodes. */
  function ClassTotal(carbon: seq<Row>, plan: seq<Item>, c: Class): real -> real {
    (x: real) => Priced(Times(Weight(c), Capped(ClassLoad(plan, c, x))), Level(carbon, x))
  }

  /** The node costs of the jobs, each against those planned before it. */
  ghost function NodeCosts(carbon: seq<Row>, plan: seq<Item>): real {
    if plan == [] then 0.0
    else
      var planned, job := plan[..|plan| - 1], plan[|plan| - 1];
      NodeCosts(carbon, planned) + Integral(NodeMarginal(carbon, planned, job), job.start, job.end)
  }

  ghost function CapacityCosts(carbon: seq<Row>, plan: seq<Item>): real {
    if plan == [] then 0.0
    else
      var planned, job := plan[..|plan| - 1], plan[|plan| - 1];
      CapacityCosts(carbon, planned) + Integral(ClassMarginal(carbon, planned, job), job.start, job.end)
  }

  /** The same quantity read off the plan: every class, over all of [lo, hi). */
  ghost function CapacityTotal(carbon: seq<Row>, plan: seq<Item>, lo: real, hi: real): real {
    Integral(ClassTotal(carbon, plan, Cpu), lo, hi) + Integral(ClassTotal(carbon, plan, A100), lo, hi)
    + Integral(ClassTotal(carbon, plan, H100), lo, hi) + Integral(ClassTotal(carbon, plan, H100Nvl), lo, hi)
  }

  /** Every job runs inside [lo, hi). */
  predicate Spans(plan: seq<Item>, lo: real, hi: real) {
    forall item :: item in plan ==> lo <= item.start <= item.end <= hi
  }

  // ---------- where the curves bend ----------

  /** Every end of a job or a row. */
  ghost function Ends(plan: seq<Item>, carbon: seq<Row>): set<real> {
    (set item | item in plan :: item.start) + (set item | item in plan :: item.end)
    + (set row | row in carbon :: row.left) + (set row | row in carbon :: row.right)
  }

  lemma ClearOfEnds(plan: seq<Item>, carbon: seq<Row>, breaks: set<real>, l: real, r: real)
    requires Clear(breaks, l, r) && Ends(plan, carbon) <= breaks
    ensures NoEndWithin(plan, l, r) && NoRowEndWithin(carbon, l, r)
  {
    forall item | item in plan
      ensures !Within(item.start, l, r) && !Within(item.end, l, r)
    {
      assert item.start in Ends(plan, carbon) && item.end in Ends(plan, carbon);
    }
    forall row | row in carbon
      ensures !Within(row.left, l, r) && !Within(row.right, l, r)
    {
      assert row.left in Ends(plan, carbon) && row.right in Ends(plan, carbon);
    }
  }

  /** Between ends of jobs and rows every load and the intensity stay the same. */
  ghost predicate SameAt(carbon: seq<Row>, plan: seq<Item>, x: real, y: real) {
    && NodeLoad(plan, x) == NodeLoad(plan, y) && Level(carbon, x) == Level(carbon, y)
    && forall c: Class :: ClassLoad(plan, c, x) == ClassLoad(plan, c, y)
  }

  lemma SameInCell(carbon: seq<Row>, plan: seq<Item>, breaks: set<real>, l: real, r: real, x: real)
    requires Clear(breaks, l, r) && Ends(plan, carbon) <= breaks && l <= x < r
    ensures SameAt(carbon, plan, x, l)
  {
    hide NodeLoad, ClassLoad, RowAt, NoEndWithin, NoRowEndWithin, Clear, Ends;
    ClearOfEnds(plan, carbon, breaks, l, r);
    LevelSteady(carbon, l, r, x);
    LoadsSteady(plan, Cpu, l, r, x);
    forall c: Class
      ensures ClassLoad(plan, c, x) == ClassLoad(plan, c, l)
    {
      LoadsSteady(plan, c, l, r, x);
    }
  }

  lemma TotalsBend(carbon: seq<Row>, plan: seq<Item>, c: Class, breaks: set<real>)
    requires Ends(plan, carbon) <= breaks
    ensures Bends(NodeTotal(carbon, plan), breaks) && Bends(ClassTotal(carbon, plan, c), breaks)
  {
    hide NodeLoad, ClassLoad, Level, Priced, Capped, Weight, Times, Clear, Ends;
    var f, g := NodeTotal(carbon, plan), ClassTotal(carbon, plan, c);
    forall l: real, r: real, x: real | l < r && Clear(breaks, l, r) && l <= x < r
      ensures f(x) == f(l) && g(x) == g(l)
    {
      SameInCell(carbon, plan, breaks, l, r, x);
    }
  }

  lemma MarginalsBend(carbon: seq<Row>, plan: seq<Item>, job: Item, breaks: set<real>)
    requires Ends(plan, carbon) <= breaks
    ensures Bends(NodeMarginal(carbon, plan, job), breaks) && Bends(ClassMarginal(carbon, plan, job), breaks)
    ensures Bends(LoadCurve(plan, job), breaks)
  {
    hide NodeLoad, ClassLoad, Level, Priced, Capped, Weight, Times, Clear, Ends;
    var f, g, h := NodeMarginal(carbon, plan, job), ClassMarginal(carbon, plan, job), LoadCurve(plan, job);
    forall l: real, r: real, x: real | l < r && Clear(breaks, l, r) && l <= x < r
      ensures f(x) == f(l) && g(x) == g(l) && h(x) == h(l)
    {
      SameInCell(carbon, plan, breaks, l, r, x);
    }
  }

  lemma EndsGrow(planned: seq<Item>, job: Item, carbon: seq<Row>)
    ensures Ends(planned, carbon) <= Ends(planned + [job], carbon)
  {
  }

  // ---------- one more job ----------

  lemma PricedAdds(a: real, b: real, level: real)
    ensures Priced(a, level) + Priced(b - a, level) == Priced(b, level)
  {
  }

  lemma WeightedAdds(w: real, a: real, b: real, level: real)
    ensures Priced(Times(w, a), level) + Priced(Times(w, b - a), level) == Priced(Times(w, b), level)
  {
    hide Priced;
    TimesAdds(w, a, b - a);
    PricedAdds(Times(w, a), Times(w, b), level);
  }

  lemma OneMoreNode(carbon: seq<Row>, planned: seq<Item>, job: Item, lo: real, hi: real)
    requires lo <= job.start <= job.end <= hi
    ensures Integral(NodeTotal(carbon, planned + [job]), lo, hi)
            == Integral(NodeTotal(carbon, planned), lo, hi)
               + Integral(NodeMarginal(carbon, planned, job), job.start, job.end)
  {
    hide NodeLoad, ClassLoad, Level, Priced, Capped, Integral, Bends, Ends;
    var breaks := Ends(planned + [job], carbon);
    EndsGrow(planned, job, carbon);
    TotalsBend(carbon, planned + [job], job.class_, breaks);
    TotalsBend(carbon, planned, job.class_, breaks);
    MarginalsBend(carbon, planned, job, breaks);
    var f, g := NodeTotal(carbon, planned + [job]), NodeTotal(carbon, planned);
    var h := NodeMarginal(carbon, planned, job);
    forall x: real
      ensures if Active(job, x) then f(x) == g(x) + h(x) else f(x) == g(x)
    {
      AppendLoads(planned, job, job.class_, x);
      PricedAdds(Capped(NodeLoad(planned, x)), Capped(NodeLoad(planned, x) + job.nodeFraction), Level(carbon, x));
    }
    IntegralGrows(f, g, h, breaks, lo, job.start, job.end, hi);
  }

  lemma OneMoreOwnClass(carbon: seq<Row>, planned: seq<Item>, job: Item, lo: real, hi: real)
    requires lo <= job.start <= job.end <= hi
    ensures Integral(ClassTotal(carbon, planned + [job], job.class_), lo, hi)
            == Integral(ClassTotal(carbon, planned, job.class_), lo, hi)
               + Integral(ClassMarginal(carbon, planned, job), job.start, job.end)
  {
    hide NodeLoad, ClassLoad, Level, Priced, Capped, Integral, Times, Weight, Bends, Ends;
    var c, breaks := job.class_, Ends(planned + [job], carbon);
    EndsGrow(planned, job, carbon);
    TotalsBend(carbon, planned + [job], c, breaks);
    TotalsBend(carbon, planned, c, breaks);
    MarginalsBend(carbon, planned, job, breaks);
    var f, g := ClassTotal(carbon, planned + [job], c), ClassTotal(carbon, planned, c);
    var h := ClassMarginal(carbon, planned, job);
    forall x: real
      ensures if Active(job, x) then f(x) == g(x) + h(x) else f(x) == g(x)
    {
      AppendLoads(planned, job, c, x);
      WeightedAdds(Weight(c), Capped(ClassLoad(planned, c, x)), Capped(ClassLoad(planned, c, x) + job.fraction),
                   Level(carbon, x));
    }
    IntegralGrows(f, g, h, breaks, lo, job.start, job.end, hi);
  }

  lemma OneMoreOtherClass(carbon: seq<Row>, planned: seq<Item>, job: Item, c: Class, lo: real, hi: real)
    requires c != job.class_ && lo <= hi
    ensures Integral(ClassTotal(carbon, planned + [job], c), lo, hi) == Integral(ClassTotal(carbon, planned, c), lo, hi)
  {
    hide NodeLoad, ClassLoad, Level, Priced, Capped, Integral, Times, Weight, Bends, Ends;
    TotalsBend(carbon, planned, c, Ends(planned, carbon));
    var f, g := ClassTotal(carbon, planned + [job], c), ClassTotal(carbon, planned, c);
    forall x: real
      ensures f(x) == g(x)
    {
      AppendLoads(planned, job, c, x);
    }
    IntegralSame(f, g, Ends(planned, carbon), lo, hi);
  }

  lemma NothingPlanned(carbon: seq<Row>, c: Class, lo: real, hi: real)
    requires lo <= hi
    ensures Integral(NodeTotal(carbon, []), lo, hi) == 0.0 && Integral(ClassTotal(carbon, [], c), lo, hi) == 0.0
  {
    hide Level, Weight, Integral;
    IntegralConstant(NodeTotal(carbon, []), 0.0, lo, hi);
    IntegralConstant(ClassTotal(carbon, [], c), 0.0, lo, hi);
  }

  // ---------- telescoping ----------

  /** Both costs, summed over the jobs in planning order, equal the carbon of the final plan. */
  lemma {:induction false} CostsTelescope(carbon: seq<Row>, plan: seq<Item>, lo: real, hi: real)
    requires lo <= hi && Spans(plan, lo, hi)
    ensures NodeCosts(carbon, plan) == Integral(NodeTotal(carbon, plan), lo, hi)
    ensures CapacityCosts(carbon, plan) == CapacityTotal(carbon, plan, lo, hi)
  {
    hide Integral, NodeTotal, ClassTotal, NodeMarginal, ClassMarginal;
    if plan == [] {
      NothingPlanned(carbon, Cpu, lo, hi);
      NothingPlanned(carbon, A100, lo, hi);
      NothingPlanned(carbon, H100, lo, hi);
      NothingPlanned(carbon, H100Nvl, lo, hi);
    } else {
      var planned, job := plan[..|plan| - 1], plan[|plan| - 1];
      assert plan == planned + [job] && job in plan;
      CostsTelescope(carbon, planned, lo, hi);
      OneMoreNode(carbon, planned, job, lo, hi);
      OneMoreOwnClass(carbon, planned, job, lo, hi);
      OthersUnchanged(carbon, planned, job, lo, hi);
    }
  }

  lemma OthersUnchanged(carbon: seq<Row>, planned: seq<Item>, job: Item, lo: real, hi: real)
    requires lo <= hi
    ensures forall c: Class :: c != job.class_ ==>
              Integral(ClassTotal(carbon, planned + [job], c), lo, hi)
              == Integral(ClassTotal(carbon, planned, c), lo, hi)
  {
    hide Integral, ClassTotal;
    forall c: Class | c != job.class_
      ensures Integral(ClassTotal(carbon, planned + [job], c), lo, hi)
              == Integral(ClassTotal(carbon, planned, c), lo, hi)
    {
      OneMoreOtherClass(carbon, planned, job, c, lo, hi);
    }
  }

  // ---------- the order does not matter ----------

  lemma {:induction false} LoadsSplit(a: seq<Item>, b: seq<Item>, c: Class, x: real)
    ensures NodeLoad(a + b, x) == NodeLoad(a, x) + NodeLoad(b, x)
    ensures ClassLoad(a + b, c, x) == ClassLoad(a, c, x) + ClassLoad(b, c, x)
    decreases |b|
  {
    if b == [] {
      assert a + b == a;
    } else {
      assert (a + b)[..|a + b| - 1] == a + b[..|b| - 1];
      LoadsSplit(a, b[..|b| - 1], c, x);
    }
  }

  lemma {:induction false} LoadsPermute(p: seq<Item>, q: seq<Item>, c: Class, x: real)
    requires multiset(p) == multiset(q)
    ensures NodeLoad(p, x) == NodeLoad(q, x) && ClassLoad(p, c, x) == ClassLoad(q, c, x)
    decreases |q|
  {
    hide NodeLoad, ClassLoad;
    assert |p| == |multiset(p)| == |multiset(q)| == |q|;
    if q == [] {
      assert p == [];
    } else {
      assert q[0] in multiset(p);
      var i :| 0 <= i < |p| && p[i] == q[0];
      RestPermutes(p, q, i);
      LoadsPermute(p[..i] + p[i + 1..], q[1..], c, x);
      LoadsWithout(p, i, c, x);
      LoadsWithout(q, 0, c, x);
      assert q[..0] + q[1..] == q[1..];
    }
  }

  lemma RestPermutes(p: seq<Item>, q: seq<Item>, i: nat)
    requires multiset(p) == multiset(q) && q != [] && i < |p| && p[i] == q[0]
    ensures multiset(p[..i] + p[i + 1..]) == multiset(q[1..])
  {
    var rest := p[..i] + p[i + 1..];
    assert p == p[..i] + ([p[i]] + p[i + 1..]);
    assert q == [q[0]] + q[1..];
    assert multiset(rest) == multiset(p) - multiset{q[0]};
    assert multiset(q[1..]) == multiset(q) - multiset{q[0]};
  }

  lemma LoadsWithout(p: seq<Item>, i: nat, c: Class, x: real)
    requires i < |p|
    ensures NodeLoad(p, x) == NodeLoad([p[i]], x) + NodeLoad(p[..i] + p[i + 1..], x)
    ensures ClassLoad(p, c, x) == ClassLoad([p[i]], c, x) + ClassLoad(p[..i] + p[i + 1..], c, x)
  {
    hide NodeLoad, ClassLoad;
    assert p == p[..i] + ([p[i]] + p[i + 1..]);
    LoadsSplit(p[..i], [p[i]] + p[i + 1..], c, x);
    LoadsSplit([p[i]], p[i + 1..], c, x);
    LoadsSplit(p[..i], p[i + 1..], c, x);
  }

  /** The summed costs depend on the plan only, not on the order the jobs were planned in. */
  lemma PlanningOrderIrrelevant(carbon: seq<Row>, p: seq<Item>, q: seq<Item>, lo: real, hi: real)
    requires multiset(p) == multiset(q) && lo <= hi && Spans(p, lo, hi)
    ensures NodeCosts(carbon, p) == NodeCosts(carbon, q)
    ensures CapacityCosts(carbon, p) == CapacityCosts(carbon, q)
  {
    hide Integral, NodeLoad, ClassLoad, Level, Priced, Capped, Times, Weight, NodeCosts, CapacityCosts, Bends, Ends;
    forall item | item in q
      ensures item in p
    {
      assert item in multiset(q);
    }
    CostsTelescope(carbon, p, lo, hi);
    CostsTelescope(carbon, q, lo, hi);
    forall x: real
      ensures NodeTotal(carbon, p)(x) == NodeTotal(carbon, q)(x)
    {
      LoadsPermute(p, q, Cpu, x);
    }
    TotalsBend(carbon, q, Cpu, Ends(q, carbon));
    IntegralSame(NodeTotal(carbon, p), NodeTotal(carbon, q), Ends(q, carbon), lo, hi);
    ClassTotalPermutes(carbon, p, q, Cpu, lo, hi);
    ClassTotalPermutes(carbon, p, q, A100, lo, hi);
    ClassTotalPermutes(carbon, p, q, H100, lo, hi);
    ClassTotalPermutes(carbon, p, q, H100Nvl, lo, hi);
  }

  lemma ClassTotalPermutes(carbon: seq<Row>, p: seq<Item>, q: seq<Item>, c: Class, lo: real, hi: real)
    requires multiset(p) == multiset(q) && lo <= hi
    ensures Integral(ClassTotal(carbon, p, c), lo, hi) == Integral(ClassTotal(carbon, q, c), lo, hi)
  {
    hide ClassLoad, Level, Priced, Capped, Times, Weight, Integral, Bends, Ends;
    TotalsBend(carbon, q, c, Ends(q, carbon));
    var f, g := ClassTotal(carbon, p, c), ClassTotal(carbon, q, c);
    forall x: real
      ensures f(x) == g(x)
    {
      LoadsPermute(p, q, c, x);
    }
    IntegralSame(f, g, Ends(q, carbon), lo, hi);
  }

  // ---------- the mean load, read off the plan ----------

  /** How long the item runs inside [a, b). */
  function RunsFor(item: Item, a: real, b: real): real {
    Max(Min(item.end, b) - Max(item.start, a), 0.0)
  }

  function ClassSeconds(planned: seq<Item>, c: Class, a: real, b: real): real {
    if planned == [] then 0.0
    else
      var last := planned[|planned| - 1];
      ClassSeconds(planned[..|planned| - 1], c, a, b)
      + if last.class_ == c then Times(last.fraction, RunsFor(last, a, b)) else 0.0
  }

  /** The load of one item, w while it runs. */
  function Pulse(item: Item, w: real): real -> real {
    (x: real) => if Active(item, x) then w else 0.0
  }

  lemma PulseBends(item: Item, w: real, breaks: set<real>)
    requires item.start in breaks && item.end in breaks
    ensures Bends(Pulse(item, w), breaks)
  {
    var f := Pulse(item, w);
    forall l: real, r: real, x: real | l < r && Clear(breaks, l, r) && l <= x < r
      ensures f(x) == f(l)
    {
      assert !Within(item.start, l, r) && !Within(item.end, l, r);
    }
  }

  lemma PulseIntegral(item: Item, w: real, a: real, b: real)
    requires a <= b
    ensures Integral(Pulse(item, w), a, b) == Times(w, RunsFor(item, a, b))
  {
    hide Integral, Bends;
    var f, breaks := Pulse(item, w), {item.start, item.end};
    PulseBends(item, w, breaks);
    var l := Clamp(item.start, a, b);
    var r := Max(l, Clamp(item.end, a, b));
    IntegralAdds(f, breaks, a, l, b);
    IntegralAdds(f, breaks, l, r, b);
    IntegralConstant(f, 0.0, a, l);
    IntegralConstant(f, w, l, r);
    IntegralConstant(f, 0.0, r, b);
    assert r - l == RunsFor(item, a, b);
  }

  /** The mean load of `MarginalCostOf` is the job's own share plus every planned job's share of the run. */
  lemma {:induction false} MeanLoadExact(planned: seq<Item>, job: Item, a: real, b: real)
    requires a <= b
    ensures Integral(LoadCurve(planned, job), a, b)
            == Times(job.fraction, b - a) + ClassSeconds(planned, job.class_, a, b)
  {
    hide Integral, Bends, RunsFor, Times, Active, Ends;
    var f := LoadCurve(planned, job);
    if planned == [] {
      IntegralConstant(f, job.fraction, a, b);
    } else {
      var front, last := planned[..|planned| - 1], planned[|planned| - 1];
      assert planned == front + [last];
      MeanLoadExact(front, job, a, b);
      var w := if last.class_ == job.class_ then last.fraction else 0.0;
      var breaks := Ends(planned, []);
      EndsGrow(front, last, []);
      MarginalsBend([], front, job, breaks);
      EndsHold(planned, last);
      PulseBends(last, w, breaks);
      IntegralPlus(f, LoadCurve(front, job), Pulse(last, w), breaks, a, b);
      PulseIntegral(last, w, a, b);
      NoWeight(RunsFor(last, a, b));
    }
  }

  lemma EndsHold(planned: seq<Item>, item: Item)
    requires item in planned
    ensures item.start in Ends(planned, []) && item.end in Ends(planned, [])
  {
  }

  lemma NoWeight(x: real)
    ensures Times(0.0, x) == 0.0
  {
  }

  // ---------- projected_class_load ----------

  function OfClass(planned: seq<Item>, c: Class): seq<Item> {
    if planned == [] then []
    else
      var rest, last := OfClass(planned[..|planned| - 1], c), planned[|planned| - 1];
      if last.class_ == c then rest + [last] else rest
  }

  lemma {:induction false} OfClassLoad(planned: seq<Item>, c: Class, x: real)
    ensures ClassLoad(OfClass(planned, c), c, x) == ClassLoad(planned, c, x)
  {
    if planned != [] {
      var rest, last := OfClass(planned[..|planned| - 1], c), planned[|planned| - 1];
      OfClassLoad(planned[..|planned| - 1], c, x);
      assert (rest + [last])[..|rest|] == rest;
    }
  }

  lemma OfClassSteady(planned: seq<Item>, job: Item, l: real, r: real)
    requires NoEndWithin(OfClass(planned, job.class_), l, r) && l < r
    ensures Steady(LoadCurve(planned, job), l, r)
  {
    hide ClassLoad, NodeLoad, NoEndWithin, OfClass;
    var f := LoadCurve(planned, job);
    forall x: real | l <= x < r
      ensures f(x) == f(l)
    {
      OfClassLoad(planned, job.class_, x);
      OfClassLoad(planned, job.class_, l);
      LoadsSteady(OfClass(planned, job.class_), job.class_, l, r, x);
    }
  }

  lemma LoadCell(planned: seq<Item>, job: Item, l: real, r: real)
    ensures var load := ClassLoad(planned, job.class_, Middle(l, r)) + job.fraction;
            Cell(LoadCurve(planned, job), l, r) == Times(load, r - l) && LoadCurve(planned, job)(Middle(l, r)) == load
  {
    hide ClassLoad, Times, Middle;
  }

  /** `projected_class_load`: for a positive run time the mean is the job's own share plus every planned job's share of
      the run, and the peak is the greatest load at any instant of it. */
  method ProjectedClassLoad(planned: seq<Item>, job: Item) returns (mean: real, peak: real)
    requires job.start <= job.end
    ensures IsPeak(LoadCurve(planned, job), job.start, job.end, job.fraction, peak)
    ensures var runtime := job.end - job.start;
            mean == if runtime > 0.0
                    then (Times(job.fraction, runtime) + ClassSeconds(planned, job.class_, job.start, job.end))
                         / runtime
                    else peak
  {
    hide ClassLoad, NodeLoad, Times, OfClass, Breaks, LoadCurve, MidSum, IsPeak, Cell, Max, Increasing, ClassSeconds,
         Steady, NoEndWithin, NoRowEndWithin, Integral, Partition;
    var a, b := job.start, job.end;
    var own := OfClass(planned, job.class_);
    EndsAreBreaks(a, b);
    var breaks := CollectJobs({a, b}, [], own, a, b);
    var points := SortedPoints(breaks);
    BreakEnds(points, breaks, a, b, own, []);
    PartitionParts(points, a, b);
    ghost var h := LoadCurve(planned, job);
    StartOfSweep(h, h, h, points, job.fraction);
    var weighted := 0.0;
    peak := job.fraction;
    for i := 1 to |points|
      invariant weighted == MidSum(h, points[..i]) && IsPeak(h, a, points[i - 1], job.fraction, peak)
      invariant forall k :: 0 < k < i ==> Steady(h, points[k - 1], points[k])
    {
      var left, right := points[i - 1], points[i];
      CellsClear(points, breaks, a, b, own, [], i);
      OfClassSteady(planned, job, left, right);
      OfClassLoad(planned, job.class_, Middle(left, right));
      LoadCell(planned, job, left, right);
      MidSumStep(h, points, i);
      PeakStep(h, a, left, right, job.fraction, peak);
      var load := ClassLoad(own, job.class_, Middle(left, right)) + job.fraction;
      weighted := weighted + Times(load, right - left);
      peak := Max(peak, load);
    }
    assert points[..|points|] == points;
    SweepExact(h, points);
    MeanLoadExact(planned, job, a, b);
    mean := if b > a then weighted / (b - a) else peak;
  }

  lemma EndsAreBreaks(a: real, b: real)
    requires a <= b
    ensures Breaks({a, b}, a, b, [], [])
  {
  }
}
