/** Marginal carbon of a job against the jobs already planned (`generate_policy_scenario.py`). */
module MarginalCost {
  import opened Basics
  import opened Intensity
  import opened Sweep

  datatype Class = Cpu | A100 | H100 | H100Nvl

  function Nodes(c: Class): nat {
    match c
    case Cpu => 174
    case A100 => 18
    case H100 => 6
    case H100Nvl => 4
  }

  const TOTAL_NODES: nat := 202

  /** A planned job: when it runs, its class, and its share of the class and of the nodes. */
  datatype Item = Item(start: real, end: real, class_: Class, fraction: real, nodeFraction: real)

  /** Rows of positive length that do not overlap. */
  predicate ProperRows(carbon: seq<Row>) {
    Ordered(carbon) && forall i :: 0 <= i < |carbon| ==> carbon[i].left < carbon[i].right
  }

  predicate Active(item: Item, x: real) {
    item.start <= x < item.end
  }

  // ---------- loads and intensity at an instant ----------

  function NodeLoad(planned: seq<Item>, x: real): real {
    if planned == [] then 0.0
    else
      var last := planned[|planned| - 1];
      NodeLoad(planned[..|planned| - 1], x) + if Active(last, x) then last.nodeFraction else 0.0
  }

  function ClassLoad(planned: seq<Item>, c: Class, x: real): real {
    if planned == [] then 0.0
    else
      var last := planned[|planned| - 1];
      ClassLoad(planned[..|planned| - 1], c, x) + if last.class_ == c && Active(last, x) then last.fraction else 0.0
  }

  function Level(carbon: seq<Row>, x: real): real {
    match RowAt(carbon, x)
    case Some(row) => row.level
    case None => 0.0
  }

  function Capped(load: real): real {
    Min(1.0, load)
  }

  /** Carbon rate of a load: load times intensity, per hour. */
  function Priced(load: real, level: real): real {
    load * level / 3600.0
  }

  // ---------- the curves ----------

  function NodeMarginal(carbon: seq<Row>, planned: seq<Item>, job: Item): real -> real {
    (x: real) =>
      Priced(Capped(NodeLoad(planned, x) + job.nodeFraction) - Capped(NodeLoad(planned, x)), Level(carbon, x))
  }

  function Weight(c: Class): real {
    Nodes(c) as real / TOTAL_NODES as real
  }

  function ClassMarginal(carbon: seq<Row>, planned: seq<Item>, job: Item): real -> real {
    (x: real) =>
      Priced(Times(Weight(job.class_), Capped(ClassLoad(planned, job.class_, x) + job.fraction)
                                       - Capped(ClassLoad(planned, job.class_, x))), Level(carbon, x))
  }

  function LoadCurve(planned: seq<Item>, job: Item): real -> real {
    (x: real) => ClassLoad(planned, job.class_, x) + job.fraction
  }

  // ---------- nothing changes between breakpoints ----------

  ghost predicate NoEndWithin(planned: seq<Item>, l: real, r: real) {
    forall item :: item in planned ==> !Within(item.start, l, r) && !Within(item.end, l, r)
  }

  ghost predicate NoRowEndWithin(carbon: seq<Row>, l: real, r: real) {
    forall row :: row in carbon ==> !Within(row.left, l, r) && !Within(row.right, l, r)
  }

  lemma {:induction false} LoadsSteady(planned: seq<Item>, c: Class, l: real, r: real, x: real)
    requires NoEndWithin(planned, l, r) && l <= x < r
    ensures NodeLoad(planned, x) == NodeLoad(planned, l)
    ensures ClassLoad(planned, c, x) == ClassLoad(planned, c, l)
  {
    if planned != [] {
      var last := planned[|planned| - 1];
      assert last in planned && !Within(last.start, l, r) && !Within(last.end, l, r);
      LoadsSteady(planned[..|planned| - 1], c, l, r, x);
    }
  }

  lemma {:induction false} LevelSteady(carbon: seq<Row>, l: real, r: real, x: real)
    requires NoRowEndWithin(carbon, l, r) && l <= x < r
    ensures RowAt(carbon, x) == RowAt(carbon, l)
  {
    if carbon != [] {
      var last := carbon[|carbon| - 1];
      assert last in carbon && !Within(last.left, l, r) && !Within(last.right, l, r);
      LevelSteady(carbon[..|carbon| - 1], l, r, x);
    }
  }

  // ---------- jobs outside the window do not matter ----------

  function Overlapping(planned: seq<Item>, a: real, b: real): seq<Item> {
    if planned == [] then []
    else
      var rest, last := Overlapping(planned[..|planned| - 1], a, b), planned[|planned| - 1];
      if last.start < b && last.end > a then rest + [last] else rest
  }

  lemma OverlappingUnfolds(planned: seq<Item>, a: real, b: real)
    ensures planned == [] ==> Overlapping(planned, a, b) == []
    ensures planned != [] ==>
              var rest, last := Overlapping(planned[..|planned| - 1], a, b), planned[|planned| - 1];
              Overlapping(planned, a, b) == if last.start < b && last.end > a then rest + [last] else rest
  {
  }

  lemma LoadsUnfold(planned: seq<Item>, c: Class, x: real)
    requires planned != []
    ensures var front, last := planned[..|planned| - 1], planned[|planned| - 1];
            && NodeLoad(planned, x) == NodeLoad(front, x) + (if Active(last, x) then last.nodeFraction else 0.0)
            && ClassLoad(planned, c, x)
                 == ClassLoad(front, c, x) + if last.class_ == c && Active(last, x) then last.fraction else 0.0
  {
  }

  lemma AppendLoads(planned: seq<Item>, job: Item, c: Class, x: real)
    ensures NodeLoad(planned + [job], x) == NodeLoad(planned, x) + if Active(job, x) then job.nodeFraction else 0.0
    ensures ClassLoad(planned + [job], c, x)
            == ClassLoad(planned, c, x) + if job.class_ == c && Active(job, x) then job.fraction else 0.0
  {
    hide NodeLoad, ClassLoad;
    assert (planned + [job])[..|planned|] == planned;
    LoadsUnfold(planned + [job], c, x);
  }

  lemma {:induction false} OverlappingLoads(planned: seq<Item>, a: real, b: real, c: Class, x: real)
    requires a <= x < b
    ensures NodeLoad(Overlapping(planned, a, b), x) == NodeLoad(planned, x)
    ensures ClassLoad(Overlapping(planned, a, b), c, x) == ClassLoad(planned, c, x)
  {
    hide NodeLoad, ClassLoad, Overlapping;
    OverlappingUnfolds(planned, a, b);
    if planned != [] {
      var front, last := planned[..|planned| - 1], planned[|planned| - 1];
      OverlappingLoads(front, a, b, c, x);
      LoadsUnfold(planned, c, x);
      AppendLoads(Overlapping(front, a, b), last, c, x);
    }
  }

  // ---------- breakpoints ----------

  /** Breakpoints of the window [a, b): its ends, and every end of a job or a row inside it. */
  ghost predicate Breaks(points: set<real>, a: real, b: real, planned: seq<Item>, carbon: seq<Row>) {
    && a in points && b in points && (forall p :: p in points ==> a <= p <= b)
    && (forall item :: item in planned ==>
          (Within(item.start, a, b) ==> item.start in points) && (Within(item.end, a, b) ==> item.end in points))
    && (forall row :: row in carbon ==>
          (Within(row.left, a, b) ==> row.left in points) && (Within(row.right, a, b) ==> row.right in points))
  }

  /** No breakpoint lies strictly between two consecutive sorted ones. */
  lemma NothingBetween(points: seq<real>, i: nat, p: real)
    requires Increasing(points) && 0 < i < |points| && p in points
    ensures !Within(p, points[i - 1], points[i])
  {
    var k :| 0 <= k < |points| && points[k] == p;
    if k < i - 1 {
      PointsGrow(points, k, i - 1);
    } else if k > i {
      PointsGrow(points, i, k);
    }
  }

  lemma CellsClear(points: seq<real>, breaks: set<real>, a: real, b: real, planned: seq<Item>, carbon: seq<Row>, i: nat)
    requires Increasing(points) && (forall x :: x in points <==> x in breaks) && 0 < i < |points|
    requires Breaks(breaks, a, b, planned, carbon)
    ensures NoEndWithin(planned, points[i - 1], points[i]) && NoRowEndWithin(carbon, points[i - 1], points[i])
    ensures a <= points[i - 1] < points[i] <= b
  {
    var l, r := points[i - 1], points[i];
    assert l in points && r in points;
    forall p | Within(p, l, r)
      ensures p !in breaks && Within(p, a, b)
    {
      if p in points {
        NothingBetween(points, i, p);
      }
    }
  }

  // ---------- coverage ----------

  /** Every instant of [a, b) has a row. */
  ghost predicate CoversAll(carbon: seq<Row>, a: real, b: real) {
    forall x: real :: a <= x < b ==> RowAt(carbon, x).Some?
  }

  /** x, moved into [a, b]. */
  function Clamp(x: real, a: real, b: real): real {
    Max(a, Min(x, b))
  }

  lemma FrontBefore(carbon: seq<Row>)
    requires ProperRows(carbon) && carbon != []
    ensures ProperRows(carbon[..|carbon| - 1])
    ensures forall i :: 0 <= i < |carbon| - 1 ==> carbon[i].right <= carbon[|carbon| - 1].left
  {
  }

  /** What the rows before the last cover of [a, b) lies before the last row begins. */
  lemma FrontCovers(carbon: seq<Row>, a: real, b: real)
    requires ProperRows(carbon) && carbon != [] && a <= b
    ensures var front, m := carbon[..|carbon| - 1], Clamp(carbon[|carbon| - 1].left, a, b);
            a <= m <= b && Covered(front, a, b) == Covered(front, a, m)
    ensures Overlap(carbon[|carbon| - 1], a, b) <= b - Clamp(carbon[|carbon| - 1].left, a, b)
  {
    hide Covered, Exposure;
    FrontBefore(carbon);
    var front, m := carbon[..|carbon| - 1], Clamp(carbon[|carbon| - 1].left, a, b);
    if m < b {
      ExposureAdds(front, a, m, b);
      NoExposure(front, m, b);
    }
  }

  lemma {:induction false} CoveredBounds(carbon: seq<Row>, a: real, b: real)
    requires ProperRows(carbon) && a <= b
    ensures 0.0 <= Covered(carbon, a, b) <= b - a
  {
    hide Overlap, Clamp, ProperRows;
    if carbon != [] {
      FrontBefore(carbon);
      FrontCovers(carbon, a, b);
      OverlapNonNegative(carbon[|carbon| - 1], a, b);
      CoveredBounds(carbon[..|carbon| - 1], a, Clamp(carbon[|carbon| - 1].left, a, b));
    }
  }

  lemma {:induction false} NoRowAfter(carbon: seq<Row>, x: real)
    requires forall i :: 0 <= i < |carbon| ==> carbon[i].right <= x
    ensures RowAt(carbon, x) == None
  {
    if carbon != [] {
      NoRowAfter(carbon[..|carbon| - 1], x);
    }
  }

  /** A table with a row at every instant of the window covers all of it. */
  lemma {:induction false} CoversAllCounts(carbon: seq<Row>, a: real, b: real)
    requires ProperRows(carbon) && a <= b && CoversAll(carbon, a, b)
    ensures Covered(carbon, a, b) == b - a
  {
    hide ProperRows, Exposure;
    if carbon == [] {
      assert a == b by {
        assert a < b ==> RowAt(carbon, a).Some?;
      }
    } else {
      var front, last := carbon[..|carbon| - 1], carbon[|carbon| - 1];
      FrontBefore(carbon);
      FrontCovers(carbon, a, b);
      var m := Clamp(last.left, a, b);
      if m < b && last.right < b {
        var x := Max(m, last.right);
        NoRowAfter(front, x);
        assert RowAt(carbon, x) == None;
      }
      forall x: real | a <= x < m
        ensures RowAt(front, x).Some?
      {
        assert RowAt(carbon, x).Some?;
      }
      CoversAllCounts(front, a, m);
    }
  }

  /** An instant without a row begins a stretch that no row covers. */
  lemma {:induction false} Gap(carbon: seq<Row>, x: real, b: real) returns (y: real)
    requires x < b && RowAt(carbon, x) == None && forall i :: 0 <= i < |carbon| ==> carbon[i].left < carbon[i].right
    ensures x < y <= b && Covered(carbon, x, y) == 0.0
  {
    hide Exposure;
    y := b;
    if carbon != [] {
      var front, last := carbon[..|carbon| - 1], carbon[|carbon| - 1];
      var z := Gap(front, x, b);
      y := if last.right <= x then z else Min(z, last.left);
      ExposureAdds(front, x, y, z);
      CoveredNonNegative(front, x, y);
      CoveredNonNegative(front, y, z);
    }
  }

  lemma {:induction false} CoveredNonNegative(carbon: seq<Row>, a: real, b: real)
    ensures Covered(carbon, a, b) >= 0.0
  {
    hide Overlap;
    if carbon != [] {
      CoveredNonNegative(carbon[..|carbon| - 1], a, b);
      OverlapNonNegative(carbon[|carbon| - 1], a, b);
    }
  }

  /** The covered length is the whole window exactly when every instant of it has a row. */
  lemma EveryInstantCovered(carbon: seq<Row>, a: real, b: real)
    requires ProperRows(carbon) && a <= b
    ensures Covered(carbon, a, b) == b - a <==> CoversAll(carbon, a, b)
  {
    hide Covered, Exposure, RowAt;
    if CoversAll(carbon, a, b) {
      CoversAllCounts(carbon, a, b);
    } else {
      var x: real :| a <= x < b && RowAt(carbon, x) == None;
      var y := Gap(carbon, x, b);
      ExposureAdds(carbon, a, x, b);
      ExposureAdds(carbon, x, y, b);
      CoveredBounds(carbon, a, x);
      CoveredBounds(carbon, y, b);
    }
  }

  // ---------- the cost of one job ----------

  /** The greatest value of the curve on [a, b), or the floor if that is greater. */
  ghost predicate IsPeak(f: real -> real, a: real, b: real, floor: real, peak: real) {
    && peak >= floor && (forall x: real :: a <= x < b ==> f(x) <= peak)
    && (peak == floor || exists x: real :: a <= x < b && f(x) == peak)
  }

  /** `Uncovered`: more than a millisecond of the run has no row; `NoRow`: a sampled instant has none. */
  datatype Costs = Uncovered | NoRow | Costs(capacity: real, node: real, mean: real, peak: real)

  /** The breakpoints of the rows, and the length covered. */
  method CollectRows(carbon: seq<Row>, a: real, b: real) returns (breaks: set<real>, covered: real)
    requires a <= b && forall row :: row in carbon ==> row.left < row.right
    ensures Breaks(breaks, a, b, [], carbon) && covered == Covered(carbon, a, b)
  {
    hide Overlap;
    breaks, covered := {a, b}, 0.0;
    for k := 0 to |carbon|
      invariant Breaks(breaks, a, b, [], carbon[..k]) && covered == Covered(carbon[..k], a, b)
    {
      var row := carbon[k];
      assert carbon[..k + 1][..k] == carbon[..k] && row in carbon;
      if row.right > a && row.left < b {
        covered := covered + Overlap(row, a, b);
        if Within(row.left, a, b) {
          breaks := breaks + {row.left};
        }
        if Within(row.right, a, b) {
          breaks := breaks + {row.right};
        }
      } else {
        OutsideRow(row, a, b);
      }
    }
    assert carbon[..|carbon|] == carbon;
  }

  /** The breakpoints of the jobs as well. */
  method CollectJobs(found: set<real>, carbon: seq<Row>, overlapping: seq<Item>, a: real, b: real)
    returns (breaks: set<real>)
    requires Breaks(found, a, b, [], carbon)
    ensures Breaks(breaks, a, b, overlapping, carbon)
  {
    breaks := found;
    for k := 0 to |overlapping|
      invariant Breaks(breaks, a, b, overlapping[..k], carbon)
    {
      if Within(overlapping[k].start, a, b) {
        breaks := breaks + {overlapping[k].start};
      }
      if Within(overlapping[k].end, a, b) {
        breaks := breaks + {overlapping[k].end};
      }
    }
    assert overlapping[..|overlapping|] == overlapping;
  }

  /** One cell's share of a cost: load, hours, intensity. */
  function CellCost(load: real, hours: real, level: real): real {
    load * hours * level
  }

  lemma PricedCell(load: real, level: real, seconds: real)
    ensures CellCost(load, seconds / 3600.0, level) == Times(Priced(load, level), seconds)
  {
  }

  /** `marginal_runtime_carbon_cost` of `job` against the jobs planned before it. The midpoint sweep is exact: costs and
      mean load are integrals over the run, the peak is the greatest load at any instant of it. It succeeds exactly when
      every instant of the run has a row: the coverage check lets a millisecond pass, the samples do not. */
  method MarginalCostOf(carbon: seq<Row>, planned: seq<Item>, job: Item) returns (r: Costs)
    requires ProperRows(carbon) && job.start <= job.end
    ensures r == Uncovered <==> Covered(carbon, job.start, job.end) + COVERAGE_SLACK_S < job.end - job.start
    ensures r.Costs? <==> CoversAll(carbon, job.start, job.end)
    ensures r.Costs? ==>
              && r.node == Integral(NodeMarginal(carbon, planned, job), job.start, job.end)
              && r.capacity == Integral(ClassMarginal(carbon, planned, job), job.start, job.end)
              && IsPeak(LoadCurve(planned, job), job.start, job.end, job.fraction, r.peak)
              && r.mean == if job.end > job.start
                           then Integral(LoadCurve(planned, job), job.start, job.end) / (job.end - job.start)
                           else r.peak
  {
    hide NodeLoad, ClassLoad, RowAt, Level, Priced, Capped, Weight, Times, Overlapping, Breaks, Covered, CoversAll,
         NodeMarginal, ClassMarginal, LoadCurve, MidSum, IsPeak, Cell, CellCost, ProperRows, Max, Increasing,
         Partition, NoEndWithin, NoRowEndWithin, Steady, Integral, Middle;
    var a, b := job.start, job.end;
    var overlapping := Overlapping(planned, a, b);
    RowsHaveLength(carbon);
    var found, covered := CollectRows(carbon, a, b);
    var breaks := CollectJobs(found, carbon, overlapping, a, b);
    EveryInstantCovered(carbon, a, b);
    if covered + COVERAGE_SLACK_S < b - a {
      return Uncovered;
    }
    ghost var f, g := NodeMarginal(carbon, planned, job), ClassMarginal(carbon, planned, job);
    ghost var h := LoadCurve(planned, job);
    var points := SortedPoints(breaks);
    BreakEnds(points, breaks, a, b, overlapping, carbon);
    PartitionParts(points, a, b);
    var node, capacity, weighted, peak := 0.0, 0.0, 0.0, job.fraction;
    StartOfSweep(f, g, h, points, job.fraction);
    NothingToCover(carbon, a);
    for i := 1 to |points|
      invariant node == MidSum(f, points[..i]) && capacity == MidSum(g, points[..i])
      invariant weighted == MidSum(h, points[..i])
      invariant IsPeak(h, a, points[i - 1], job.fraction, peak) && CoversAll(carbon, a, points[i - 1])
    {
      var left, right := points[i - 1], points[i];
      CellsClear(points, breaks, a, b, overlapping, carbon, i);
      var middle := Middle(left, right);
      MiddleWithin(left, right);
      if RowAt(carbon, middle).None? {
        NotCovered(carbon, a, b, middle);
        return NoRow;
      }
      CoverStep(carbon, a, left, right, middle);
      OverlappingLoads(planned, a, b, job.class_, middle);
      var intensity := Level(carbon, middle);
      var existingClass := ClassLoad(overlapping, job.class_, middle);
      var existingNode := NodeLoad(overlapping, middle);
      var marginalClass := Capped(existingClass + job.fraction) - Capped(existingClass);
      var marginalNode := Capped(existingNode + job.nodeFraction) - Capped(existingNode);
      var seconds := right - left;
      CellValues(carbon, planned, job, left, right);
      PricedCell(marginalNode, intensity, seconds);
      PricedCell(Times(Weight(job.class_), marginalClass), intensity, seconds);
      MidSumStep(f, points, i);
      MidSumStep(g, points, i);
      MidSumStep(h, points, i);
      OverlappingSteady(planned, job, a, b, left, right);
      PeakStep(h, a, left, right, job.fraction, peak);
      capacity := capacity + CellCost(Times(Weight(job.class_), marginalClass), seconds / 3600.0, intensity);
      node := node + CellCost(marginalNode, seconds / 3600.0, intensity);
      weighted := weighted + Times(existingClass + job.fraction, seconds);
      peak := Max(peak, existingClass + job.fraction);
    }
    assert points[..|points|] == points;
    SweepIsExact(carbon, planned, job, points, breaks, overlapping);
    r := Costs(capacity, node, if b > a then weighted / (b - a) else peak, peak);
  }

  lemma RowsHaveLength(carbon: seq<Row>)
    requires ProperRows(carbon)
    ensures forall row :: row in carbon ==> row.left < row.right
  {
  }

  lemma PartitionParts(points: seq<real>, a: real, b: real)
    requires Partition(points, a, b)
    ensures points != [] && points[0] == a && points[|points| - 1] == b && Increasing(points)
  {
  }

  lemma NothingToCover(carbon: seq<Row>, a: real)
    ensures CoversAll(carbon, a, a)
  {
  }

  lemma NotCovered(carbon: seq<Row>, a: real, b: real, x: real)
    requires a <= x < b && RowAt(carbon, x).None?
    ensures !CoversAll(carbon, a, b)
  {
    hide RowAt;
  }

  /** One sample speaks for its whole cell. */
  lemma CoverStep(carbon: seq<Row>, a: real, l: real, r: real, x: real)
    requires CoversAll(carbon, a, l) && NoRowEndWithin(carbon, l, r) && l <= x < r && RowAt(carbon, x).Some?
    ensures CoversAll(carbon, a, r)
  {
    hide RowAt, NoRowEndWithin;
    LevelSteady(carbon, l, r, x);
    forall y: real | a <= y < r
      ensures RowAt(carbon, y).Some?
    {
      if y >= l {
        LevelSteady(carbon, l, r, y);
      }
    }
  }

  lemma BreakEnds(points: seq<real>, breaks: set<real>, a: real, b: real, planned: seq<Item>, carbon: seq<Row>)
    requires Increasing(points) && (forall x :: x in points <==> x in breaks) && a <= b
    requires Breaks(breaks, a, b, planned, carbon)
    ensures Partition(points, a, b)
  {
    EndsOfSorted(points, a, b);
  }

  lemma StartOfSweep(f: real -> real, g: real -> real, h: real -> real, points: seq<real>, floor: real)
    requires points != []
    ensures MidSum(f, points[..1]) == 0.0 && MidSum(g, points[..1]) == 0.0 && MidSum(h, points[..1]) == 0.0
    ensures IsPeak(h, points[0], points[0], floor, floor)
  {
  }

  lemma MidSumStep(f: real -> real, points: seq<real>, i: nat)
    requires 0 < i < |points|
    ensures MidSum(f, points[..i + 1]) == MidSum(f, points[..i]) + Cell(f, points[i - 1], points[i])
  {
    hide Cell;
    assert points[..i + 1][..i] == points[..i];
  }

  lemma CellValues(carbon: seq<Row>, planned: seq<Item>, job: Item, l: real, r: real)
    ensures var x, seconds := Middle(l, r), r - l;
            var node, load := NodeLoad(planned, x), ClassLoad(planned, job.class_, x);
            && Cell(NodeMarginal(carbon, planned, job), l, r)
                 == Times(Priced(Capped(node + job.nodeFraction) - Capped(node), Level(carbon, x)), seconds)
            && Cell(ClassMarginal(carbon, planned, job), l, r)
                 == Times(Priced(Times(Weight(job.class_), Capped(load + job.fraction) - Capped(load)),
                                 Level(carbon, x)),
                          seconds)
            && Cell(LoadCurve(planned, job), l, r) == Times(load + job.fraction, seconds)
            && LoadCurve(planned, job)(x) == load + job.fraction
  {
    hide NodeLoad, ClassLoad, Level, Priced, Capped, Weight, Times, Middle;
  }

  /** Ends of jobs that do not overlap the window are not inside it, so the cell is clear of all jobs' ends. */
  lemma OverlappingSteady(planned: seq<Item>, job: Item, a: real, b: real, l: real, r: real)
    requires NoEndWithin(Overlapping(planned, a, b), l, r) && a <= l < r <= b
    ensures Steady(LoadCurve(planned, job), l, r)
  {
    hide ClassLoad, NodeLoad, NoEndWithin, Overlapping;
    var f := LoadCurve(planned, job);
    forall x: real | l <= x < r
      ensures f(x) == f(l)
    {
      OverlappingLoads(planned, a, b, job.class_, x);
      OverlappingLoads(planned, a, b, job.class_, l);
      LoadsSteady(Overlapping(planned, a, b), job.class_, l, r, x);
    }
  }

  lemma PeakStep(f: real -> real, a: real, l: real, r: real, floor: real, peak: real)
    requires IsPeak(f, a, l, floor, peak) && Steady(f, l, r) && a <= l < r
    ensures IsPeak(f, a, r, floor, Max(peak, f(Middle(l, r))))
  {
    MiddleWithin(l, r);
    var x := Middle(l, r);
    assert f(x) == f(l);
    var next := Max(peak, f(x));
    forall y: real | a <= y < r
      ensures f(y) <= next
    {
      if y >= l {
        assert f(y) == f(l);
      }
    }
    if next != floor && next == f(x) {
      assert a <= x < r && f(x) == next;
    } else if next != floor {
      var y: real :| a <= y < l && f(y) == peak;
      assert a <= y < r && f(y) == next;
    }
  }

  lemma CurvesSteadyOverlapping(carbon: seq<Row>, planned: seq<Item>, job: Item, a: real, b: real, l: real, r: real)
    requires NoEndWithin(Overlapping(planned, a, b), l, r) && NoRowEndWithin(carbon, l, r) && a <= l < r <= b
    ensures Steady(NodeMarginal(carbon, planned, job), l, r) && Steady(ClassMarginal(carbon, planned, job), l, r)
  {
    hide NodeLoad, ClassLoad, RowAt, Priced, Capped, Weight, Times, NoEndWithin, NoRowEndWithin, Overlapping;
    var f, g := NodeMarginal(carbon, planned, job), ClassMarginal(carbon, planned, job);
    forall x: real | l <= x < r
      ensures f(x) == f(l) && g(x) == g(l)
    {
      OverlappingLoads(planned, a, b, job.class_, x);
      OverlappingLoads(planned, a, b, job.class_, l);
      LoadsSteady(Overlapping(planned, a, b), job.class_, l, r, x);
      LevelSteady(carbon, l, r, x);
    }
  }

  lemma SweepIsExact(carbon: seq<Row>, planned: seq<Item>, job: Item, points: seq<real>, breaks: set<real>,
                     overlapping: seq<Item>)
    requires Partition(points, job.start, job.end) && (forall x :: x in points <==> x in breaks)
    requires overlapping == Overlapping(planned, job.start, job.end)
    requires Breaks(breaks, job.start, job.end, overlapping, carbon)
    ensures MidSum(NodeMarginal(carbon, planned, job), points)
            == Integral(NodeMarginal(carbon, planned, job), job.start, job.end)
    ensures MidSum(ClassMarginal(carbon, planned, job), points)
            == Integral(ClassMarginal(carbon, planned, job), job.start, job.end)
    ensures MidSum(LoadCurve(planned, job), points) == Integral(LoadCurve(planned, job), job.start, job.end)
  {
    hide NodeMarginal, ClassMarginal, LoadCurve, Breaks, MidSum, Integral, Steady, NoEndWithin, NoRowEndWithin,
         Overlapping;
    var a, b := job.start, job.end;
    forall i | 0 < i < |points|
      ensures Steady(NodeMarginal(carbon, planned, job), points[i - 1], points[i])
      ensures Steady(ClassMarginal(carbon, planned, job), points[i - 1], points[i])
      ensures Steady(LoadCurve(planned, job), points[i - 1], points[i])
    {
      CellsClear(points, breaks, a, b, overlapping, carbon, i);
      CurvesSteadyOverlapping(carbon, planned, job, a, b, points[i - 1], points[i]);
      OverlappingSteady(planned, job, a, b, points[i - 1], points[i]);
    }
    SweepExact(NodeMarginal(carbon, planned, job), points);
    SweepExact(ClassMarginal(carbon, planned, job), points);
    SweepExact(LoadCurve(planned, job), points);
  }
}
