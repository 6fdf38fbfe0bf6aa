/** What the rates behind the marginal costs mean at one instant. */
module CarbonRates {
  import opened Basics
  import opened Intensity
  import opened Sweep
  import opened MarginalCost
  import opened PlanCarbon

  // ---------- loads ----------

  /** Only the jobs that run at the instant load the nodes: one that has ended or not begun may be left out, one that
      runs adds its fractions, to its own class only, wherever it stands in the plan. */
  lemma {:induction false} OnlyRunningLoad(before: seq<Item>, item: Item, after: seq<Item>, c: Class, x: real)
    ensures var idle := x < item.start || x >= item.end;
            && NodeLoad(before + [item] + after, x)
                 == NodeLoad(before + after, x) + (if idle then 0.0 else item.nodeFraction)
            && ClassLoad(before + [item] + after, c, x)
                 == ClassLoad(before + after, c, x) + (if idle || item.class_ != c then 0.0 else item.fraction)
    ensures NodeLoad([], x) == 0.0 && ClassLoad([], c, x) == 0.0
    decreases |after|
  {
    if after == [] {
      assert before + [item] + after == before + [item] && before + after == before;
      assert (before + [item])[..|before|] == before;
    } else {
      var n := |after| - 1;
      OnlyRunningLoad(before, item, after[..n], c, x);
      assert (before + [item] + after)[..|before| + 1 + n] == before + [item] + after[..n];
      assert (before + after)[..|before| + n] == before + after[..n];
    }
  }

  // ---------- what a job adds ----------

  /** The part of `fraction` that still fits below full load. */
  ghost function Room(load: real, fraction: real): real {
    if load + fraction <= 1.0 then fraction else if load <= 1.0 then 1.0 - load else 0.0
  }

  /** The intensity at an instant some row of the ordered table covers. */
  lemma LevelExactly(carbon: seq<Row>, x: real, i: nat)
    requires Ordered(carbon) && i < |carbon| && carbon[i].left <= x < carbon[i].right
    ensures Level(carbon, x) == carbon[i].level
  {
    RowAtExactly(carbon, x, i);
  }

  lemma {:induction false} RowAtExactly(carbon: seq<Row>, x: real, i: nat)
    requires Ordered(carbon) && i < |carbon| && carbon[i].left <= x < carbon[i].right
    ensures RowAt(carbon, x) == Some(carbon[i])
  {
    if i < |carbon| - 1 {
      RowAtExactly(carbon[..|carbon| - 1], x, i);
    }
  }

  /** A job's node rate: the intensity times what still fits of its nodes below full load, per hour. */
  lemma NodeRate(carbon: seq<Row>, planned: seq<Item>, job: Item, x: real)
    requires job.nodeFraction >= 0.0
    ensures NodeMarginal(carbon, planned, job)(x) * 3600.0
            == Room(NodeLoad(planned, x), job.nodeFraction) * Level(carbon, x)
  {
    hide NodeLoad, Level;
  }

  /** A job's capacity rate: the same in its class, weighted by the class's share of the 202 nodes. */
  lemma ClassRate(carbon: seq<Row>, planned: seq<Item>, job: Item, x: real)
    requires job.fraction >= 0.0
    ensures ClassMarginal(carbon, planned, job)(x) * 3600.0 * 202.0
            == (match job.class_ case Cpu => 174.0 case A100 => 18.0 case H100 => 6.0 case H100Nvl => 4.0)
               * Room(ClassLoad(planned, job.class_, x), job.fraction) * Level(carbon, x)
  {
    hide ClassLoad, Level;
    WeightExactly(job.class_);
    var room := Room(ClassLoad(planned, job.class_, x), job.fraction);
    assert ClassMarginal(carbon, planned, job)(x) == Priced(Times(Weight(job.class_), room), Level(carbon, x));
    RateBack(Weight(job.class_), Nodes(job.class_) as real, room, Level(carbon, x));
  }

  lemma WeightExactly(c: Class)
    ensures Weight(c) * 202.0 == Nodes(c) as real
    ensures Nodes(c) == match c case Cpu => 174 case A100 => 18 case H100 => 6 case H100Nvl => 4
  {
  }

  lemma RateBack(w: real, nodes: real, room: real, level: real)
    requires w * 202.0 == nodes
    ensures Priced(Times(w, room), level) * 3600.0 * 202.0 == nodes * room * level
  {
    assert Priced(Times(w, room), level) * 3600.0 == w * room * level;
    assert w * room * level * 202.0 == (w * 202.0) * room * level;
  }

  /** The plan as a whole: the load, up to full load, times the intensity; classes weighted by their nodes. */
  lemma TotalRates(carbon: seq<Row>, plan: seq<Item>, c: Class, x: real)
    ensures NodeTotal(carbon, plan)(x) * 3600.0
            == (if NodeLoad(plan, x) > 1.0 then 1.0 else NodeLoad(plan, x)) * Level(carbon, x)
    ensures ClassTotal(carbon, plan, c)(x) * 3600.0 * 202.0
            == (match c case Cpu => 174.0 case A100 => 18.0 case H100 => 6.0 case H100Nvl => 4.0)
               * (if ClassLoad(plan, c, x) > 1.0 then 1.0 else ClassLoad(plan, c, x)) * Level(carbon, x)
  {
    hide ClassLoad, NodeLoad, Level;
    WeightExactly(c);
    RateBack(Weight(c), Nodes(c) as real, Capped(ClassLoad(plan, c, x)), Level(carbon, x));
  }
}
