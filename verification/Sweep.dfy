/** Breakpoint sweeps: a step curve sampled at the midpoints between its breakpoints is integrated exactly. */
module Sweep {
  import opened Basics

  function Middle(l: real, r: real): real {
    (l + r) / 2.0
  }

  function Cell(f: real -> real, l: real, r: real): real {
    Times(f(Middle(l, r)), r - l)
  }

  /** The sum over the cells between consecutive points, each sampled at its midpoint. */
  function MidSum(f: real -> real, points: seq<real>): real {
    if |points| < 2 then 0.0
    else MidSum(f, points[..|points| - 1]) + Cell(f, points[|points| - 2], points[|points| - 1])
  }

  predicate Increasing(points: seq<real>) {
    forall i :: 0 < i < |points| ==> points[i - 1] < points[i]
  }

  /** The curve has one value on [l, r). */
  ghost predicate Steady(f: real -> real, l: real, r: real) {
    forall x: real :: l <= x < r ==> f(x) == f(l)
  }

  ghost predicate SteadyBetween(f: real -> real, points: seq<real>) {
    forall i :: 0 < i < |points| ==> Steady(f, points[i - 1], points[i])
  }

  // ---------- the integral of a step curve ----------

  predicate Partition(points: seq<real>, a: real, b: real) {
    points != [] && points[0] == a && points[|points| - 1] == b && Increasing(points)
  }

  /** On [a, b) the curve is a step curve that changes only at the points. */
  ghost predicate StepsAt(f: real -> real, points: seq<real>, a: real, b: real) {
    Partition(points, a, b) && SteadyBetween(f, points)
  }

  function Step(f: real -> real, l: real, r: real): real {
    Times(f(l), r - l)
  }

  /** The area under the steps. */
  function StepSum(f: real -> real, points: seq<real>): real {
    if |points| < 2 then 0.0
    else StepSum(f, points[..|points| - 1]) + Step(f, points[|points| - 2], points[|points| - 1])
  }

  /** The integral over [a, b): the area under the steps, in any partition that shows them. */
  ghost function Integral(f: real -> real, a: real, b: real): real {
    if exists points :: StepsAt(f, points, a, b) then
      var points :| StepsAt(f, points, a, b);
      StepSum(f, points)
    else 0.0
  }

  lemma FrontSteps(f: real -> real, points: seq<real>, a: real, b: real)
    requires StepsAt(f, points, a, b) && |points| >= 2
    ensures var n := |points| - 1;
            StepsAt(f, points[..n], a, points[n - 1]) && Steady(f, points[n - 1], b) && points[n - 1] < b
  {
    hide Steady;
    var n := |points| - 1;
    forall i | 0 < i < n
      ensures Steady(f, points[..n][i - 1], points[..n][i])
    {
      assert Steady(f, points[i - 1], points[i]);
    }
  }

  lemma OneMoreStep(f: real -> real, points: seq<real>, a: real, b: real, c: real)
    requires StepsAt(f, points, a, b) && b < c && Steady(f, b, c)
    ensures StepsAt(f, points + [c], a, c) && StepSum(f, points + [c]) == StepSum(f, points) + Step(f, b, c)
  {
    hide Steady, Step;
    var all := points + [c];
    assert all[..|points|] == points;
    forall i | 0 < i < |all|
      ensures Steady(f, all[i - 1], all[i])
    {
      if i < |points| {
        assert Steady(f, points[i - 1], points[i]);
      }
    }
  }

  lemma ShortPartition(points: seq<real>, a: real, b: real)
    requires Partition(points, a, b)
    ensures |points| >= 2 <==> a < b
  {
    if |points| >= 2 {
      PointsGrow(points, 0, |points| - 1);
    }
  }

  lemma CutStep(f: real -> real, l: real, m: real, r: real)
    requires l < m < r && Steady(f, l, r)
    ensures Steady(f, l, m) && Steady(f, m, r) && Step(f, l, r) == Step(f, l, m) + Step(f, m, r)
  {
    hide Times;
    assert f(m) == f(l);
    TimesAdds(f(l), m - l, r - m);
  }

  /** Every partition that shows the steps gives the same area. */
  lemma {:induction false} SameArea(f: real -> real, p: seq<real>, q: seq<real>, a: real, b: real)
    requires StepsAt(f, p, a, b) && StepsAt(f, q, a, b)
    ensures StepSum(f, p) == StepSum(f, q)
    decreases |p| + |q|
  {
    hide Steady, Step, StepsAt, Increasing;
    assert Partition(p, a, b) && Partition(q, a, b) by {
      PartitionOf(f, p, a, b);
      PartitionOf(f, q, a, b);
    }
    ShortPartition(p, a, b);
    ShortPartition(q, a, b);
    if a < b {
      FrontSteps(f, p, a, b);
      FrontSteps(f, q, a, b);
      var front, back := p[..|p| - 1], q[..|q| - 1];
      var l, m := p[|p| - 2], q[|q| - 2];
      if l == m {
        SameArea(f, front, back, a, l);
      } else if l < m {
        CutStep(f, l, m, b);
        OneMoreStep(f, front, a, l, m);
        SameArea(f, front + [m], back, a, m);
      } else {
        CutStep(f, m, l, b);
        OneMoreStep(f, back, a, m, l);
        SameArea(f, front, back + [l], a, l);
      }
    }
  }

  lemma PartitionOf(f: real -> real, points: seq<real>, a: real, b: real)
    requires StepsAt(f, points, a, b)
    ensures Partition(points, a, b)
  {
  }

  lemma IntegralOf(f: real -> real, points: seq<real>, a: real, b: real)
    requires StepsAt(f, points, a, b)
    ensures Integral(f, a, b) == StepSum(f, points)
  {
    hide StepsAt;
    var chosen :| StepsAt(f, chosen, a, b) && Integral(f, a, b) == StepSum(f, chosen);
    SameArea(f, points, chosen, a, b);
  }

  lemma {:induction false} PointsGrow(points: seq<real>, i: nat, j: nat)
    requires Increasing(points) && i < j < |points|
    ensures points[i] < points[j]
    decreases j - i
  {
    if i + 1 < j {
      PointsGrow(points, i, j - 1);
    }
  }

  // ---------- the sweep ----------

  lemma MiddleWithin(l: real, r: real)
    requires l < r
    ensures l < Middle(l, r) < r
  {
  }

  lemma {:induction false} MidIsStep(f: real -> real, points: seq<real>)
    requires Increasing(points) && SteadyBetween(f, points)
    ensures MidSum(f, points) == StepSum(f, points)
  {
    hide Middle, Times, Steady;
    if |points| >= 2 {
      var n := |points| - 1;
      var l, r := points[n - 1], points[n];
      assert SteadyBetween(f, points[..n]);
      MidIsStep(f, points[..n]);
      MiddleWithin(l, r);
      SteadyAt(f, l, r, Middle(l, r));
    }
  }

  lemma SteadyAt(f: real -> real, l: real, r: real, x: real)
    requires Steady(f, l, r) && l <= x < r
    ensures f(x) == f(l)
  {
  }

  /** The midpoint sweep of a curve that is steady between the points is its exact integral. */
  lemma SweepExact(f: real -> real, points: seq<real>)
    requires points != [] && Increasing(points) && SteadyBetween(f, points)
    ensures MidSum(f, points) == Integral(f, points[0], points[|points| - 1])
  {
    hide Integral, MidSum, StepSum, Steady;
    MidIsStep(f, points);
    IntegralOf(f, points, points[0], points[|points| - 1]);
  }

  // ---------- curves with finitely many breakpoints ----------

  predicate Within(p: real, l: real, r: real) {
    l < p < r
  }

  /** No breakpoint lies strictly inside [l, r). */
  predicate Clear(breaks: set<real>, l: real, r: real) {
    forall p :: p in breaks ==> !Within(p, l, r)
  }

  /** The curve changes at the breakpoints only. */
  ghost predicate Bends(f: real -> real, breaks: set<real>) {
    forall l: real, r: real :: l < r && Clear(breaks, l, r) ==> Steady(f, l, r)
  }

  ghost predicate ClearBetween(breaks: set<real>, points: seq<real>) {
    forall i :: 0 < i < |points| ==> Clear(breaks, points[i - 1], points[i])
  }

  lemma PartitionsJoin(p: seq<real>, q: seq<real>, a: real, b: real, c: real)
    requires Partition(p, a, b) && Partition(q, b, c)
    ensures Partition(p + q[1..], a, c)
    ensures forall i :: 0 < i < |p + q[1..]| ==>
              var all := p + q[1..];
              if i < |p| then all[i - 1] == p[i - 1] && all[i] == p[i]
              else all[i - 1] == q[i - |p|] && all[i] == q[i - |p| + 1]
  {
    var all := p + q[1..];
    forall i | 0 < i < |all|
      ensures all[i - 1] < all[i]
      ensures if i < |p| then all[i - 1] == p[i - 1] && all[i] == p[i]
              else all[i - 1] == q[i - |p|] && all[i] == q[i - |p| + 1]
    {
      if i >= |p| {
        var k := i - |p| + 1;
        assert all[i] == q[k] && q[k - 1] < q[k];
      }
    }
  }

  /** Every window has a partition without breakpoints inside its cells. */
  lemma {:induction false} GridOf(breaks: set<real>, a: real, b: real) returns (points: seq<real>)
    requires a <= b
    ensures Partition(points, a, b) && ClearBetween(breaks, points)
    decreases |breaks|
  {
    if a == b {
      points := [a];
    } else if Clear(breaks, a, b) {
      points := [a, b];
    } else {
      var p :| p in breaks && Within(p, a, b);
      var rest := breaks - {p};
      var left := GridOf(rest, a, p);
      var right := GridOf(rest, p, b);
      points := left + right[1..];
      PartitionsJoin(left, right, a, p, b);
      CellsBeside(rest, left, a, p, p);
      CellsBeside(rest, right, p, b, p);
      assert breaks == rest + {p};
      forall i | 0 < i < |points|
        ensures Clear(breaks, points[i - 1], points[i])
      {
        if i >= |left| {
          var k := i - |left| + 1;
          assert Clear(rest + {p}, right[k - 1], right[k]);
        } else {
          assert Clear(rest + {p}, left[i - 1], left[i]);
        }
      }
    }
  }

  /** A breakpoint at either end of a partition is inside none of its cells. */
  lemma CellsBeside(breaks: set<real>, points: seq<real>, a: real, b: real, p: real)
    requires Partition(points, a, b) && ClearBetween(breaks, points) && (p <= a || b <= p)
    ensures ClearBetween(breaks + {p}, points)
  {
    forall i | 0 < i < |points|
      ensures Clear(breaks + {p}, points[i - 1], points[i])
    {
      assert Clear(breaks, points[i - 1], points[i]);
      if i > 1 {
        PointsGrow(points, 0, i - 1);
      }
      if i < |points| - 1 {
        PointsGrow(points, i, |points| - 1);
      }
    }
  }

  lemma BendsSteps(f: real -> real, breaks: set<real>, points: seq<real>, a: real, b: real)
    requires Bends(f, breaks) && Partition(points, a, b) && ClearBetween(breaks, points)
    ensures StepsAt(f, points, a, b)
  {
    hide Steady, Clear;
    forall i | 0 < i < |points|
      ensures Steady(f, points[i - 1], points[i])
    {
      assert Clear(breaks, points[i - 1], points[i]) && points[i - 1] < points[i];
    }
  }

  // ---------- laws of the integral ----------

  lemma {:induction false} StepSumJoin(f: real -> real, p: seq<real>, q: seq<real>)
    requires p != [] && q != [] && p[|p| - 1] == q[0]
    ensures StepSum(f, p + q[1..]) == StepSum(f, p) + StepSum(f, q)
    decreases |q|
  {
    hide Step;
    if |q| == 1 {
      assert p + q[1..] == p;
    } else {
      var front := q[..|q| - 1];
      StepSumJoin(f, p, front);
      assert (p + q[1..])[..|p + q[1..]| - 1] == p + front[1..];
    }
  }

  lemma IntegralAdds(f: real -> real, breaks: set<real>, a: real, b: real, c: real)
    requires Bends(f, breaks) && a <= b <= c
    ensures Integral(f, a, b) + Integral(f, b, c) == Integral(f, a, c)
  {
    hide Bends, Integral, StepSum, Clear, Steady;
    var p := GridOf(breaks, a, b);
    var q := GridOf(breaks, b, c);
    PartitionsJoin(p, q, a, b, c);
    var all := p + q[1..];
    forall i | 0 < i < |all|
      ensures Clear(breaks, all[i - 1], all[i])
    {
      if i >= |p| {
        var k := i - |p| + 1;
        assert Clear(breaks, q[k - 1], q[k]);
      } else {
        assert Clear(breaks, p[i - 1], p[i]);
      }
    }
    BendsSteps(f, breaks, p, a, b);
    BendsSteps(f, breaks, q, b, c);
    BendsSteps(f, breaks, all, a, c);
    IntegralOf(f, p, a, b);
    IntegralOf(f, q, b, c);
    IntegralOf(f, all, a, c);
    StepSumJoin(f, p, q);
  }

  lemma {:induction false} StepSumPlus(
    f: real -> real, g: real -> real, h: real -> real, points: seq<real>, a: real, b: real)
    requires Partition(points, a, b) && forall x: real :: a <= x < b ==> f(x) == g(x) + h(x)
    ensures StepSum(f, points) == StepSum(g, points) + StepSum(h, points)
    decreases |points|
  {
    if |points| >= 2 {
      var n := |points| - 1;
      if n > 1 {
        PointsGrow(points, 0, n - 1);
      }
      StepSumPlus(f, g, h, points[..n], a, points[n - 1]);
      var l, r := points[n - 1], points[n];
      assert f(l) == g(l) + h(l);
      StepPlus(f(l), g(l), h(l), r - l);
    }
  }

  lemma StepPlus(x: real, y: real, z: real, w: real)
    requires x == y + z
    ensures Times(x, w) == Times(y, w) + Times(z, w)
  {
  }

  /** The integral of a sum. */
  lemma IntegralPlus(f: real -> real, g: real -> real, h: real -> real, breaks: set<real>, a: real, b: real)
    requires a <= b && Bends(g, breaks) && Bends(h, breaks)
    requires forall x: real :: a <= x < b ==> f(x) == g(x) + h(x)
    ensures Integral(f, a, b) == Integral(g, a, b) + Integral(h, a, b)
  {
    hide Bends, Integral, StepSum, Clear;
    var points := GridOf(breaks, a, b);
    BendsSteps(g, breaks, points, a, b);
    BendsSteps(h, breaks, points, a, b);
    SumSteps(f, g, h, points, a, b);
    IntegralOf(f, points, a, b);
    IntegralOf(g, points, a, b);
    IntegralOf(h, points, a, b);
    StepSumPlus(f, g, h, points, a, b);
  }

  lemma SumSteps(f: real -> real, g: real -> real, h: real -> real, points: seq<real>, a: real, b: real)
    requires StepsAt(g, points, a, b) && StepsAt(h, points, a, b)
    requires forall x: real :: a <= x < b ==> f(x) == g(x) + h(x)
    ensures StepsAt(f, points, a, b)
  {
    forall i | 0 < i < |points|
      ensures Steady(f, points[i - 1], points[i])
    {
      if i > 1 {
        PointsGrow(points, 0, i - 1);
      }
      if i < |points| - 1 {
        PointsGrow(points, i, |points| - 1);
      }
      assert Steady(g, points[i - 1], points[i]) && Steady(h, points[i - 1], points[i]);
    }
  }

  function Zero(): real -> real {
    (x: real) => 0.0
  }

  /** A constant curve, on the window. */
  lemma IntegralConstant(f: real -> real, c: real, a: real, b: real)
    requires a <= b && forall x: real :: a <= x < b ==> f(x) == c
    ensures Integral(f, a, b) == Times(c, b - a)
  {
    hide Integral;
    var points := if a == b then [a] else [a, b];
    assert StepsAt(f, points, a, b);
    IntegralOf(f, points, a, b);
    if a < b {
      assert points[..1] == [a];
      assert StepSum(f, [a]) == 0.0;
    }
  }

  /** Curves that agree on the window have the same integral over it. */
  lemma IntegralSame(f: real -> real, g: real -> real, breaks: set<real>, a: real, b: real)
    requires a <= b && Bends(g, breaks) && forall x: real :: a <= x < b ==> f(x) == g(x)
    ensures Integral(f, a, b) == Integral(g, a, b)
  {
    hide Bends, Integral;
    var zero := Zero();
    assert Bends(zero, breaks) by {
      ZeroBends(breaks);
    }
    IntegralPlus(f, g, zero, breaks, a, b);
    IntegralConstant(zero, 0.0, a, b);
  }

  lemma ZeroBends(breaks: set<real>)
    ensures Bends(Zero(), breaks)
  {
  }

  /** A curve that grows by h on [s, e) and nowhere else. */
  lemma IntegralGrows(
    f: real -> real, g: real -> real, h: real -> real, breaks: set<real>, lo: real, s: real, e: real, hi: real)
    requires lo <= s <= e <= hi && Bends(f, breaks) && Bends(g, breaks) && Bends(h, breaks)
    requires forall x: real :: s <= x < e ==> f(x) == g(x) + h(x)
    requires forall x: real :: x < s || e <= x ==> f(x) == g(x)
    ensures Integral(f, lo, hi) == Integral(g, lo, hi) + Integral(h, s, e)
  {
    hide Bends, Integral;
    IntegralAdds(f, breaks, lo, s, hi);
    IntegralAdds(f, breaks, s, e, hi);
    IntegralAdds(g, breaks, lo, s, hi);
    IntegralAdds(g, breaks, s, e, hi);
    IntegralSame(f, g, breaks, lo, s);
    IntegralSame(f, g, breaks, e, hi);
    IntegralPlus(f, g, h, breaks, s, e);
  }

  // ---------- sorting breakpoints ----------

  /** `sorted` of a set of breakpoints. */
  method SortedPoints(s: set<real>) returns (points: seq<real>)
    ensures Increasing(points) && (forall x :: x in points <==> x in s)
  {
    points := [];
    var rest := s;
    while rest != {}
      invariant Increasing(points) && rest <= s
      invariant forall x :: x in points <==> x in s && x !in rest
      invariant forall x, y :: x in points && y in rest ==> x < y
      decreases |rest|
    {
      var least := Least(rest);
      if points != [] {
        assert points[|points| - 1] in points;
      }
      points := points + [least];
      rest := rest - {least};
    }
  }

  method Least(s: set<real>) returns (m: real)
    requires s != {}
    ensures m in s && forall x :: x in s ==> m <= x
  {
    ghost var member := Member(s);
    m :| m in s;
    var rest := s - {m};
    while rest != {}
      invariant m in s && rest <= s && forall x :: x in s && x !in rest ==> m <= x
      decreases |rest|
    {
      ghost var other := Member(rest);
      var x :| x in rest;
      if x < m {
        m := x;
      }
      rest := rest - {x};
    }
  }

  /** Sorted breakpoints of [a, b] are a partition of it. */
  lemma EndsOfSorted(points: seq<real>, a: real, b: real)
    requires Increasing(points) && a in points && b in points && a <= b
    requires forall x :: x in points ==> a <= x <= b
    ensures Partition(points, a, b)
  {
    var i, j :| 0 <= i < |points| && 0 <= j < |points| && points[i] == a && points[j] == b;
    assert points[0] in points && points[|points| - 1] in points;
    if i > 0 {
      PointsGrow(points, 0, i);
    }
    if j < |points| - 1 {
      PointsGrow(points, j, |points| - 1);
    }
  }
}
