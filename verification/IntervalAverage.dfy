/** `add_interval_average` of `build_history_quantile_model.py`: a difference array and a cumulative sum against the
    plain overlap of every interval with every bin. */
module IntervalAverage {
  import opened Basics

  // ---------- the plain definition, in units of one bin ----------

  /** Length of [u, v) inside bin i. */
  function UnitOverlap(u: real, v: real, i: nat): real {
    Max(Min(v, (i + 1) as real) - Max(u, i as real), 0.0)
  }

  datatype Interval = Interval(start: real, end: real, weight: real)

  predicate Fits(x: Interval, count: nat, step: real)
    requires step > 0.0
  {
    0.0 <= x.start <= x.end <= count as real * step
  }

  /** What the intervals add to bin i: weight times overlap, as a share of the bin's length. */
  function Added(xs: seq<Interval>, step: real, i: nat): real
    requires step > 0.0
  {
    if xs == [] then 0.0
    else
      var last := xs[|xs| - 1];
      Added(xs[..|xs| - 1], step, i) + Times(last.weight, UnitOverlap(last.start / step, last.end / step, i))
  }

  // ---------- the algorithm's pieces ----------

  function Ceiling(x: real): int {
    -((-x).Floor)
  }

  function Clip(n: int, count: nat): (r: nat)
    requires count > 0
    ensures r < count
  {
    if n < 0 then 0 else if n > count - 1 then count - 1 else n
  }

  function StartBin(u: real, count: nat): (r: nat)
    requires count > 0
    ensures r < count
  {
    Clip(u.Floor, count)
  }

  function EndBin(v: real, count: nat): (r: nat)
    requires count > 0
    ensures r < count
  {
    Clip(Ceiling(v) - 1, count)
  }

  /** The parts of an interval's contribution: inside one bin, in its first bin, in its last bin, the jump it leaves in
      the difference array, and the running sum of that jump. */
  datatype Part = Same | First | Last | Jump | Step

  function Share(part: Part, u: real, v: real, count: nat, i: nat): real
    requires count > 0
  {
    var s, e := StartBin(u, count), EndBin(v, count);
    match part
    case Same => if s == e && i == s then v - u else 0.0
    case First => if s != e && i == s then (s + 1) as real - u else 0.0
    case Last => if s != e && i == e then v - e as real else 0.0
    case Jump => if s == e then 0.0 else (if i == s + 1 then 1.0 else 0.0) - (if i == e then 1.0 else 0.0)
    case Step => if s == e then 0.0 else (if i >= s + 1 then 1.0 else 0.0) - (if i >= e then 1.0 else 0.0)
  }

  /** The parts add up to the overlap; for an empty interval on a bin boundary, whose last bin comes before its first,
      they cancel. */
  lemma SharesAddUp(u: real, v: real, count: nat, i: nat)
    requires count > 0 && 0.0 <= u <= v <= count as real && i < count
    ensures Share(Same, u, v, count, i) + Share(First, u, v, count, i) + Share(Last, u, v, count, i)
            + Share(Step, u, v, count, i) == UnitOverlap(u, v, i)
  {
    var s, e := StartBin(u, count), EndBin(v, count);
    BinsAre(u, v, count);
    if s == e {
    } else if s < e {
    } else {
      assert u == v == s as real && e == s - 1;
    }
  }

  lemma BinsAre(u: real, v: real, count: nat)
    requires count > 0 && 0.0 <= u <= v <= count as real
    ensures var s, e := StartBin(u, count), EndBin(v, count);
            && s as real <= u && (u < (s + 1) as real || (s == count - 1 && u == count as real))
            && v <= (e + 1) as real && (e as real < v || (e == 0 && v == 0.0))
            && (s <= e || (u == v == s as real && e == s - 1))
  {
  }

  lemma StepIsRunningJump(u: real, v: real, count: nat, i: nat)
    requires count > 0
    ensures Share(Step, u, v, count, i)
            == (if i == 0 then 0.0 else Share(Step, u, v, count, i - 1)) + Share(Jump, u, v, count, i)
  {
  }

  /** One part of all intervals at bin i. */
  function Sum(part: Part, xs: seq<Interval>, step: real, count: nat, i: nat): real
    requires step > 0.0 && count > 0
  {
    if xs == [] then 0.0
    else
      var last := xs[|xs| - 1];
      Sum(part, xs[..|xs| - 1], step, count, i)
      + Times(last.weight, Share(part, last.start / step, last.end / step, count, i))
  }

  lemma {:induction false} StepsRun(xs: seq<Interval>, step: real, count: nat, i: nat)
    requires step > 0.0 && count > 0
    ensures Sum(Step, xs, step, count, i)
            == (if i == 0 then 0.0 else Sum(Step, xs, step, count, i - 1)) + Sum(Jump, xs, step, count, i)
  {
    hide Share, Times;
    if xs != [] {
      var last := xs[|xs| - 1];
      var u, v := last.start / step, last.end / step;
      StepsRun(xs[..|xs| - 1], step, count, i);
      StepIsRunningJump(u, v, count, i);
      if i == 0 {
        StepAtZero(last.weight, u, v, count);
      } else {
        TimesAdds(last.weight, Share(Step, u, v, count, i - 1), Share(Jump, u, v, count, i));
      }
    }
  }

  lemma StepAtZero(w: real, u: real, v: real, count: nat)
    requires count > 0
    ensures Times(w, Share(Step, u, v, count, 0)) == Times(w, Share(Jump, u, v, count, 0))
  {
  }

  lemma Quotient(x: Interval, count: nat, step: real)
    requires step > 0.0 && Fits(x, count, step)
    ensures 0.0 <= x.start / step <= x.end / step <= count as real
  {
    var u, v := x.start / step, x.end / step;
    assert u * step == x.start && v * step == x.end;
    assert (v - u) * step >= 0.0;
    assert (count as real - v) * step >= 0.0;
  }

  /** All parts of all intervals are what the intervals add. */
  lemma {:induction false} PartsAreAdded(xs: seq<Interval>, step: real, count: nat, i: nat)
    requires step > 0.0 && count > 0 && i < count && forall x :: x in xs ==> Fits(x, count, step)
    ensures Sum(Same, xs, step, count, i) + Sum(First, xs, step, count, i) + Sum(Last, xs, step, count, i)
            + Sum(Step, xs, step, count, i) == Added(xs, step, i)
  {
    hide Share, Times, UnitOverlap, Fits;
    if xs != [] {
      var last := xs[|xs| - 1];
      assert last in xs;
      PartsAreAdded(xs[..|xs| - 1], step, count, i);
      Quotient(last, count, step);
      var u, v, w := last.start / step, last.end / step, last.weight;
      SharesAddUp(u, v, count, i);
      TimesAdds(w, Share(Same, u, v, count, i), Share(First, u, v, count, i));
      TimesAdds(w, Share(Same, u, v, count, i) + Share(First, u, v, count, i), Share(Last, u, v, count, i));
      TimesAdds(w, Share(Same, u, v, count, i) + Share(First, u, v, count, i) + Share(Last, u, v, count, i),
                Share(Step, u, v, count, i));
    }
  }

  // ---------- the algorithm ----------

  /** The amounts the array operations add, before division by the step. */
  lemma Amounts(w: real, start: real, end: real, step: real, b: nat)
    requires step > 0.0
    ensures Times(w, end - start) / step == Times(w, end / step - start / step)
    ensures Times(w, (b + 1) as real * step - start) / step == Times(w, (b + 1) as real - start / step)
    ensures Times(w, end - b as real * step) / step == Times(w, end / step - b as real)
  {
    Spread(w, end, start, step);
    Spread(w, (b + 1) as real * step, start, step);
    Spread(w, end, b as real * step, step);
    Cancel((b + 1) as real, step);
    Cancel(b as real, step);
  }

  lemma Cancel(x: real, step: real)
    requires step > 0.0
    ensures x * step / step == x
  {
  }

  lemma Spread(w: real, x: real, y: real, step: real)
    requires step > 0.0
    ensures Times(w, x - y) / step == Times(w, x / step - y / step)
  {
    var a, b := x / step, y / step;
    assert a * step == x && b * step == y;
    assert w * (x - y) == (w * (a - b)) * step;
    Cancel(w * (a - b), step);
  }

  lemma TimesZero(w: real)
    ensures Times(w, 0.0) == 0.0
  {
  }

  /** Adds one part of every interval to its bin. */
  method AddEnds(output: array<real>, xs: seq<Interval>, step: real, part: Part)
    requires step > 0.0 && output.Length > 0 && (part == Same || part == First || part == Last)
    modifies output
    ensures forall i :: 0 <= i < output.Length ==> output[i] == old(output[i]) + Sum(part, xs, step, output.Length, i)
  {
    hide Share, Sum, Times;
    var count := output.Length;
    NothingSummed(part, step, count);
    for k := 0 to |xs|
      invariant forall i :: 0 <= i < count ==> output[i] == old(output[i]) + Sum(part, xs[..k], step, count, i)
    {
      var x := xs[k];
      var s, e := StartBin(x.start / step, count), EndBin(x.end / step, count);
      Amounts(x.weight, x.start, x.end, step, s);
      Amounts(x.weight, x.start, x.end, step, e);
      OneMore(part, xs, k, step, count);
      if part == Same && s == e {
        output[s] := output[s] + Times(x.weight, x.end - x.start) / step;
      } else if part == First && s != e {
        output[s] := output[s] + Times(x.weight, (s + 1) as real * step - x.start) / step;
      } else if part == Last && s != e {
        output[e] := output[e] + Times(x.weight, x.end - e as real * step) / step;
      }
    }
    assert xs[..|xs|] == xs;
  }

  lemma NothingSummed(part: Part, step: real, count: nat)
    requires step > 0.0 && count > 0
    ensures forall xs: seq<Interval>, i: nat :: Sum(part, xs[..0], step, count, i) == 0.0
  {
  }

  /** One more interval changes the sum at one bin only, for the parts that go to a single bin. */
  lemma OneMore(part: Part, xs: seq<Interval>, k: nat, step: real, count: nat)
    requires step > 0.0 && count > 0 && k < |xs| && (part == Same || part == First || part == Last)
    ensures var x := xs[k];
            var u, v := x.start / step, x.end / step;
            var s, e := StartBin(u, count), EndBin(v, count);
            forall i: nat ::
              Sum(part, xs[..k + 1], step, count, i) == Sum(part, xs[..k], step, count, i) +
                if part == Same && s == e && i == s then Times(x.weight, v - u)
                else if part == First && s != e && i == s then Times(x.weight, (s + 1) as real - u)
                else if part == Last && s != e && i == e then Times(x.weight, v - e as real)
                else 0.0
  {
    hide Times, StartBin, EndBin;
    assert xs[..k + 1][..k] == xs[..k];
    TimesZero(xs[k].weight);
  }

  lemma OneMoreJump(xs: seq<Interval>, k: nat, step: real, count: nat)
    requires step > 0.0 && count > 0 && k < |xs|
    ensures var x := xs[k];
            var s, e := StartBin(x.start / step, count), EndBin(x.end / step, count);
            forall i: nat ::
              Sum(Jump, xs[..k + 1], step, count, i) == Sum(Jump, xs[..k], step, count, i) +
                if s == e then 0.0 else (if i == s + 1 then x.weight else 0.0) - (if i == e then x.weight else 0.0)
  {
    hide StartBin, EndBin;
    assert xs[..k + 1][..k] == xs[..k];
  }

  method AddJumps(output: array<real>, xs: seq<Interval>, step: real)
    requires step > 0.0 && output.Length > 0
    modifies output
    ensures forall i :: 0 <= i < output.Length ==> output[i] == old(output[i]) + Sum(Step, xs, step, output.Length, i)
  {
    hide Share, Sum, Times;
    var count := output.Length;
    var difference := new real[count + 1](_ => 0.0);
    NothingSummed(Jump, step, count);
    for k := 0 to |xs|
      invariant forall i :: 0 <= i < count ==> output[i] == old(output[i])
      invariant forall i :: 0 <= i <= count ==> difference[i] == Sum(Jump, xs[..k], step, count, i)
    {
      var x := xs[k];
      var s, e := StartBin(x.start / step, count), EndBin(x.end / step, count);
      OneMoreJump(xs, k, step, count);
      if s != e {
        difference[s + 1] := difference[s + 1] + x.weight;
        difference[e] := difference[e] - x.weight;
      }
    }
    assert xs[..|xs|] == xs;
    var running := 0.0;
    for i := 0 to count
      invariant running == if i == 0 then 0.0 else Sum(Step, xs, step, count, i - 1)
      invariant forall j :: 0 <= j < i ==> output[j] == old(output[j]) + Sum(Step, xs, step, count, j)
      invariant forall j :: i <= j < count ==> output[j] == old(output[j])
      invariant forall j :: 0 <= j <= count ==> difference[j] == Sum(Jump, xs, step, count, j)
    {
      StepsRun(xs, step, count, i);
      running := running + difference[i];
      output[i] := output[i] + running;
    }
  }

  /** Adds to every bin exactly the weighted overlap of every interval with it. */
  method AddIntervalAverage(output: array<real>, xs: seq<Interval>, step: real)
    requires step > 0.0 && (xs == [] || output.Length > 0)
    requires forall x :: x in xs ==> Fits(x, output.Length, step)
    modifies output
    ensures forall i :: 0 <= i < output.Length ==> output[i] == old(output[i]) + Added(xs, step, i)
  {
    hide Share, Sum, Fits;
    if xs == [] {
      return;
    }
    var count := output.Length;
    AddEnds(output, xs, step, Same);
    AddEnds(output, xs, step, First);
    AddEnds(output, xs, step, Last);
    AddJumps(output, xs, step);
    forall i | 0 <= i < count
      ensures output[i] == old(output[i]) + Added(xs, step, i)
    {
      PartsAreAdded(xs, step, count, i);
    }
  }

  // ---------- nothing is lost ----------

  function Overlaps(u: real, v: real, n: nat): real {
    if n == 0 then 0.0 else Overlaps(u, v, n - 1) + UnitOverlap(u, v, n - 1)
  }

  lemma {:induction false} OverlapsUpTo(u: real, v: real, n: nat)
    requires 0.0 <= u <= v
    ensures Overlaps(u, v, n) == Max(Min(v, n as real) - u, 0.0)
  {
    if n > 0 {
      OverlapsUpTo(u, v, n - 1);
    }
  }

  /** What all bins below n receive. */
  function AddedBelow(xs: seq<Interval>, step: real, n: nat): real
    requires step > 0.0
  {
    if n == 0 then 0.0 else AddedBelow(xs, step, n - 1) + Added(xs, step, n - 1)
  }

  function Mass(xs: seq<Interval>): real {
    if xs == [] then 0.0
    else
      var last := xs[|xs| - 1];
      Mass(xs[..|xs| - 1]) + Times(last.weight, last.end - last.start)
  }

  lemma {:induction false} AddedBelowSplits(xs: seq<Interval>, step: real, n: nat)
    requires step > 0.0 && xs != []
    ensures var last := xs[|xs| - 1];
            AddedBelow(xs, step, n) == AddedBelow(xs[..|xs| - 1], step, n)
                                       + Times(last.weight, Overlaps(last.start / step, last.end / step, n))
    decreases n
  {
    hide UnitOverlap, Times;
    var last := xs[|xs| - 1];
    var u, v := last.start / step, last.end / step;
    if n == 0 {
      TimesZero(last.weight);
    } else {
      AddedBelowSplits(xs, step, n - 1);
      TimesAdds(last.weight, Overlaps(u, v, n - 1), UnitOverlap(u, v, n - 1));
    }
  }

  lemma {:induction false} NothingBelow(step: real, n: nat)
    requires step > 0.0
    ensures AddedBelow([], step, n) == 0.0
  {
    if n > 0 {
      NothingBelow(step, n - 1);
    }
  }

  /** All bins together receive weight times length, as a share of the step: mass is conserved. */
  lemma {:induction false} MassConserved(xs: seq<Interval>, step: real, count: nat)
    requires step > 0.0 && forall x :: x in xs ==> Fits(x, count, step)
    ensures AddedBelow(xs, step, count) * step == Mass(xs)
  {
    hide AddedBelow, Fits, Times, Overlaps;
    if xs == [] {
      NothingBelow(step, count);
    } else {
      var last, rest := xs[|xs| - 1], xs[..|xs| - 1];
      assert last in xs;
      MassConserved(rest, step, count);
      AddedBelowSplits(xs, step, count);
      Quotient(last, count, step);
      OverlapsUpTo(last.start / step, last.end / step, count);
      Spread(last.weight, last.end, last.start, step);
      OneMass(AddedBelow(rest, step, count), Times(last.weight, last.end / step - last.start / step),
              Times(last.weight, last.end - last.start), step);
    }
  }

  lemma OneMass(x: real, y: real, z: real, step: real)
    requires step > 0.0 && z / step == y
    ensures (x + y) * step == x * step + z
  {
    assert y * step == z;
  }
}
