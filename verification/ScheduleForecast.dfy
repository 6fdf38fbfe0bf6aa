/** The schedule forecast of `apply_dynamic_forecast`: load columns per carbon interval that follow every job moved. */
module ScheduleForecast {
  import opened Basics
  import opened Intensity
  import opened MarginalCost

  datatype Column = ClassColumn(c: Class) | NodeColumn

  datatype Job = Job(class_: Class, fraction: real, nodeFraction: real, runtime: real)

  datatype Placed = Placed(job: Job, start: real)

  /** The row of the table a column is kept in. */
  function Index(col: Column): (r: nat)
    ensures r < 5
  {
    match col
    case ClassColumn(Cpu) => 0
    case ClassColumn(A100) => 1
    case ClassColumn(H100) => 2
    case ClassColumn(H100Nvl) => 3
    case NodeColumn => 4
  }

  function ColumnAt(i: nat): Column
    requires i < 5
  {
    if i == 0 then ClassColumn(Cpu) else if i == 1 then ClassColumn(A100) else if i == 2 then ClassColumn(H100)
    else if i == 3 then ClassColumn(H100Nvl) else NodeColumn
  }

  function ShareIn(job: Job, col: Column): real {
    match col
    case ClassColumn(c) => if job.class_ == c then job.fraction else 0.0
    case NodeColumn => job.nodeFraction
  }

  /** `interval_job_load` at one interval: the job's average load there. */
  function SlotLoad(row: Row, start: real, runtime: real, share: real): real
    requires row.left < row.right
  {
    Times(share, Overlap(row, start, start + runtime)) / (row.right - row.left)
  }

  function LoadOf(p: Placed, col: Column, row: Row): real
    requires row.left < row.right
  {
    SlotLoad(row, p.start, p.job.runtime, ShareIn(p.job, col))
  }

  /** The load all placed jobs put on an interval. */
  function ColumnLoad(placed: seq<Placed>, col: Column, row: Row): real
    requires row.left < row.right
  {
    if placed == [] then 0.0
    else ColumnLoad(placed[..|placed| - 1], col, row) + LoadOf(placed[|placed| - 1], col, row)
  }

  predicate NonNegative(placed: seq<Placed>) {
    forall i :: 0 <= i < |placed| ==> placed[i].job.fraction >= 0.0 && placed[i].job.nodeFraction >= 0.0
  }

  lemma SlotLoadNonNegative(row: Row, start: real, runtime: real, share: real)
    requires row.left < row.right && share >= 0.0
    ensures SlotLoad(row, start, runtime, share) >= 0.0
    ensures SlotLoad(row, start, runtime, 0.0) == 0.0
  {
    hide Overlap;
    OverlapNonNegative(row, start, start + runtime);
    QuotientNonNegative(share * Overlap(row, start, start + runtime), row.right - row.left);
  }

  lemma QuotientNonNegative(x: real, d: real)
    requires x >= 0.0 && d > 0.0
    ensures x / d >= 0.0
  {
  }

  lemma {:induction false} LoadNonNegative(placed: seq<Placed>, col: Column, row: Row)
    requires row.left < row.right && NonNegative(placed)
    ensures ColumnLoad(placed, col, row) >= 0.0
  {
    hide SlotLoad;
    if placed != [] {
      LoadNonNegative(placed[..|placed| - 1], col, row);
      var last := placed[|placed| - 1];
      assert last == placed[|placed| - 1] && last.job.fraction >= 0.0 && last.job.nodeFraction >= 0.0;
      SlotLoadNonNegative(row, last.start, last.job.runtime, ShareIn(last.job, col));
    }
  }

  function Without(placed: seq<Placed>, k: nat): seq<Placed>
    requires k < |placed|
  {
    placed[..k] + placed[k + 1..]
  }

  /** A job's own load comes on top of everybody else's. */
  lemma {:induction false} LoadSplits(placed: seq<Placed>, k: nat, col: Column, row: Row)
    requires row.left < row.right && k < |placed|
    ensures ColumnLoad(placed, col, row) == ColumnLoad(Without(placed, k), col, row) + LoadOf(placed[k], col, row)
  {
    hide LoadOf;
    var n := |placed| - 1;
    if k == n {
      assert Without(placed, k) == placed[..n];
    } else {
      LoadSplits(placed[..n], k, col, row);
      assert Without(placed, k)[..|placed| - 2] == Without(placed[..n], k);
      assert Without(placed, k)[|placed| - 2] == placed[n];
    }
  }

  lemma MovedLoad(placed: seq<Placed>, k: nat, start: real, col: Column, row: Row)
    requires row.left < row.right && k < |placed|
    ensures ColumnLoad(placed[k := placed[k].(start := start)], col, row)
            == ColumnLoad(placed, col, row) + LoadOf(placed[k].(start := start), col, row) - LoadOf(placed[k], col, row)
  {
    hide LoadOf, ColumnLoad;
    var next := placed[k := placed[k].(start := start)];
    LoadSplits(placed, k, col, row);
    LoadSplits(next, k, col, row);
    assert Without(next, k) == Without(placed, k);
  }

  predicate ProperSlots(rows: seq<Row>) {
    forall i :: 0 <= i < |rows| ==> rows[i].left < rows[i].right
  }

  lemma AppendLoad(placed: seq<Placed>, p: Placed, col: Column, row: Row)
    requires row.left < row.right
    ensures ColumnLoad(placed + [p], col, row) == ColumnLoad(placed, col, row) + LoadOf(p, col, row)
  {
    hide LoadOf;
    assert (placed + [p])[..|placed|] == placed;
  }

  lemma OthersNonNegative(placed: seq<Placed>, k: nat)
    requires NonNegative(placed) && k < |placed|
    ensures NonNegative(Without(placed, k))
  {
  }

  /** `interval_job_load`: one job's load in every interval. */
  function Loads(rows: seq<Row>, start: real, runtime: real, share: real): (r: seq<real>)
    requires ProperSlots(rows)
    ensures |r| == |rows|
  {
    seq(|rows|, i requires 0 <= i < |rows| => SlotLoad(rows[i], start, runtime, share))
  }

  function Change(to: seq<real>, from: seq<real>): (r: seq<real>)
    requires |to| == |from|
    ensures |r| == |to|
  {
    seq(|to|, i requires 0 <= i < |to| => to[i] - from[i])
  }

  /** A job puts load on its class's column and on the node column only. */
  lemma OwnColumns(p: Placed, c: nat, row: Row)
    requires row.left < row.right && c < 5
    ensures LoadOf(p, ColumnAt(c), row)
            == if c == Index(ClassColumn(p.job.class_)) then SlotLoad(row, p.start, p.job.runtime, p.job.fraction)
               else if c == 4 then SlotLoad(row, p.start, p.job.runtime, p.job.nodeFraction)
               else 0.0
  {
    SlotLoadNonNegative(row, p.start, p.job.runtime, 0.0);
  }

  // ---------- the planner's moves ----------

  /** A delay the planner accepts for a job: when it became eligible, and the release chosen for it. */
  datatype Delay = Delay(job: nat, eligible: real, release: real)

  /** The planner's guards: the release is a later carbon boundary from which the run fits, and it starts the job later
      than it would start now. */
  predicate Accepted(rows: seq<Row>, placed: seq<Placed>, d: Delay) {
    && rows != [] && d.job < |placed| && placed[d.job].job.runtime >= 0.0 && rows[0].left <= placed[d.job].start
    && (d.release == d.eligible || d.release + placed[d.job].job.runtime <= rows[|rows| - 1].right)
    && d.release > d.eligible && Max(d.release, placed[d.job].start) - placed[d.job].start > 0.0
  }

  function Delayed(placed: seq<Placed>, d: Delay): (r: seq<Placed>)
    requires d.job < |placed|
    ensures |r| == |placed|
  {
    placed[d.job := placed[d.job].(start := Max(d.release, placed[d.job].start))]
  }

  /** Each delay is accepted after the ones before it. */
  predicate AllAccepted(rows: seq<Row>, placed: seq<Placed>, delays: seq<Delay>)
    decreases |delays|
  {
    delays == []
    || (Accepted(rows, placed, delays[0]) && AllAccepted(rows, Delayed(placed, delays[0]), delays[1..]))
  }

  function AllDelayed(rows: seq<Row>, placed: seq<Placed>, delays: seq<Delay>): seq<Placed>
    requires AllAccepted(rows, placed, delays)
    decreases |delays|
  {
    if delays == [] then placed else AllDelayed(rows, Delayed(placed, delays[0]), delays[1..])
  }

  class ForecastTable {
    const rows: seq<Row>
    const load: array2<real>
    var placed: seq<Placed>

    ghost predicate Sized()
      reads this
    {
      load.Length0 == 5 && load.Length1 == |rows| && ProperSlots(rows)
    }

    /** Every column is the sum over all placed jobs at their current starts. */
    ghost predicate Valid()
      reads this, load
    {
      Sized() && forall c, i :: 0 <= c < 5 && 0 <= i < |rows| ==> load[c, i] == ColumnLoad(placed, ColumnAt(c), rows[i])
    }

    /** `build_schedule_forecast`: every job added at its baseline start. */
    constructor (rows: seq<Row>, jobs: seq<Placed>)
      requires ProperSlots(rows)
      ensures Valid() && this.rows == rows && placed == jobs && fresh(load)
    {
      this.rows := rows;
      load := new real[5, |rows|]((_, _) => 0.0);
      placed := [];
      new;
      for k := 0 to |jobs|
        invariant Valid() && placed == jobs[..k] && fresh(load)
      {
        AddJob(jobs[k]);
      }
    }

    /** Adds the amounts to the column, row by row. */
    method AddTo(column: nat, amounts: seq<real>)
      requires Sized() && column < 5 && |amounts| == |rows|
      modifies load
      ensures forall c, i :: 0 <= c < 5 && 0 <= i < |rows| ==>
                load[c, i] == old(load[c, i]) + if c == column then amounts[i] else 0.0
    {
      for k := 0 to |rows|
        invariant forall c, i :: 0 <= c < 5 && 0 <= i < |rows| ==>
                    load[c, i] == old(load[c, i]) + if c == column && i < k then amounts[i] else 0.0
      {
        load[column, k] := load[column, k] + amounts[k];
      }
    }

    method AddJob(p: Placed)
      requires Valid()
      modifies this`placed, load
      ensures Valid() && placed == old(placed) + [p]
    {
      hide LoadOf, ColumnLoad, SlotLoad, Index, ColumnAt;
      var own := Loads(rows, p.start, p.job.runtime, p.job.fraction);
      var all := Loads(rows, p.start, p.job.runtime, p.job.nodeFraction);
      ClassIsNotNode(p.job.class_);
      AddTo(Index(ClassColumn(p.job.class_)), own);
      AddTo(4, all);
      placed := placed + [p];
      forall c, i | 0 <= c < 5 && 0 <= i < |rows|
        ensures load[c, i] == ColumnLoad(placed, ColumnAt(c), rows[i])
      {
        AppendLoad(old(placed), p, ColumnAt(c), rows[i]);
        OwnColumns(p, c, rows[i]);
      }
    }

    /** The load in a column without job k, clipped at zero as `forecast_marginal_carbon_cost` does; the clip never
        acts: what is left is exactly everybody else's load. */
    method Background(k: nat, column: nat) returns (background: seq<real>)
      requires Valid() && k < |placed| && column < 5 && NonNegative(placed)
      ensures |background| == |rows|
      ensures forall i :: 0 <= i < |rows| ==> background[i] == ColumnLoad(Without(placed, k), ColumnAt(column), rows[i])
    {
      hide LoadOf, ColumnLoad, NonNegative, ColumnAt;
      var p, col := placed[k], ColumnAt(column);
      OthersNonNegative(placed, k);
      background := [];
      for i := 0 to |rows|
        invariant |background| == i
        invariant forall j :: 0 <= j < i ==> background[j] == ColumnLoad(Without(placed, k), col, rows[j])
      {
        LoadSplits(placed, k, col, rows[i]);
        LoadNonNegative(Without(placed, k), col, rows[i]);
        background := background + [Max(load[column, i] - LoadOf(p, col, rows[i]), 0.0)];
      }
    }

    /** A delayed job moves: its columns change by candidate load minus current load. */
    method Move(k: nat, start: real)
      requires Valid() && k < |placed|
      modifies this`placed, load
      ensures Valid() && placed == old(placed)[k := old(placed)[k].(start := start)]
    {
      hide LoadOf, ColumnLoad, SlotLoad, Index, ColumnAt;
      var p := placed[k];
      var q := p.(start := start);
      var own := Change(Loads(rows, start, p.job.runtime, p.job.fraction),
                        Loads(rows, p.start, p.job.runtime, p.job.fraction));
      var all := Change(Loads(rows, start, p.job.runtime, p.job.nodeFraction),
                        Loads(rows, p.start, p.job.runtime, p.job.nodeFraction));
      ClassIsNotNode(p.job.class_);
      AddTo(Index(ClassColumn(p.job.class_)), own);
      AddTo(4, all);
      placed := placed[k := q];
      forall c, i | 0 <= c < 5 && 0 <= i < |rows|
        ensures load[c, i] == ColumnLoad(placed, ColumnAt(c), rows[i])
      {
        MovedLoad(old(placed), k, start, ColumnAt(c), rows[i]);
        OwnColumns(p, c, rows[i]);
        OwnColumns(q, c, rows[i]);
      }
    }

    /** The planner's pass over its jobs, whatever it decides: the table follows every accepted delay, and no column
        gains or loses load-seconds. */
    method ApplyDelays(delays: seq<Delay>)
      requires Valid() && Contiguous(rows) && AllAccepted(rows, placed, delays)
      modifies this`placed, load
      ensures Valid() && placed == AllDelayed(rows, old(placed), delays)
      ensures forall col :: LoadSeconds(rows, placed, col) == LoadSeconds(rows, old(placed), col)
    {
      hide LoadSeconds, ColumnLoad, Contiguous, Accepted, Delayed;
      forall col
        ensures LoadSeconds(rows, AllDelayed(rows, placed, delays), col) == LoadSeconds(rows, placed, col)
      {
        DelaysConserve(rows, placed, delays, col);
      }
      ghost var was := placed;
      for k := 0 to |delays|
        invariant Valid() && AllAccepted(rows, placed, delays[k..])
        invariant AllDelayed(rows, placed, delays[k..]) == AllDelayed(rows, was, delays)
      {
        var d := delays[k];
        assert delays[k..][0] == d && delays[k..][1..] == delays[k + 1..];
        AcceptedJob(rows, placed, d);
        Move(d.job, Max(d.release, placed[d.job].start));
        assert delays[k + 1..] == delays[k..][1..];
      }
      assert delays[|delays|..] == [];
    }
  }

  lemma ClassIsNotNode(c: Class)
    ensures Index(ClassColumn(c)) < 4
  {
  }

  // ---------- load-seconds ----------

  /** Load times duration over all intervals. */
  function LoadSeconds(rows: seq<Row>, placed: seq<Placed>, col: Column): real
    requires ProperSlots(rows)
  {
    if rows == [] then 0.0
    else
      var last := rows[|rows| - 1];
      LoadSeconds(rows[..|rows| - 1], placed, col) + Times(ColumnLoad(placed, col, last), last.right - last.left)
  }

  lemma SlotSeconds(row: Row, start: real, runtime: real, share: real)
    requires row.left < row.right
    ensures Times(SlotLoad(row, start, runtime, share), row.right - row.left)
            == Times(share, Overlap(row, start, start + runtime))
  {
    hide Overlap;
    var d, x := row.right - row.left, share * Overlap(row, start, start + runtime);
    assert (x / d) * d == x;
  }

  /** Moving one job changes a column's load-seconds by the share times the change in covered run time. */
  lemma {:induction false} MovedSeconds(rows: seq<Row>, placed: seq<Placed>, k: nat, start: real, col: Column)
    requires ProperSlots(rows) && k < |placed|
    ensures var p := placed[k]; var share, runtime := ShareIn(p.job, col), p.job.runtime;
            LoadSeconds(rows, placed[k := p.(start := start)], col)
            == LoadSeconds(rows, placed, col) + Times(share, Covered(rows, start, start + runtime))
               - Times(share, Covered(rows, p.start, p.start + runtime))
  {
    hide ColumnLoad, SlotLoad, Overlap, Times;
    var p := placed[k];
    var share, runtime := ShareIn(p.job, col), p.job.runtime;
    if rows == [] {
      TimesAdds(share, 0.0, 0.0);
    } else {
      var front, last := rows[..|rows| - 1], rows[|rows| - 1];
      var d := last.right - last.left;
      MovedSeconds(front, placed, k, start, col);
      MovedLoad(placed, k, start, col, last);
      var base, new_, old_ := ColumnLoad(placed, col, last), SlotLoad(last, start, runtime, share),
                              SlotLoad(last, p.start, runtime, share);
      SlotSeconds(last, start, runtime, share);
      SlotSeconds(last, p.start, runtime, share);
      TimesDistribute(base, new_, old_, d);
      TimesAdds(share, Covered(front, start, start + runtime), Overlap(last, start, start + runtime));
      TimesAdds(share, Covered(front, p.start, p.start + runtime), Overlap(last, p.start, p.start + runtime));
    }
  }

  lemma TimesDistribute(a: real, b: real, c: real, d: real)
    ensures Times(a + b - c, d) == Times(a, d) + Times(b, d) - Times(c, d)
  {
  }

  /** A move inside the horizon conserves the load-seconds of every column. */
  lemma MoveConserves(rows: seq<Row>, placed: seq<Placed>, k: nat, start: real, col: Column)
    requires Contiguous(rows) && k < |placed| && placed[k].job.runtime >= 0.0
    requires rows[0].left <= placed[k].start && placed[k].start + placed[k].job.runtime <= rows[|rows| - 1].right
    requires rows[0].left <= start && start + placed[k].job.runtime <= rows[|rows| - 1].right
    ensures ProperSlots(rows)
    ensures LoadSeconds(rows, placed[k := placed[k].(start := start)], col) == LoadSeconds(rows, placed, col)
  {
    hide LoadSeconds, Covered, Times;
    var p := placed[k];
    MovedSeconds(rows, placed, k, start, col);
    FullyCovered(rows, p.start, p.start + p.job.runtime);
    FullyCovered(rows, start, start + p.job.runtime);
  }

  /** The planner's own moves are of that kind: a delay is accepted only for a carbon boundary from which the run still
      fits, and only if it starts the job later than predicted. */
  lemma AcceptedMoveFits(rows: seq<Row>, eligible: real, current: real, release: real, runtime: real)
    requires Contiguous(rows) && rows[0].left <= current
    requires release == eligible || release + runtime <= rows[|rows| - 1].right
    requires release > eligible && Max(Max(release, current) - current, 0.0) > 0.0
    ensures rows[0].left <= Max(release, current) && Max(release, current) + runtime <= rows[|rows| - 1].right
  {
  }

  lemma AcceptedJob(rows: seq<Row>, placed: seq<Placed>, d: Delay)
    requires Accepted(rows, placed, d)
    ensures d.job < |placed|
    ensures Delayed(placed, d) == placed[d.job := placed[d.job].(start := Max(d.release, placed[d.job].start))]
  {
  }

  /** Any sequence of accepted delays conserves the load-seconds of every column. */
  lemma {:induction false} DelaysConserve(rows: seq<Row>, placed: seq<Placed>, delays: seq<Delay>, col: Column)
    requires Contiguous(rows) && AllAccepted(rows, placed, delays)
    ensures ProperSlots(rows)
    ensures LoadSeconds(rows, AllDelayed(rows, placed, delays), col) == LoadSeconds(rows, placed, col)
    decreases |delays|
  {
    hide LoadSeconds, Contiguous;
    AllProper(rows);
    if delays != [] {
      var d := delays[0];
      var p := placed[d.job];
      AcceptedMoveFits(rows, d.eligible, p.start, d.release, p.job.runtime);
      MoveConserves(rows, placed, d.job, Max(d.release, p.start), col);
      DelaysConserve(rows, Delayed(placed, d), delays[1..], col);
    }
  }

  lemma AllProper(rows: seq<Row>)
    requires Contiguous(rows)
    ensures ProperSlots(rows) && rows != []
  {
  }

  // ---------- what the columns and the pass mean ----------

  /** How long a run from `start` to `end` lies inside the interval. */
  ghost function Inside(row: Row, start: real, end: real): real {
    var from := if start > row.left then start else row.left;
    var to := if end < row.right then end else row.right;
    if to > from then to - from else 0.0
  }

  /** A job's load in an interval, spread over it: its share times the time it runs there, in the column of its own
      class and in the node column, and in no other. */
  lemma JobLoadExactly(p: Placed, c: Class, row: Row)
    requires row.left < row.right
    ensures var runs, length := Inside(row, p.start, p.start + p.job.runtime), row.right - row.left;
            && LoadOf(p, ClassColumn(c), row) * length == (if p.job.class_ == c then p.job.fraction else 0.0) * runs
            && LoadOf(p, NodeColumn, row) * length == p.job.nodeFraction * runs
  {
    hide Inside, Overlap, SlotLoad;
    assert Overlap(row, p.start, p.start + p.job.runtime) == Inside(row, p.start, p.start + p.job.runtime) by {
      InsideIsOverlap(row, p.start, p.start + p.job.runtime);
    }
    SlotSeconds(row, p.start, p.job.runtime, if p.job.class_ == c then p.job.fraction else 0.0);
    SlotSeconds(row, p.start, p.job.runtime, p.job.nodeFraction);
  }

  lemma InsideIsOverlap(row: Row, start: real, end: real)
    ensures Overlap(row, start, end) == Inside(row, start, end)
  {
  }

  /** Where job k starts after the delays: at the release of the last one that concerns it, if any does. */
  ghost function LastRelease(delays: seq<Delay>, k: nat, start: real): real {
    if delays == [] then start
    else
      var last := delays[|delays| - 1];
      if last.job == k then last.release else LastRelease(delays[..|delays| - 1], k, start)
  }

  lemma {:induction false} FirstRelease(delays: seq<Delay>, k: nat, start: real)
    requires delays != []
    ensures LastRelease(delays, k, start)
            == LastRelease(delays[1..], k, if delays[0].job == k then delays[0].release else start)
  {
    var n := |delays| - 1;
    if n > 0 {
      FirstRelease(delays[..n], k, start);
      assert delays[..n][1..] == delays[1..][..n - 1];
    }
  }

  /** The pass changes starts only, each to the release last accepted for the job. */
  lemma {:induction false} DelayedExactly(rows: seq<Row>, placed: seq<Placed>, delays: seq<Delay>, k: nat)
    requires AllAccepted(rows, placed, delays) && k < |placed|
    ensures |AllDelayed(rows, placed, delays)| == |placed|
    ensures AllDelayed(rows, placed, delays)[k] == placed[k].(start := LastRelease(delays, k, placed[k].start))
    decreases |delays|
  {
    hide LastRelease;
    if delays == [] {
      NoRelease(k, placed[k].start);
    } else {
      FirstRelease(delays, k, placed[k].start);
      DelayedExactly(rows, Delayed(placed, delays[0]), delays[1..], k);
    }
  }

  lemma NoRelease(k: nat, start: real)
    ensures LastRelease([], k, start) == start
  {
  }

  /** The column's share of every job, times the job's run time. */
  ghost function OwnSeconds(placed: seq<Placed>, col: Column): real {
    if placed == [] then 0.0
    else
      var job := placed[|placed| - 1].job;
      var share := match col case ClassColumn(c) => (if job.class_ == c then job.fraction else 0.0)
                             case NodeColumn => job.nodeFraction;
      OwnSeconds(placed[..|placed| - 1], col) + share * job.runtime
  }

  ghost predicate InHorizon(rows: seq<Row>, placed: seq<Placed>) {
    && Contiguous(rows)
    && forall p :: p in placed ==>
         p.job.runtime >= 0.0 && rows[0].left <= p.start && p.start + p.job.runtime <= rows[|rows| - 1].right
  }

  lemma {:induction false} AddedSeconds(rows: seq<Row>, placed: seq<Placed>, p: Placed, col: Column)
    requires ProperSlots(rows)
    ensures LoadSeconds(rows, placed + [p], col)
            == LoadSeconds(rows, placed, col)
               + Times(ShareIn(p.job, col), Covered(rows, p.start, p.start + p.job.runtime))
  {
    hide ColumnLoad, SlotLoad, Overlap, Times, ShareIn;
    var share, runtime := ShareIn(p.job, col), p.job.runtime;
    if rows == [] {
      TimesAdds(share, 0.0, 0.0);
    } else {
      var front, last := rows[..|rows| - 1], rows[|rows| - 1];
      AddedSeconds(front, placed, p, col);
      AppendLoad(placed, p, col, last);
      SlotSeconds(last, p.start, runtime, share);
      TimesSum(ColumnLoad(placed, col, last), SlotLoad(last, p.start, runtime, share), last.right - last.left);
      TimesAdds(share, Covered(front, p.start, p.start + runtime), Overlap(last, p.start, p.start + runtime));
    }
  }

  lemma TimesSum(a: real, b: real, d: real)
    ensures Times(a + b, d) == Times(a, d) + Times(b, d)
  {
  }

  lemma {:induction false} NoSeconds(rows: seq<Row>, col: Column)
    requires ProperSlots(rows)
    ensures LoadSeconds(rows, [], col) == 0.0
  {
    if rows != [] {
      NoSeconds(rows[..|rows| - 1], col);
    }
  }

  /** While every job runs inside the horizon, a column holds each job's share for its whole run time. */
  lemma {:induction false} LoadSecondsExactly(rows: seq<Row>, placed: seq<Placed>, col: Column)
    requires InHorizon(rows, placed)
    ensures ProperSlots(rows) && LoadSeconds(rows, placed, col) == OwnSeconds(placed, col)
  {
    hide LoadSeconds, Covered, Contiguous, Times;
    AllProper(rows);
    if placed == [] {
      NoSeconds(rows, col);
    } else {
      var front, p := placed[..|placed| - 1], placed[|placed| - 1];
      assert p in placed && placed == front + [p];
      LoadSecondsExactly(rows, front, col);
      AddedSeconds(rows, front, p, col);
      FullyCovered(rows, p.start, p.start + p.job.runtime);
      TimesIs(ShareIn(p.job, col), p.job.runtime);
    }
  }

  lemma TimesIs(x: real, y: real)
    ensures Times(x, y) == x * y
  {
  }
}
