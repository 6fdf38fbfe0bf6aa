/** Mean carbon intensity over a run: three algorithms for one integral. */
module Intensity {
  import opened Basics

  /** One row of a carbon table: `level` holds on [left, right). */
  datatype Row = Row(left: real, right: real, level: real)

  /** Rows that tile one interval without gap or overlap. */
  predicate Contiguous(rows: seq<Row>) {
    && |rows| > 0
    && (forall i :: 0 <= i < |rows| ==> rows[i].left < rows[i].right)
    && (forall i :: 0 < i < |rows| ==> rows[i - 1].right == rows[i].left)
  }

  /** Length of [a, b) inside row r. */
  function Overlap(r: Row, a: real, b: real): real {
    Max(Min(b, r.right) - Max(a, r.left), 0.0)
  }

  /** Row r's part of the integral over [a, b). */
  function Share(r: Row, a: real, b: real): real {
    Times(r.level, Overlap(r, a, b))
  }

  /** The integral of the intensity over [a, b): each row's level times its share of the window. */
  function Exposure(rows: seq<Row>, a: real, b: real): real {
    if rows == [] then 0.0
    else Exposure(rows[..|rows| - 1], a, b) + Share(rows[|rows| - 1], a, b)
  }

  function Covered(rows: seq<Row>, a: real, b: real): real {
    if rows == [] then 0.0
    else Covered(rows[..|rows| - 1], a, b) + Overlap(rows[|rows| - 1], a, b)
  }

  /** `carbon_row_at`: the last row that covers the instant. */
  function RowAt(rows: seq<Row>, at: real): Option<Row> {
    if rows == [] then None
    else if rows[|rows| - 1].left <= at < rows[|rows| - 1].right then Some(rows[|rows| - 1])
    else RowAt(rows[..|rows| - 1], at)
  }

  /** Rows in order, without overlap. */
  predicate Ordered(rows: seq<Row>) {
    forall i, j :: 0 <= i < j < |rows| ==> rows[i].right <= rows[j].left
  }

  lemma {:induction false} RowFound(rows: seq<Row>, at: real) returns (i: nat)
    requires RowAt(rows, at).Some?
    ensures i < |rows| && RowAt(rows, at).value == rows[i] && rows[i].left <= at < rows[i].right
  {
    i := |rows| - 1;
    if !(rows[i].left <= at < rows[i].right) {
      i := RowFound(rows[..|rows| - 1], at);
    }
  }

  // ---------- the integral ----------

  lemma OverlapAdds(r: Row, a: real, b: real, c: real)
    requires a <= b <= c
    ensures Overlap(r, a, b) + Overlap(r, b, c) == Overlap(r, a, c)
  {
  }

  lemma ShareAdds(r: Row, a: real, b: real, c: real)
    requires a <= b <= c
    ensures Share(r, a, b) + Share(r, b, c) == Share(r, a, c)
  {
    hide Times, Overlap;
    OverlapAdds(r, a, b, c);
    TimesAdds(r.level, Overlap(r, a, b), Overlap(r, b, c));
  }

  /** Adjacent windows add up. */
  lemma {:induction false} ExposureAdds(rows: seq<Row>, a: real, b: real, c: real)
    requires a <= b <= c
    ensures Exposure(rows, a, b) + Exposure(rows, b, c) == Exposure(rows, a, c)
    ensures Covered(rows, a, b) + Covered(rows, b, c) == Covered(rows, a, c)
  {
    hide Share, Overlap;
    if rows != [] {
      var r := rows[|rows| - 1];
      ExposureAdds(rows[..|rows| - 1], a, b, c);
      OverlapAdds(r, a, b, c);
      ShareAdds(r, a, b, c);
    }
  }

  /** Later rows start after earlier ones end. */
  lemma {:induction false} RowsOrdered(rows: seq<Row>, i: nat, j: nat)
    requires Contiguous(rows) && i < j < |rows|
    ensures rows[i].right <= rows[j].left
    decreases j - i
  {
    if i + 1 < j {
      RowsOrdered(rows, i, j - 1);
    }
  }

  lemma OutsideRow(r: Row, a: real, b: real)
    requires a <= b && (r.right <= a || b <= r.left)
    ensures Overlap(r, a, b) == 0.0 && Share(r, a, b) == 0.0
  {
  }

  lemma InsideRow(r: Row, a: real, b: real)
    requires r.left <= a <= b <= r.right
    ensures Overlap(r, a, b) == b - a && Share(r, a, b) == Times(r.level, b - a)
  {
    hide Times;
  }

  lemma {:induction false} NoExposure(rows: seq<Row>, a: real, b: real)
    requires a <= b && forall i :: 0 <= i < |rows| ==> rows[i].right <= a || b <= rows[i].left
    ensures Exposure(rows, a, b) == 0.0 && Covered(rows, a, b) == 0.0
  {
    hide Share, Overlap;
    if rows != [] {
      NoExposure(rows[..|rows| - 1], a, b);
      OutsideRow(rows[|rows| - 1], a, b);
    }
  }

  lemma {:induction false} ExposureConcat(p: seq<Row>, s: seq<Row>, a: real, b: real)
    ensures Exposure(p + s, a, b) == Exposure(p, a, b) + Exposure(s, a, b)
    ensures Covered(p + s, a, b) == Covered(p, a, b) + Covered(s, a, b)
    decreases |s|
  {
    hide Share, Overlap;
    if s == [] {
      assert p + s == p;
    } else {
      ExposureConcat(p, s[..|s| - 1], a, b);
      assert (p + s)[..|p + s| - 1] == p + s[..|s| - 1];
    }
  }

  /** Inside one row the integral is the row's level times the length. */
  lemma ExposureInRow(rows: seq<Row>, i: nat, a: real, b: real)
    requires Contiguous(rows) && i < |rows| && rows[i].left <= a <= b <= rows[i].right
    ensures Exposure(rows, a, b) == Times(rows[i].level, b - a) && Covered(rows, a, b) == b - a
  {
    hide Times, Share, Overlap, Exposure, Covered;
    var before, after := rows[..i], rows[i + 1..];
    forall j | 0 <= j < |rows| && j != i
      ensures rows[j].right <= a || b <= rows[j].left
    {
      RowsOrdered(rows, if j < i then j else i, if j < i then i else j);
    }
    NoExposure(before, a, b);
    NoExposure(after, a, b);
    assert rows == (before + [rows[i]]) + after;
    ExposureConcat(before + [rows[i]], after, a, b);
    ExposureConcat(before, [rows[i]], a, b);
    SingleRow(rows[i], a, b);
    InsideRow(rows[i], a, b);
  }

  lemma SingleRow(r: Row, a: real, b: real)
    ensures Exposure([r], a, b) == Share(r, a, b) && Covered([r], a, b) == Overlap(r, a, b)
  {
    hide Share, Overlap;
    assert [r][..0] == [];
  }

  /** A window inside the table is covered in full. */
  lemma {:induction false} FullyCovered(rows: seq<Row>, a: real, b: real)
    requires Contiguous(rows) && rows[0].left <= a <= b <= rows[|rows| - 1].right
    ensures Covered(rows, a, b) == b - a
  {
    hide Exposure, Covered;
    var n := |rows| - 1;
    if n == 0 {
      ExposureInRow(rows, 0, a, b);
    } else {
      CoveredUnfolds(rows, a, b);
      var cut := rows[n].left;
      var head := rows[..n];
      if b <= cut {
        OutsideRow(rows[n], a, b);
        FullyCovered(head, a, b);
      } else if a >= cut {
        ExposureInRow(rows, n, a, b);
      } else {
        ExposureAdds(rows, a, cut, b);
        ExposureInRow(rows, n, cut, b);
        CoveredUnfolds(rows, a, cut);
        OutsideRow(rows[n], a, cut);
        FullyCovered(head, a, cut);
      }
    }
  }

  lemma CoveredUnfolds(rows: seq<Row>, a: real, b: real)
    requires rows != []
    ensures Covered(rows, a, b) == Covered(rows[..|rows| - 1], a, b) + Overlap(rows[|rows| - 1], a, b)
  {
  }

  lemma OverlapNonNegative(r: Row, a: real, b: real)
    ensures Overlap(r, a, b) >= 0.0
  {
  }

  /** The integral is between the smallest and the largest level times the covered length. */
  lemma {:induction false} ExposureBounds(rows: seq<Row>, a: real, b: real, lo: real, hi: real)
    requires forall i :: 0 <= i < |rows| ==> lo <= rows[i].level <= hi
    ensures Times(lo, Covered(rows, a, b)) <= Exposure(rows, a, b) <= Times(hi, Covered(rows, a, b))
  {
    hide Times, Overlap;
    if rows == [] {
      TimesAdds(lo, 0.0, 0.0);
      TimesAdds(hi, 0.0, 0.0);
    } else {
      var r, head := rows[|rows| - 1], rows[..|rows| - 1];
      ExposureBounds(head, a, b, lo, hi);
      OverlapNonNegative(r, a, b);
      TimesOrder(lo, r.level, hi, Overlap(r, a, b));
      TimesAdds(lo, Covered(head, a, b), Overlap(r, a, b));
      TimesAdds(hi, Covered(head, a, b), Overlap(r, a, b));
    }
  }

  // ---------- Signal: bisect and cursor loop (feedback.py) ----------

  /** Intensity points sorted by distinct times, each holding until the next and the last until `end`. */
  datatype Signal = Signal(times: seq<real>, values: seq<real>, end: real)

  predicate ValidSignal(s: Signal) {
    && |s.times| == |s.values| && |s.times| > 0
    && (forall i :: 0 < i < |s.times| ==> s.times[i - 1] < s.times[i])
    && s.times[|s.times| - 1] < s.end
    && (forall i :: 0 <= i < |s.values| ==> s.values[i] >= 0.0)
  }

  function StopOf(s: Signal, i: nat): real
    requires i < |s.times|
  {
    if i + 1 < |s.times| then s.times[i + 1] else s.end
  }

  function Rows(s: Signal): (rows: seq<Row>)
    requires ValidSignal(s)
    ensures Contiguous(rows) && rows[0].left == s.times[0] && rows[|rows| - 1].right == s.end
  {
    seq(|s.times|, i requires 0 <= i < |s.times| => Row(s.times[i], StopOf(s, i), s.values[i]))
  }

  /** `bisect_right`: how many of the sorted times are at most x. */
  function BisectRight(times: seq<real>, x: real): (k: nat)
    requires forall i :: 0 < i < |times| ==> times[i - 1] < times[i]
    ensures k <= |times| && (k > 0 ==> times[k - 1] <= x) && (k < |times| ==> x < times[k])
  {
    if times == [] || times[|times| - 1] <= x then |times| else BisectRight(times[..|times| - 1], x)
  }

  lemma {:induction false} TimesGrow(times: seq<real>, i: nat, j: nat)
    requires forall i :: 0 < i < |times| ==> times[i - 1] < times[i]
    requires i < j < |times|
    ensures times[i] < times[j]
    decreases j - i
  {
    if i + 1 < j {
      TimesGrow(times, i, j - 1);
    }
  }

  /** What `Signal.mean` returns: nothing outside the covered window, else integral over duration. */
  function SignalMean(s: Signal, start: real, duration: real): Option<real>
    requires ValidSignal(s)
  {
    if duration <= 0.0 || start < s.times[0] || start + duration > s.end then None
    else Some(Exposure(Rows(s), start, start + duration) / duration)
  }

  /** How much of the cursor loop is left: rows ahead of the cursor, and whether it still runs. */
  function Remaining(s: Signal, cursor: real, end: real): nat
    requires ValidSignal(s)
  {
    |s.times| - BisectRight(s.times, cursor) + if cursor < end then 1 else 0
  }

  lemma CursorStep(s: Signal, start: real, end: real, cursor: real)
    requires ValidSignal(s) && s.times[0] <= start <= cursor < end <= s.end
    ensures var i := BisectRight(s.times, cursor) - 1;
            0 <= i && var stop := Min(end, StopOf(s, i));
            && cursor < stop <= end
            && Exposure(Rows(s), start, stop) ==
                 Exposure(Rows(s), start, cursor) + Times(s.values[i], stop - cursor)
            && Remaining(s, stop, end) < Remaining(s, cursor, end)
  {
    hide Exposure, Times, BisectRight, Contiguous, Min, StopOf, Remaining, Rows;
    CursorRow(s, end, cursor);
    var i := BisectRight(s.times, cursor) - 1;
    var stop := Min(end, StopOf(s, i));
    RowWindow(s, i, cursor, stop);
    ExposureAdds(Rows(s), start, cursor, stop);
    CursorShrinks(s, end, cursor);
  }

  lemma RowWindow(s: Signal, i: nat, a: real, b: real)
    requires ValidSignal(s) && i < |s.times| && s.times[i] <= a <= b <= StopOf(s, i)
    ensures Exposure(Rows(s), a, b) == Times(s.values[i], b - a)
  {
    hide Exposure, Times;
    ExposureInRow(Rows(s), i, a, b);
  }

  lemma CursorShrinks(s: Signal, end: real, cursor: real)
    requires ValidSignal(s) && s.times[0] <= cursor < end <= s.end
    ensures var i := BisectRight(s.times, cursor) - 1;
            0 <= i < |s.times| && Remaining(s, Min(end, StopOf(s, i)), end) < Remaining(s, cursor, end)
  {
    hide BisectRight;
    var i := BisectRight(s.times, cursor) - 1;
    BisectMonotone(s.times, cursor, Min(end, StopOf(s, i)));
  }

  lemma CursorRow(s: Signal, end: real, cursor: real)
    requires ValidSignal(s) && s.times[0] <= cursor < end <= s.end
    ensures var i := BisectRight(s.times, cursor) - 1;
            && 0 <= i < |s.times| && s.times[i] <= cursor
            && cursor < Min(end, StopOf(s, i)) <= end && Min(end, StopOf(s, i)) <= StopOf(s, i)
  {
    hide BisectRight;
  }

  method Mean(s: Signal, start: real, duration: real) returns (r: Option<real>)
    requires ValidSignal(s)
    ensures r == SignalMean(s, start, duration)
  {
    hide Exposure, BisectRight, Times, Rows, Min, Remaining;
    var end := start + duration;
    if duration <= 0.0 || start < s.times[0] || end > s.end {
      return None;
    }
    var total, cursor := 0.0, start;
    EmptyWindow(Rows(s), start);
    while cursor < end
      invariant start <= cursor <= end
      invariant total == Exposure(Rows(s), start, cursor)
      decreases Remaining(s, cursor, end)
    {
      CursorStep(s, start, end, cursor);
      var i := BisectRight(s.times, cursor) - 1;
      var stop := Min(end, StopOf(s, i));
      total := total + Times(s.values[i], stop - cursor);
      cursor := stop;
    }
    r := Some(total / duration);
  }

  lemma {:induction false} EmptyWindow(rows: seq<Row>, a: real)
    ensures Exposure(rows, a, a) == 0.0
  {
    ExposureAdds(rows, a, a, a);
  }

  lemma BisectMonotone(times: seq<real>, x: real, y: real)
    requires forall i :: 0 < i < |times| ==> times[i - 1] < times[i]
    requires x <= y
    ensures BisectRight(times, x) <= BisectRight(times, y)
    ensures BisectRight(times, x) < |times| && times[BisectRight(times, x)] <= y ==>
              BisectRight(times, x) < BisectRight(times, y)
  {
    hide BisectRight;
    var a, b := BisectRight(times, x), BisectRight(times, y);
    if b < a {
      if b < a - 1 {
        TimesGrow(times, b, a - 1);
      }
    }
  }

  // ---------- overlap scan (generate_policy_scenario.py) ----------

  /** Rows the scan keeps: those that reach into the window. */
  function Relevant(rows: seq<Row>, start: real, end: real): seq<Row> {
    if rows == [] then []
    else
      var rest := Relevant(rows[..|rows| - 1], start, end);
      var r := rows[|rows| - 1];
      if r.right > start && r.left < end then rest + [r] else rest
  }

  /** Dropping the rows outside the window changes nothing. */
  lemma {:induction false} RelevantExposure(rows: seq<Row>, start: real, end: real)
    ensures Exposure(Relevant(rows, start, end), start, end) == Exposure(rows, start, end)
    ensures Covered(Relevant(rows, start, end), start, end) == Covered(rows, start, end)
  {
    hide Share, Overlap;
    if rows != [] {
      var n := |rows| - 1;
      RelevantExposure(rows[..n], start, end);
      var rest := Relevant(rows[..n], start, end);
      assert (rest + [rows[n]])[..|rest|] == rest;
      if rows[n].right <= start || rows[n].left >= end {
        IrrelevantRow(rows[n], start, end);
      }
    }
  }

  lemma IrrelevantRow(r: Row, start: real, end: real)
    requires r.right <= start || r.left >= end
    ensures Overlap(r, start, end) == 0.0 && Share(r, start, end) == 0.0
  {
  }

  const COVERAGE_SLACK_S: real := 0.001

  datatype ScanError = IncompleteCoverage | NothingCovered

  datatype ScanResult = Average(value: real) | Failed(error: ScanError)

  /** `runtime_average_intensity`: the covered part's average, refused when more than 1 ms is missing. */
  method RuntimeAverage(carbon: seq<Row>, start: real, runtime: real) returns (r: ScanResult)
    ensures var end := start + runtime;
            r == if Covered(carbon, start, end) + COVERAGE_SLACK_S < runtime then Failed(IncompleteCoverage)
                 else if Covered(carbon, start, end) == 0.0 then Failed(NothingCovered)
                 else Average(Exposure(carbon, start, end) / Covered(carbon, start, end))
  {
    hide Times, Relevant, Min, Max;
    var end := start + runtime;
    var relevant := Relevant(carbon, start, end);
    var weighted, covered := 0.0, 0.0;
    RelevantExposure(carbon, start, end);
    for k := 0 to |relevant|
      invariant weighted == Exposure(relevant[..k], start, end)
      invariant covered == Covered(relevant[..k], start, end)
    {
      assert relevant[..k + 1][..k] == relevant[..k];
      var row := relevant[k];
      var overlap := Max(Min(end, row.right) - Max(start, row.left), 0.0);
      weighted := weighted + Times(row.level, overlap);
      covered := covered + overlap;
    }
    assert relevant[..|relevant|] == relevant;
    if covered + COVERAGE_SLACK_S < runtime {
      return Failed(IncompleteCoverage);
    }
    if covered == 0.0 {
      return Failed(NothingCovered);
    }
    r := Average(weighted / covered);
  }

  // ---------- prefix integral and interpolation (analyze_multiday_outcomes.py) ----------

  /** The cumulative integral at boundary k. */
  function Prefix(rows: seq<Row>, k: nat): real
    requires k <= |rows|
  {
    if k == 0 then 0.0
    else Prefix(rows, k - 1) + Times(rows[k - 1].level, rows[k - 1].right - rows[k - 1].left)
  }

  /** `numpy.interp` of the prefix integral: linear inside a row, constant beyond the ends. */
  function Interpolate(rows: seq<Row>, x: real, k: nat): real
    requires Contiguous(rows) && k < |rows|
    decreases k
  {
    if x >= rows[k].right then Prefix(rows, k + 1)
    else if x >= rows[k].left then
      Prefix(rows, k)
      + Times((Prefix(rows, k + 1) - Prefix(rows, k)) / (rows[k].right - rows[k].left), x - rows[k].left)
    else if k == 0 then 0.0
    else Interpolate(rows, x, k - 1)
  }

  function PrefixMean(rows: seq<Row>, start: real, runtime: real): real
    requires Contiguous(rows) && runtime > 0.0
  {
    (Interpolate(rows, start + runtime, |rows| - 1) - Interpolate(rows, start, |rows| - 1)) / runtime
  }

  lemma {:induction false} PrefixIsExposure(rows: seq<Row>, k: nat)
    requires Contiguous(rows) && k <= |rows|
    ensures Prefix(rows, k) == Exposure(rows, rows[0].left, if k == 0 then rows[0].left else rows[k - 1].right)
  {
    hide Exposure, Times;
    if k == 0 {
      EmptyWindow(rows, rows[0].left);
    } else {
      PrefixIsExposure(rows, k - 1);
      ExposureInRow(rows, k - 1, rows[k - 1].left, rows[k - 1].right);
      if k > 1 {
        RowsOrdered(rows, 0, k - 1);
      }
      ExposureAdds(rows, rows[0].left, rows[k - 1].left, rows[k - 1].right);
    }
  }

  lemma Slope(d: real, level: real)
    requires d > 0.0
    ensures Times(level, d) / d == level
  {
  }

  lemma {:induction false} InterpolateIsExposure(rows: seq<Row>, x: real, k: nat)
    requires Contiguous(rows) && k < |rows| && rows[0].left <= x <= rows[k].right
    ensures Interpolate(rows, x, k) == Exposure(rows, rows[0].left, x)
    decreases k
  {
    hide Exposure, Times;
    if x >= rows[k].right {
      PrefixIsExposure(rows, k + 1);
    } else if x >= rows[k].left {
      PrefixIsExposure(rows, k);
      Slope(rows[k].right - rows[k].left, rows[k].level);
      ExposureInRow(rows, k, rows[k].left, x);
      if k > 0 {
        RowsOrdered(rows, 0, k);
      }
      ExposureAdds(rows, rows[0].left, rows[k].left, x);
    } else {
      InterpolateIsExposure(rows, x, k - 1);
    }
  }

  // ---------- agreement ----------

  /** On a contiguous table that covers the run, the cursor loop, the overlap scan and the interpolated prefix
      integral all return the same mean. */
  lemma ThreeMeansAgree(s: Signal, start: real, duration: real)
    requires ValidSignal(s) && duration > 0.0 && s.times[0] <= start && start + duration <= s.end
    ensures SignalMean(s, start, duration) == Some(PrefixMean(Rows(s), start, duration))
    ensures Covered(Rows(s), start, start + duration) == duration
    ensures Exposure(Rows(s), start, start + duration) / Covered(Rows(s), start, start + duration)
            == PrefixMean(Rows(s), start, duration)
  {
    hide Exposure, Covered, Interpolate;
    var rows, end := Rows(s), start + duration;
    InterpolateIsExposure(rows, end, |rows| - 1);
    InterpolateIsExposure(rows, start, |rows| - 1);
    ExposureAdds(rows, rows[0].left, start, end);
    FullyCovered(rows, start, end);
  }

  /** The mean lies within the range of the signal. */
  lemma MeanWithinRange(s: Signal, start: real, duration: real, lo: real, hi: real)
    requires ValidSignal(s) && SignalMean(s, start, duration).Some?
    requires forall i :: 0 <= i < |s.values| ==> lo <= s.values[i] <= hi
    ensures lo <= SignalMean(s, start, duration).value <= hi
  {
    hide Exposure, Covered, Times;
    var rows := Rows(s);
    FullyCovered(rows, start, start + duration);
    ExposureBounds(rows, start, start + duration, lo, hi);
    Divide(lo, Exposure(rows, start, start + duration), hi, duration);
  }

  lemma Divide(lo: real, e: real, hi: real, d: real)
    requires d > 0.0 && Times(lo, d) <= e <= Times(hi, d)
    ensures lo <= e / d <= hi
  {
  }

  /** Duration-weighted means add over adjacent windows. */
  lemma MeansCombine(s: Signal, start: real, d: real, e: real)
    requires ValidSignal(s) && d > 0.0 && e > 0.0
    requires SignalMean(s, start, d + e).Some?
    ensures SignalMean(s, start, d).Some? && SignalMean(s, start + d, e).Some?
    ensures SignalMean(s, start, d).value * d + SignalMean(s, start + d, e).value * e
            == SignalMean(s, start, d + e).value * (d + e)
  {
    hide Exposure, Rows, SignalMean;
    MeanTimesDuration(s, start, d + e);
    MeanTimesDuration(s, start, d);
    MeanTimesDuration(s, start + d, e);
    assert start + d + e == start + (d + e);
    ExposureAdds(Rows(s), start, start + d, start + (d + e));
  }

  /** A mean times its duration is the integral; a longer window's mean gives its parts' means. */
  lemma MeanTimesDuration(s: Signal, start: real, d: real)
    requires ValidSignal(s) && d > 0.0
    ensures SignalMean(s, start, d).Some? <==> s.times[0] <= start && start + d <= s.end
    ensures SignalMean(s, start, d).Some? ==>
              SignalMean(s, start, d).value * d == Exposure(Rows(s), start, start + d)
  {
    hide Exposure, Rows;
    DivideBack(Exposure(Rows(s), start, start + d), d);
  }

  lemma DivideBack(x: real, d: real)
    requires d > 0.0
    ensures (x / d) * d == x
  {
  }
}
