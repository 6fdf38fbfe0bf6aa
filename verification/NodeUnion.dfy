/** Merging the intervals of one node, and the two computations of occupied nodes that rest on it. Times are whole
    clock units. */
module NodeUnion {

  datatype Span = Span(start: int, end: int)

  predicate Runs(s: Span, t: int) {
    s.start <= t < s.end
  }

  function Seconds(s: Span): set<int> {
    set t | s.start <= t < s.end && Runs(s, t)
  }

  /** The instants at which some span runs. */
  function Cover(xs: seq<Span>): set<int> {
    if xs == [] then {} else Cover(xs[..|xs| - 1]) + Seconds(xs[|xs| - 1])
  }

  function Window(a: int, b: int): set<int> {
    Seconds(Span(a, b))
  }

  lemma {:induction false} SecondsCount(a: int, b: int)
    ensures |Window(a, b)| == if a < b then b - a else 0
    decreases b - a
  {
    if a < b {
      SecondsCount(a, b - 1);
      assert Window(a, b) == Window(a, b - 1) + {b - 1};
    } else {
      assert Window(a, b) == {};
    }
  }

  lemma {:induction false} CoveredExactly(xs: seq<Span>)
    ensures forall t :: t in Cover(xs) <==> exists x :: x in xs && t in Seconds(x)
  {
    hide Seconds;
    if xs != [] {
      CoveredExactly(xs[..|xs| - 1]);
      assert forall x :: x in xs <==> x in xs[..|xs| - 1] || x == xs[|xs| - 1];
    }
  }

  lemma SameSpansSameCover(xs: seq<Span>, ys: seq<Span>)
    requires forall x :: x in xs <==> x in ys
    ensures Cover(xs) == Cover(ys)
  {
    hide Seconds, Cover;
    CoveredExactly(xs);
    CoveredExactly(ys);
    forall t
      ensures t in Cover(xs) <==> t in Cover(ys)
    {
    }
  }

  // ---------- sorting ----------

  predicate Earlier(a: Span, b: Span) {
    a.start < b.start || (a.start == b.start && a.end <= b.end)
  }

  predicate Sorted(xs: seq<Span>) {
    forall i, j :: 0 <= i < j < |xs| ==> Earlier(xs[i], xs[j])
  }

  function InsertSpan(x: Span, xs: seq<Span>): seq<Span> {
    if xs == [] || Earlier(x, xs[0]) then [x] + xs else [xs[0]] + InsertSpan(x, xs[1..])
  }

  /** The intervals in order. */
  function Sort(xs: seq<Span>): seq<Span> {
    if xs == [] then [] else InsertSpan(xs[0], Sort(xs[1..]))
  }

  lemma EarlierTransitive(x: Span, y: Span, z: Span)
    requires Earlier(x, y) && Earlier(y, z)
    ensures Earlier(x, z)
  {
  }

  lemma EarlierTotal(x: Span, y: Span)
    ensures Earlier(x, y) || Earlier(y, x)
  {
  }

  lemma SortedCons(x: Span, xs: seq<Span>)
    requires Sorted(xs) && forall y :: y in xs ==> Earlier(x, y)
    ensures Sorted([x] + xs)
  {
    hide Earlier;
    var all := [x] + xs;
    assert forall j :: 0 < j < |all| ==> all[j] == xs[j - 1] && xs[j - 1] in xs;
  }

  lemma {:induction false} InsertKeeps(x: Span, xs: seq<Span>)
    requires Sorted(xs)
    ensures Sorted(InsertSpan(x, xs)) && multiset(InsertSpan(x, xs)) == multiset(xs) + multiset{x}
    ensures forall y :: y in InsertSpan(x, xs) <==> y == x || y in xs
  {
    hide Earlier;
    if xs == [] {
      SortedCons(x, []);
    } else {
      assert xs == [xs[0]] + xs[1..];
      if Earlier(x, xs[0]) {
        forall y | y in xs
          ensures Earlier(x, y)
        {
          if y != xs[0] {
            EarlierTransitive(x, xs[0], y);
          }
        }
        SortedCons(x, xs);
      } else {
        InsertKeeps(x, xs[1..]);
        EarlierTotal(x, xs[0]);
        SortedCons(xs[0], InsertSpan(x, xs[1..]));
      }
    }
  }

  lemma {:induction false} SortKeeps(xs: seq<Span>)
    ensures Sorted(Sort(xs)) && multiset(Sort(xs)) == multiset(xs) && forall x :: x in Sort(xs) <==> x in xs
  {
    hide InsertSpan, Earlier;
    if xs != [] {
      SortKeeps(xs[1..]);
      InsertKeeps(xs[0], Sort(xs[1..]));
      assert xs == [xs[0]] + xs[1..];
    }
    forall x
      ensures x in Sort(xs) <==> x in xs
    {
      assert x in Sort(xs) <==> x in multiset(Sort(xs));
    }
  }

  // ---------- the merge loop ----------

  predicate Proper(xs: seq<Span>) {
    forall i :: 0 <= i < |xs| ==> xs[i].start <= xs[i].end
  }

  /** Spans in order with a gap between neighbours. */
  predicate Apart(xs: seq<Span>) {
    forall i, j :: 0 <= i < j < |xs| ==> xs[i].end < xs[j].start
  }

  lemma CoverAppend(xs: seq<Span>, x: Span)
    ensures Cover(xs + [x]) == Cover(xs) + Seconds(x)
  {
    assert (xs + [x])[..|xs|] == xs;
  }

  ghost predicate Bounded(xs: seq<Span>, lo: int, hi: int) {
    forall x :: x in xs ==> lo <= x.start && x.end <= hi
  }

  /** The sort-and-merge loop: ordered, disjoint spans that cover exactly the same instants. */
  method Merge(intervals: seq<Span>) returns (merged: seq<Span>)
    requires intervals != [] && Proper(intervals)
    ensures merged != [] && Proper(merged) && Apart(merged)
    ensures Cover(merged) == Cover(intervals)
    ensures forall lo, hi :: Bounded(intervals, lo, hi) ==> Bounded(merged, lo, hi)
  {
    hide Cover, Sort, Seconds;
    var xs := Sort(intervals);
    SortKeeps(intervals);
    SameSpansSameCover(xs, intervals);
    assert intervals[0] in xs && Proper(xs) by {
      assert intervals[0] in intervals;
      forall i | 0 <= i < |xs|
        ensures xs[i].start <= xs[i].end
      {
        assert xs[i] in intervals;
      }
    }
    merged := [];
    var current := xs[0];
    FirstCover(xs);
    for k := 1 to |xs|
      invariant Proper(merged) && Apart(merged) && current.start <= current.end
      invariant forall i :: 0 <= i < |merged| ==> merged[i].end < current.start
      invariant Cover(merged + [current]) == Cover(xs[..k])
      invariant current.start <= xs[k - 1].start
      invariant forall lo, hi :: Bounded(intervals, lo, hi) ==> Bounded(merged, lo, hi) && Bounded([current], lo, hi)
    {
      var x := xs[k];
      assert x in intervals;
      assert Earlier(xs[k - 1], x);
      assert xs[..k + 1] == xs[..k] + [x];
      CoverAppend(xs[..k], x);
      CoverAppend(merged, current);
      if x.start <= current.end {
        Joined(current, x);
        current := Span(current.start, if x.end > current.end then x.end else current.end);
        CoverAppend(merged, current);
        assert Cover(merged + [current]) == Cover(xs[..k + 1]);
      } else {
        CoverAppend(merged + [current], x);
        merged := merged + [current];
        current := x;
      }
    }
    assert xs[..|xs|] == xs;
    merged := merged + [current];
  }

  lemma FirstCover(xs: seq<Span>)
    requires xs != []
    ensures Cover([] + [xs[0]]) == Cover(xs[..1])
  {
    assert [] + [xs[0]] == xs[..1];
  }

  lemma Joined(a: Span, b: Span)
    requires a.start <= b.start <= a.end && b.start <= b.end
    ensures Seconds(Span(a.start, if b.end > a.end then b.end else a.end)) == Seconds(a) + Seconds(b)
  {
  }

  // ---------- lengths ----------

  function Shared(x: Span, a: int, b: int): nat {
    var left, right := if x.start > a then x.start else a, if x.end < b then x.end else b;
    if right > left then right - left else 0
  }

  /** Overlap of all spans with [a, b), span by span. */
  function SharedTotal(xs: seq<Span>, a: int, b: int): nat {
    if xs == [] then 0 else SharedTotal(xs[..|xs| - 1], a, b) + Shared(xs[|xs| - 1], a, b)
  }

  lemma EmptyCover()
    ensures Cover([]) == {} && |Cover([])| == 0
  {
  }

  lemma CoverUnfolds(xs: seq<Span>, window: set<int>)
    requires xs != []
    ensures var front, x := xs[..|xs| - 1], xs[|xs| - 1];
            Cover(xs) * window == Cover(front) * window + Seconds(x) * window
  {
    hide Seconds;
  }

  lemma SharedIsCount(x: Span, a: int, b: int)
    ensures |Seconds(x) * Window(a, b)| == Shared(x, a, b)
  {
    var left, right := if x.start > a then x.start else a, if x.end < b then x.end else b;
    SecondsCount(left, right);
    assert Seconds(x) * Window(a, b) == Window(left, right);
  }

  /** For spans apart from each other the overlaps add up to the instants covered inside [a, b). */
  lemma {:induction false} ApartCounts(xs: seq<Span>, a: int, b: int)
    requires Apart(xs)
    ensures |Cover(xs) * Window(a, b)| == SharedTotal(xs, a, b)
  {
    hide Seconds, Shared, Window, Cover;
    if xs != [] {
      var front, last := xs[..|xs| - 1], xs[|xs| - 1];
      ApartCounts(front, a, b);
      SharedIsCount(last, a, b);
      ApartDisjoint(xs);
      CoverUnfolds(xs, Window(a, b));
      DisjointCount(Cover(front), Seconds(last), Window(a, b));
    } else {
      EmptyCover();
      assert Cover(xs) * Window(a, b) == {};
    }
  }

  lemma DisjointCount(p: set<int>, q: set<int>, w: set<int>)
    requires p !! q
    ensures |p * w + q * w| == |p * w| + |q * w|
  {
    assert p * w !! q * w;
  }

  lemma ApartDisjoint(xs: seq<Span>)
    requires Apart(xs) && xs != []
    ensures Cover(xs[..|xs| - 1]) !! Seconds(xs[|xs| - 1])
  {
    hide Cover;
    CoveredExactly(xs[..|xs| - 1]);
  }

  // ---------- clipping to a window ----------

  /** `allocated_node_utilization_for_interval` cuts every job to the window and drops what is left empty. */
  function Clipped(xs: seq<Span>, a: int, b: int): seq<Span> {
    if xs == [] then []
    else
      var rest, x := Clipped(xs[..|xs| - 1], a, b), xs[|xs| - 1];
      var left, right := if x.start > a then x.start else a, if x.end < b then x.end else b;
      if right <= left then rest else rest + [Span(left, right)]
  }

  lemma CutCount(x: Span, a: int, b: int)
    ensures var left, right := if x.start > a then x.start else a, if x.end < b then x.end else b;
            && Seconds(x) * Window(a, b) == Seconds(Span(left, right))
            && (right <= left ==> Seconds(Span(left, right)) == {})
  {
  }

  lemma {:induction false} ClippedCovers(xs: seq<Span>, a: int, b: int)
    ensures Cover(Clipped(xs, a, b)) == Cover(xs) * Window(a, b)
  {
    hide Seconds, Cover, Window;
    if xs == [] {
      EmptyCover();
    } else {
      var front, x := xs[..|xs| - 1], xs[|xs| - 1];
      ClippedCovers(front, a, b);
      CutCount(x, a, b);
      CoverUnfolds(xs, Window(a, b));
      var left, right := if x.start > a then x.start else a, if x.end < b then x.end else b;
      CoverAppend(Clipped(front, a, b), Span(left, right));
    }
  }

  lemma {:induction false} ClippedProper(xs: seq<Span>, a: int, b: int)
    ensures Proper(Clipped(xs, a, b))
  {
    if xs != [] {
      ClippedProper(xs[..|xs| - 1], a, b);
    }
  }

  /** The history model cuts to the month, drops what misses it, and keeps spans that are empty inside it. */
  function CutToMonth(xs: seq<Span>, month: int): seq<Span> {
    if xs == [] then []
    else
      var rest, x := CutToMonth(xs[..|xs| - 1], month), xs[|xs| - 1];
      if x.end <= 0 || x.start >= month then rest
      else rest + [Span(if x.start > 0 then x.start else 0, if x.end < month then x.end else month)]
  }

  lemma {:induction false} CutCovers(xs: seq<Span>, month: nat)
    ensures Cover(CutToMonth(xs, month)) == Cover(xs) * Window(0, month)
  {
    hide Seconds, Cover, Window;
    if xs == [] {
      EmptyCover();
    } else {
      var front, x := xs[..|xs| - 1], xs[|xs| - 1];
      CutCovers(front, month);
      CutCount(x, 0, month);
      CoverUnfolds(xs, Window(0, month));
      var left, right := if x.start > 0 then x.start else 0, if x.end < month then x.end else month;
      CoverAppend(CutToMonth(front, month), Span(left, right));
    }
  }

  lemma {:induction false} CutProper(xs: seq<Span>, month: nat)
    requires Proper(xs)
    ensures Proper(CutToMonth(xs, month))
    ensures forall x :: x in CutToMonth(xs, month) ==> 0 <= x.start && x.end <= month
  {
    if xs != [] {
      CutProper(xs[..|xs| - 1], month);
    }
  }

  function TotalLength(xs: seq<Span>): int {
    if xs == [] then 0 else TotalLength(xs[..|xs| - 1]) + (xs[|xs| - 1].end - xs[|xs| - 1].start)
  }

  lemma {:induction false} ApartLength(xs: seq<Span>)
    requires Apart(xs) && Proper(xs)
    ensures |Cover(xs)| == TotalLength(xs)
  {
    hide Seconds;
    if xs != [] {
      ApartLength(xs[..|xs| - 1]);
      ApartDisjoint(xs);
      SecondsCount(xs[|xs| - 1].start, xs[|xs| - 1].end);
    }
  }

  /** The length of a union: sort, merge and add up. */
  method UnionLength(intervals: seq<Span>) returns (total: int)
    requires intervals != [] && Proper(intervals)
    ensures total == |Cover(intervals)|
  {
    hide Cover;
    var merged := Merge(intervals);
    ApartLength(merged);
    total := 0;
    for k := 0 to |merged|
      invariant total == TotalLength(merged[..k])
    {
      assert merged[..k + 1][..k] == merged[..k];
      total := total + (merged[k].end - merged[k].start);
    }
    assert merged[..|merged|] == merged;
  }

  /** The merged spans of a month, cut by the plain overlap with a bin of it, give the same time as clipping the
      original spans to that bin and merging those. */
  lemma BothWaysAgree(xs: seq<Span>, merged: seq<Span>, month: nat, a: int, b: int)
    requires Apart(merged) && Cover(merged) == Cover(CutToMonth(xs, month)) && 0 <= a <= b <= month
    ensures SharedTotal(merged, a, b) == |Cover(xs) * Window(a, b)|
  {
    hide Cover;
    CutCovers(xs, month);
    ApartCounts(merged, a, b);
    assert Window(a, b) <= Window(0, month);
    assert Cover(merged) * Window(a, b) == Cover(xs) * Window(a, b);
  }
}
