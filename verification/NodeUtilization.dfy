/** Occupied nodes of the cluster: the history model's binned version and the carbon calculation's per-interval one. */
module NodeUtilization {
  import opened Basics
  import opened NodeUnion
  import opened IntervalAverage

  // ---------- node names ----------

  datatype Node = Node(gpu: bool, number: int)

  const TOTAL_NODES: nat := 202

  /** The names `expand_nodelist` lets through, whatever zero padding they were written with. */
  predicate Canonical(n: Node) {
    if n.gpu then 1 <= n.number <= 18 || 21 <= n.number <= 26 || 31 <= n.number <= 34
    else 1 <= n.number <= 150 || 201 <= n.number <= 212 || 301 <= n.number <= 312
  }

  /** The canonical nodes in order. */
  function NodeAt(i: nat): Node {
    if i < 150 then Node(false, i + 1)
    else if i < 162 then Node(false, i + 51)
    else if i < 174 then Node(false, i + 139)
    else if i < 192 then Node(true, i - 173)
    else if i < 198 then Node(true, i - 171)
    else Node(true, i - 167)
  }

  function IndexOf(n: Node): int {
    if n.gpu then n.number + (if n.number <= 18 then 173 else if n.number <= 26 then 171 else 167)
    else n.number - (if n.number <= 150 then 1 else if n.number <= 212 then 51 else 139)
  }

  /** There are exactly as many canonical names as nodes. */
  lemma CanonicalNodes(n: Node, i: nat)
    ensures Canonical(n) <==> 0 <= IndexOf(n) < TOTAL_NODES && NodeAt(IndexOf(n)) == n
    ensures i < TOTAL_NODES ==> Canonical(NodeAt(i)) && IndexOf(NodeAt(i)) == i
  {
  }

  /** A node list as the simulator writes it: one name, a bracket of numbers and ranges, or something else. */
  datatype Component = One(number: nat) | Range(first: nat, last: nat)

  datatype NodeList = Direct(gpu: bool, number: nat) | Bracket(gpu: bool, components: seq<Component>) | Other

  function Numbers(first: nat, last: nat): seq<nat>
    decreases last - first
  {
    if last < first then [] else if last == first then [last] else Numbers(first, last - 1) + [last]
  }

  function Candidates(gpu: bool, components: seq<Component>): seq<Node> {
    if components == [] then []
    else
      var rest := Candidates(gpu, components[..|components| - 1]);
      match components[|components| - 1]
      case One(number) => rest + [Node(gpu, number)]
      case Range(first, last) => rest + Named(gpu, Numbers(first, last))
  }

  function Named(gpu: bool, numbers: seq<nat>): seq<Node> {
    seq(|numbers|, i requires 0 <= i < |numbers| => Node(gpu, numbers[i]))
  }

  function Keep(nodes: seq<Node>): (r: seq<Node>)
    ensures forall n :: n in r <==> n in nodes && Canonical(n)
  {
    if nodes == [] then []
    else
      var rest, last := Keep(nodes[..|nodes| - 1]), nodes[|nodes| - 1];
      assert forall n :: n in nodes <==> n in nodes[..|nodes| - 1] || n == last;
      if Canonical(last) then rest + [last] else rest
  }

  function Expand(list: NodeList): seq<Node> {
    match list
    case Direct(gpu, number) => Keep([Node(gpu, number)])
    case Bracket(gpu, components) => Keep(Candidates(gpu, components))
    case Other => []
  }

  lemma ExpandIsCanonical(list: NodeList)
    ensures forall n :: n in Expand(list) ==> Canonical(n)
  {
  }

  /** The component is the number, or a range with the number between its ends, both included. */
  ghost predicate Mentions(c: Component, number: int) {
    match c
    case One(k) => number == k
    case Range(first, last) => first <= number <= last
  }

  /** The list names the node: it is one of the cluster's, of the list's kind, and written as itself or mentioned. */
  ghost predicate Names(list: NodeList, n: Node) {
    && Canonical(n)
    && match list
       case Direct(gpu, number) => n.gpu == gpu && n.number == number
       case Bracket(gpu, components) => n.gpu == gpu && exists c :: c in components && Mentions(c, n.number)
       case Other => false
  }

  lemma {:induction false} NumbersExactly(first: nat, last: nat)
    ensures forall k: nat :: k in Numbers(first, last) <==> first <= k <= last
    decreases last - first
  {
    if first < last {
      NumbersExactly(first, last - 1);
    }
  }

  lemma NamedExactly(gpu: bool, numbers: seq<nat>)
    ensures forall n :: n in Named(gpu, numbers) <==> n.gpu == gpu && n.number >= 0 && n.number in numbers
  {
    forall n: Node | n.gpu == gpu && n.number >= 0 && n.number in numbers
      ensures n in Named(gpu, numbers)
    {
      var i :| 0 <= i < |numbers| && numbers[i] == n.number;
      assert Named(gpu, numbers)[i] == n;
    }
  }

  ghost function Mentioned(gpu: bool, c: Component): seq<Node> {
    match c
    case One(number) => [Node(gpu, number)]
    case Range(first, last) => Named(gpu, Numbers(first, last))
  }

  lemma MentionedExactly(gpu: bool, c: Component)
    ensures forall n :: n in Mentioned(gpu, c) <==> n.gpu == gpu && Mentions(c, n.number)
  {
    hide Numbers, Named;
    if c.Range? {
      NumbersExactly(c.first, c.last);
      NamedExactly(gpu, Numbers(c.first, c.last));
    }
  }

  lemma {:induction false} CandidatesExactly(gpu: bool, components: seq<Component>)
    ensures forall n :: n in Candidates(gpu, components) <==>
              n.gpu == gpu && exists c :: c in components && Mentions(c, n.number)
  {
    hide Mentions;
    if components != [] {
      var front, last := components[..|components| - 1], components[|components| - 1];
      CandidatesExactly(gpu, front);
      MentionedExactly(gpu, last);
      assert Candidates(gpu, components) == Candidates(gpu, front) + Mentioned(gpu, last);
      assert forall c :: c in components <==> c in front || c == last;
    }
  }

  /** The expansion holds exactly the nodes that the list names. */
  lemma ExpandExactly(list: NodeList)
    ensures forall n :: n in Expand(list) <==> Names(list, n)
  {
    hide Canonical, Mentions;
    if list.Bracket? {
      CandidatesExactly(list.gpu, list.components);
    }
  }

  // ---------- what every node did ----------

  datatype Job = Job(list: NodeList, start: int, end: int)

  function Repeated(node: Node, nodes: seq<Node>, span: Span): seq<Span> {
    if nodes == [] then []
    else
      var rest := Repeated(node, nodes[..|nodes| - 1], span);
      if nodes[|nodes| - 1] == node then rest + [span] else rest
  }

  /** The node's spans, one for every time a job's list names it. */
  function SpansOf(jobs: seq<Job>, node: Node): seq<Span> {
    if jobs == [] then []
    else
      var last := jobs[|jobs| - 1];
      SpansOf(jobs[..|jobs| - 1], node) + Repeated(node, Expand(last.list), Span(last.start, last.end))
  }

  /** Node-time occupied inside [a, b) by the nodes of a set, counted node by node up to index n. */
  ghost function Occupancy(jobs: seq<Job>, nodes: set<Node>, a: int, b: int, n: nat): nat {
    if n == 0 then 0
    else
      Occupancy(jobs, nodes, a, b, n - 1)
      + if NodeAt(n - 1) in nodes then |Cover(SpansOf(jobs, NodeAt(n - 1))) * Window(a, b)| else 0
  }

  ghost function Everywhere(jobs: seq<Job>, a: int, b: int): nat {
    Occupancy(jobs, set i: nat | i < TOTAL_NODES :: NodeAt(i), a, b, TOTAL_NODES)
  }

  // ---------- what the occupancy counts ----------

  /** At second t some job that names the node runs. */
  ghost predicate Busy(jobs: seq<Job>, node: Node, t: int) {
    exists job :: job in jobs && Names(job.list, node) && job.start <= t < job.end
  }

  /** The busy seconds in [a, b) of the first n nodes. */
  ghost function BusyPairs(jobs: seq<Job>, a: int, b: int, n: nat): set<(nat, int)> {
    set i: nat, t: int | i < n && a <= t < b && Busy(jobs, NodeAt(i), t) :: (i, t)
  }

  lemma {:induction false} SpansExactly(jobs: seq<Job>, node: Node)
    ensures forall x :: x in SpansOf(jobs, node) <==>
              exists job :: job in jobs && Names(job.list, node) && x == Span(job.start, job.end)
  {
    hide Names, Expand, Repeated;
    if jobs != [] {
      var front, last := jobs[..|jobs| - 1], jobs[|jobs| - 1];
      SpansExactly(front, node);
      ExpandExactly(last.list);
      RepeatedSome(node, Expand(last.list), Span(last.start, last.end));
      FirstOf(Repeated(node, Expand(last.list), Span(last.start, last.end)));
      assert forall job :: job in jobs <==> job in front || job == last;
    }
  }

  lemma FirstOf<T>(s: seq<T>)
    ensures s != [] ==> s[0] in s
  {
  }

  lemma BusyExactly(jobs: seq<Job>, node: Node)
    ensures forall t :: t in Cover(SpansOf(jobs, node)) <==> Busy(jobs, node, t)
  {
    hide Names, Cover, SpansOf;
    SpansExactly(jobs, node);
    CoveredExactly(SpansOf(jobs, node));
    forall t | Busy(jobs, node, t)
      ensures t in Cover(SpansOf(jobs, node))
    {
      var job :| job in jobs && Names(job.list, node) && job.start <= t < job.end;
      assert t in Seconds(Span(job.start, job.end));
    }
  }

  /** The given seconds, as seconds of node i. */
  ghost function SecondsOf(i: nat, times: set<int>): set<(nat, int)> {
    set t | t in times :: (i, t)
  }

  lemma {:induction false} AsManySeconds(i: nat, times: set<int>)
    ensures |SecondsOf(i, times)| == |times|
    decreases |times|
  {
    if times != {} {
      var t := Member(times);
      var rest := times - {t};
      AsManySeconds(i, rest);
      assert SecondsOf(i, times) == SecondsOf(i, rest) + {(i, t)};
    }
  }

  lemma InWindow(a: int, b: int)
    ensures forall t :: t in Window(a, b) <==> a <= t < b
  {
  }

  /** The occupancy is the number of busy seconds, node by node. */
  lemma {:induction false} OccupancyCounts(jobs: seq<Job>, a: int, b: int, n: nat)
    requires n <= TOTAL_NODES
    ensures Occupancy(jobs, set i: nat | i < TOTAL_NODES :: NodeAt(i), a, b, n) == |BusyPairs(jobs, a, b, n)|
  {
    hide Busy, Cover, SpansOf, NodeAt, Window, BusyPairs, SecondsOf;
    if n > 0 {
      OccupancyCounts(jobs, a, b, n - 1);
      BusyExactly(jobs, NodeAt(n - 1));
      var times := Cover(SpansOf(jobs, NodeAt(n - 1))) * Window(a, b);
      InWindow(a, b);
      AsManySeconds(n - 1, times);
      assert NodeAt(n - 1) in set i: nat | i < TOTAL_NODES :: NodeAt(i);
      OneMoreRow(jobs, a, b, n, times);
    } else {
      NoPairs(jobs, a, b);
    }
  }

  lemma NoPairs(jobs: seq<Job>, a: int, b: int)
    ensures BusyPairs(jobs, a, b, 0) == {}
  {
  }

  lemma OneMoreRow(jobs: seq<Job>, a: int, b: int, n: nat, times: set<int>)
    requires n > 0
    requires forall t :: t in times <==> a <= t < b && Busy(jobs, NodeAt(n - 1), t)
    ensures |BusyPairs(jobs, a, b, n)| == |BusyPairs(jobs, a, b, n - 1)| + |SecondsOf(n - 1, times)|
  {
    hide Busy, NodeAt;
    var all, before := BusyPairs(jobs, a, b, n), BusyPairs(jobs, a, b, n - 1);
    var last := SecondsOf(n - 1, times);
    forall p: (nat, int)
      ensures p in all <==> p in before || p in last
    {
      assert p in last <==> p.0 == n - 1 && p.1 in times;
    }
    assert all == before + last;
    assert before !! last;
  }

  // ---------- collecting by node ----------

  type ByNode = map<Node, seq<Span>>

  function At(byNode: ByNode, node: Node): seq<Span> {
    if node in byNode then byNode[node] else []
  }

  /** Notes the span under every listed node. */
  method Register(byNode: ByNode, nodes: seq<Node>, span: Span) returns (r: ByNode)
    ensures forall n :: At(r, n) == At(byNode, n) + Repeated(n, nodes, span)
    ensures forall n :: n in r <==> n in byNode || n in nodes
  {
    hide Repeated;
    r := byNode;
    RepeatedNothing(nodes, span);
    for k := 0 to |nodes|
      invariant forall n :: At(r, n) == At(byNode, n) + Repeated(n, nodes[..k], span)
      invariant forall n :: n in r <==> n in byNode || n in nodes[..k]
    {
      RepeatedStep(nodes, k, span);
      r := r[nodes[k] := At(r, nodes[k]) + [span]];
    }
    assert nodes[..|nodes|] == nodes;
  }

  lemma RepeatedNothing(nodes: seq<Node>, span: Span)
    ensures forall n :: Repeated(n, nodes[..0], span) == []
  {
  }

  lemma RepeatedStep(nodes: seq<Node>, k: nat, span: Span)
    requires k < |nodes|
    ensures forall n :: Repeated(n, nodes[..k + 1], span)
                        == Repeated(n, nodes[..k], span) + if n == nodes[k] then [span] else []
  {
    assert nodes[..k + 1][..k] == nodes[..k];
  }

  lemma {:induction false} RepeatedSome(node: Node, nodes: seq<Node>, span: Span)
    ensures Repeated(node, nodes, span) != [] <==> node in nodes
    ensures forall x :: x in Repeated(node, nodes, span) ==> x == span
  {
    if nodes != [] {
      RepeatedSome(node, nodes[..|nodes| - 1], span);
      assert nodes == nodes[..|nodes| - 1] + [nodes[|nodes| - 1]];
    }
  }

  lemma RegisteredNonEmpty(byNode: ByNode, next: ByNode, nodes: seq<Node>, span: Span)
    requires forall n :: n in byNode ==> Canonical(n) && byNode[n] != []
    requires forall n :: n in nodes ==> Canonical(n)
    requires forall n :: At(next, n) == At(byNode, n) + Repeated(n, nodes, span)
    requires forall n :: n in next <==> n in byNode || n in nodes
    ensures forall n :: n in next ==> Canonical(n) && next[n] != []
  {
    hide Canonical, Repeated;
    forall n | n in next
      ensures Canonical(n) && next[n] != []
    {
      RepeatedSome(n, nodes, span);
      assert next[n] == At(next, n) == At(byNode, n) + Repeated(n, nodes, span);
    }
  }

  lemma {:induction false} ClippedAppend(xs: seq<Span>, ys: seq<Span>, a: int, b: int)
    ensures Clipped(xs + ys, a, b) == Clipped(xs, a, b) + Clipped(ys, a, b)
    decreases |ys|
  {
    if ys == [] {
      assert xs + ys == xs;
    } else {
      assert (xs + ys)[..|xs + ys| - 1] == xs + ys[..|ys| - 1];
      ClippedAppend(xs, ys[..|ys| - 1], a, b);
    }
  }

  lemma RepeatedUnfolds(node: Node, nodes: seq<Node>, x: Span)
    ensures nodes == [] ==> Repeated(node, nodes, x) == []
    ensures nodes != [] ==>
              var rest := Repeated(node, nodes[..|nodes| - 1], x);
              Repeated(node, nodes, x) == if nodes[|nodes| - 1] == node then rest + [x] else rest
  {
  }

  lemma ClippedNone(a: int, b: int)
    ensures Clipped([], a, b) == []
  {
  }

  lemma ClippedOneMore(xs: seq<Span>, x: Span, a: int, b: int)
    ensures var left, right := if x.start > a then x.start else a, if x.end < b then x.end else b;
            Clipped(xs + [x], a, b) == Clipped(xs, a, b) + if right <= left then [] else [Span(left, right)]
  {
    assert (xs + [x])[..|xs|] == xs;
  }

  lemma {:induction false} ClippedRepeated(node: Node, nodes: seq<Node>, x: Span, a: int, b: int)
    ensures var left, right := if x.start > a then x.start else a, if x.end < b then x.end else b;
            Clipped(Repeated(node, nodes, x), a, b)
            == if right <= left then [] else Repeated(node, nodes, Span(left, right))
  {
    hide Clipped, Repeated;
    var left, right := if x.start > a then x.start else a, if x.end < b then x.end else b;
    RepeatedUnfolds(node, nodes, x);
    RepeatedUnfolds(node, nodes, Span(left, right));
    ClippedNone(a, b);
    if nodes != [] {
      ClippedRepeated(node, nodes[..|nodes| - 1], x, a, b);
      ClippedOneMore(Repeated(node, nodes[..|nodes| - 1], x), x, a, b);
    }
  }

  lemma {:induction false} CutAppend(xs: seq<Span>, ys: seq<Span>, month: nat)
    ensures CutToMonth(xs + ys, month) == CutToMonth(xs, month) + CutToMonth(ys, month)
    decreases |ys|
  {
    if ys == [] {
      assert xs + ys == xs;
    } else {
      assert (xs + ys)[..|xs + ys| - 1] == xs + ys[..|ys| - 1];
      CutAppend(xs, ys[..|ys| - 1], month);
    }
  }

  lemma CutNone(month: nat)
    ensures CutToMonth([], month) == []
  {
  }

  lemma CutOneMore(xs: seq<Span>, x: Span, month: nat)
    ensures var left, right := if x.start > 0 then x.start else 0, if x.end < month then x.end else month;
            CutToMonth(xs + [x], month)
            == CutToMonth(xs, month) + if x.end <= 0 || x.start >= month then [] else [Span(left, right)]
  {
    assert (xs + [x])[..|xs|] == xs;
  }

  lemma {:induction false} CutRepeated(node: Node, nodes: seq<Node>, x: Span, month: nat)
    ensures var left, right := if x.start > 0 then x.start else 0, if x.end < month then x.end else month;
            CutToMonth(Repeated(node, nodes, x), month)
            == if x.end <= 0 || x.start >= month then [] else Repeated(node, nodes, Span(left, right))
  {
    hide CutToMonth, Repeated;
    var left, right := if x.start > 0 then x.start else 0, if x.end < month then x.end else month;
    RepeatedUnfolds(node, nodes, x);
    RepeatedUnfolds(node, nodes, Span(left, right));
    CutNone(month);
    if nodes != [] {
      CutRepeated(node, nodes[..|nodes| - 1], x, month);
      CutOneMore(Repeated(node, nodes[..|nodes| - 1], x), x, month);
    }
  }

  // ---------- adding up by node ----------

  lemma {:induction false} NoNodes(jobs: seq<Job>, a: int, b: int, n: nat)
    ensures Occupancy(jobs, {}, a, b, n) == 0
  {
    if n > 0 {
      NoNodes(jobs, a, b, n - 1);
    }
  }

  lemma {:induction false} OneMoreNode(jobs: seq<Job>, nodes: set<Node>, node: Node, a: int, b: int, n: nat)
    requires Canonical(node) && node !in nodes && n <= TOTAL_NODES
    ensures Occupancy(jobs, nodes + {node}, a, b, n)
            == Occupancy(jobs, nodes, a, b, n)
               + if IndexOf(node) < n then |Cover(SpansOf(jobs, node)) * Window(a, b)| else 0
  {
    hide Cover, SpansOf, Window, NodeAt, IndexOf, Canonical;
    if n > 0 {
      OneMoreNode(jobs, nodes, node, a, b, n - 1);
      CanonicalNodes(node, n - 1);
    } else {
      CanonicalNodes(node, 0);
    }
  }

  /** Nodes that did nothing inside the window do not count. */
  lemma {:induction false} OnlyBusyNodes(jobs: seq<Job>, some: set<Node>, all: set<Node>, a: int, b: int, n: nat)
    requires some <= all
    requires forall node :: node in all && node !in some ==> Cover(SpansOf(jobs, node)) * Window(a, b) == {}
    ensures Occupancy(jobs, some, a, b, n) == Occupancy(jobs, all, a, b, n)
  {
    hide Cover, SpansOf, Window, NodeAt;
    if n > 0 {
      OnlyBusyNodes(jobs, some, all, a, b, n - 1);
      if NodeAt(n - 1) in all && NodeAt(n - 1) !in some {
        assert |Cover(SpansOf(jobs, NodeAt(n - 1))) * Window(a, b)| == 0;
      }
    }
  }

  lemma WindowBound(s: set<int>, a: int, b: int)
    requires a <= b
    ensures |s * Window(a, b)| <= b - a
  {
    hide Window;
    SecondsCount(a, b);
    SubsetSmaller(s * Window(a, b), Window(a, b));
  }

  /** No more than every node all the time. */
  lemma {:induction false} OccupancyBound(jobs: seq<Job>, nodes: set<Node>, a: int, b: int, n: nat)
    requires a <= b
    ensures Occupancy(jobs, nodes, a, b, n) <= n * (b - a)
  {
    hide Cover, SpansOf, Window, NodeAt;
    if n > 0 {
      OccupancyBound(jobs, nodes, a, b, n - 1);
      WindowBound(Cover(SpansOf(jobs, NodeAt(n - 1))), a, b);
      assert n * (b - a) == (n - 1) * (b - a) + (b - a);
    }
  }

  // ---------- calculate_carbon.py ----------

  method CollectClipped(jobs: seq<Job>, a: int, b: int) returns (byNode: ByNode)
    ensures forall n :: At(byNode, n) == Clipped(SpansOf(jobs, n), a, b)
    ensures forall n :: n in byNode ==> Canonical(n) && byNode[n] != []
  {
    hide Expand, Clipped, Canonical, Repeated;
    byNode := map[];
    NothingYet(a, b, 0);
    for k := 0 to |jobs|
      invariant forall n :: At(byNode, n) == Clipped(SpansOf(jobs[..k], n), a, b)
      invariant forall n :: n in byNode ==> Canonical(n) && byNode[n] != []
    {
      var job := jobs[k];
      assert jobs[..k + 1][..k] == jobs[..k];
      var nodes := Expand(job.list);
      var start, end := if job.start > a then job.start else a, if job.end < b then job.end else b;
      ExpandIsCanonical(job.list);
      forall n
        ensures Clipped(SpansOf(jobs[..k + 1], n), a, b)
                == Clipped(SpansOf(jobs[..k], n), a, b)
                   + if end <= start then [] else Repeated(n, nodes, Span(start, end))
        ensures n in nodes <==> Repeated(n, nodes, Span(start, end)) != []
      {
        ClippedAppend(SpansOf(jobs[..k], n), Repeated(n, nodes, Span(job.start, job.end)), a, b);
        ClippedRepeated(n, nodes, Span(job.start, job.end), a, b);
        RepeatedSome(n, nodes, Span(start, end));
      }
      if nodes != [] && end > start {
        var next := Register(byNode, nodes, Span(start, end));
        RegisteredNonEmpty(byNode, next, nodes, Span(start, end));
        byNode := next;
      }
    }
    assert jobs[..|jobs|] == jobs;
  }

  lemma NothingYet(a: int, b: int, month: nat)
    ensures forall jobs: seq<Job>, n :: SpansOf(jobs[..0], n) == []
    ensures Clipped([], a, b) == [] && CutToMonth([], month) == []
  {
  }

  lemma AllCanonical(nodes: set<Node>)
    requires forall n :: n in nodes ==> Canonical(n)
    ensures nodes <= set i: nat | i < TOTAL_NODES :: NodeAt(i)
  {
    forall n | n in nodes
      ensures n in set i: nat | i < TOTAL_NODES :: NodeAt(i)
    {
      CanonicalNodes(n, 0);
      assert NodeAt(IndexOf(n)) == n;
    }
  }

  method AddUp(jobs: seq<Job>, byNode: ByNode, a: int, b: int) returns (occupied: int)
    requires forall n :: At(byNode, n) == Clipped(SpansOf(jobs, n), a, b)
    requires forall n :: n in byNode ==> Canonical(n) && byNode[n] != []
    ensures occupied == Everywhere(jobs, a, b)
  {
    hide Cover, SpansOf, Window, NodeAt, Canonical, Clipped, Occupancy, IndexOf, Everywhere;
    occupied := 0;
    var rest := byNode.Keys;
    ghost var summed: set<Node> := {};
    NoNodes(jobs, a, b, TOTAL_NODES);
    while rest != {}
      invariant summed + rest == byNode.Keys && summed !! rest
      invariant occupied == Occupancy(jobs, summed, a, b, TOTAL_NODES)
      decreases |rest|
    {
      ghost var member := Member(rest);
      var node :| node in rest;
      ClippedCovers(SpansOf(jobs, node), a, b);
      ClippedProper(SpansOf(jobs, node), a, b);
      assert byNode[node] == At(byNode, node);
      var length := UnionLength(byNode[node]);
      CanonicalNodes(node, 0);
      OneMoreNode(jobs, summed, node, a, b, TOTAL_NODES);
      summed := summed + {node};
      occupied := occupied + length;
      rest := rest - {node};
    }
    assert summed == byNode.Keys;
    AbsentMeansIdle(jobs, byNode, a, b);
  }

  /** The share of all node-time in [a, b) that is occupied. */
  ghost function NodeShare(jobs: seq<Job>, a: int, b: int): real {
    if b <= a then 0.0 else Everywhere(jobs, a, b) as real / ((b - a) as real * TOTAL_NODES as real)
  }

  /** The share of the node-seconds of all nodes in [from, from + step) at which some job that names the node runs. */
  ghost function BusyShare(jobs: seq<Job>, from: int, step: int): real
    requires step > 0
  {
    |BusyPairs(jobs, from, from + step, TOTAL_NODES)| as real / (step as real * TOTAL_NODES as real)
  }

  /** `allocated_node_utilization_for_interval`; its clamp to 1 never acts. */
  method AllocatedUtilization(jobs: seq<Job>, a: int, b: int) returns (r: real)
    ensures r == NodeShare(jobs, a, b) && 0.0 <= r <= 1.0
    ensures r == if b <= a then 0.0 else BusyShare(jobs, a, b - a)
  {
    hide Clipped, Occupancy, SpansOf, Canonical, NodeAt, BusyPairs;
    ShareCounts(jobs, a, b);
    var byNode := CollectClipped(jobs, a, b);
    if b - a <= 0 {
      return 0.0;
    }
    var occupied := AddUp(jobs, byNode, a, b);
    OccupancyBound(jobs, set i: nat | i < TOTAL_NODES :: NodeAt(i), a, b, TOTAL_NODES);
    ShareBound(occupied, b - a);
    r := Min(occupied as real / ((b - a) as real * TOTAL_NODES as real), 1.0);
  }

  lemma ShareCounts(jobs: seq<Job>, a: int, b: int)
    ensures NodeShare(jobs, a, b)
            == if b <= a then 0.0
               else |BusyPairs(jobs, a, b, TOTAL_NODES)| as real / ((b - a) as real * TOTAL_NODES as real)
  {
    hide Occupancy, BusyPairs;
    OccupancyCounts(jobs, a, b, TOTAL_NODES);
  }

  lemma AbsentMeansIdle(jobs: seq<Job>, byNode: ByNode, a: int, b: int)
    requires forall n :: At(byNode, n) == Clipped(SpansOf(jobs, n), a, b)
    requires forall n :: n in byNode ==> Canonical(n)
    ensures Occupancy(jobs, byNode.Keys, a, b, TOTAL_NODES) == Everywhere(jobs, a, b)
  {
    hide Cover, SpansOf, Window, NodeAt, Canonical, Clipped, Occupancy;
    var all := set i: nat | i < TOTAL_NODES :: NodeAt(i);
    AllCanonical(byNode.Keys);
    forall n | n in all && n !in byNode.Keys
      ensures Cover(SpansOf(jobs, n)) * Window(a, b) == {}
    {
      ClippedCovers(SpansOf(jobs, n), a, b);
      assert At(byNode, n) == [];
      EmptyCover();
    }
    OnlyBusyNodes(jobs, byNode.Keys, all, a, b, TOTAL_NODES);
  }

  lemma ShareBound(occupied: nat, duration: int)
    requires duration > 0 && occupied <= TOTAL_NODES * duration
    ensures 0.0 <= occupied as real / (duration as real * TOTAL_NODES as real) <= 1.0
  {
    var whole := duration as real * 202.0;
    assert whole > 0.0;
    assert occupied as real <= whole;
    var q := occupied as real / whole;
    assert q * whole == occupied as real;
    if q > 1.0 {
      assert (q - 1.0) * whole > 0.0;
    }
  }

  // ---------- build_history_quantile_model.py ----------

  predicate ProperJobs(jobs: seq<Job>) {
    forall i :: 0 <= i < |jobs| ==> jobs[i].start <= jobs[i].end
  }

  lemma NothingTouched(jobs: seq<Job>, month: int)
    ensures forall n :: !Touched(jobs[..0], month, n)
  {
  }

  /** A job that reaches into the month names the node. */
  ghost predicate Touched(jobs: seq<Job>, month: int, node: Node) {
    exists job :: job in jobs && Reaches(job, month) && node in Expand(job.list)
  }

  predicate Reaches(job: Job, month: int) {
    job.end > 0 && job.start < month
  }

  /** The cluster's nodes that some job reaching into the month names. */
  ghost function TouchedNodes(jobs: seq<Job>, month: int): set<Node> {
    set i: nat | i < TOTAL_NODES && Touched(jobs, month, NodeAt(i)) :: NodeAt(i)
  }

  lemma TouchedOneMore(jobs: seq<Job>, k: nat, month: int, node: Node)
    requires k < |jobs|
    ensures Touched(jobs[..k + 1], month, node) <==>
              Touched(jobs[..k], month, node) || (Reaches(jobs[k], month) && node in Expand(jobs[k].list))
  {
    hide Expand;
    assert forall job :: job in jobs[..k + 1] <==> job in jobs[..k] || job == jobs[k];
  }

  lemma CountedNodes(jobs: seq<Job>, byNode: ByNode, month: int)
    requires forall n :: n in byNode <==> Touched(jobs, month, n)
    requires forall n :: n in byNode ==> Canonical(n)
    ensures byNode.Keys == TouchedNodes(jobs, month)
  {
    hide Touched, Canonical, NodeAt, IndexOf;
    var touched := TouchedNodes(jobs, month);
    forall n | n in byNode.Keys
      ensures n in touched
    {
      CanonicalNodes(n, 0);
      assert NodeAt(IndexOf(n)) in touched;
    }
  }

  method CollectCut(jobs: seq<Job>, month: nat) returns (byNode: ByNode)
    ensures forall n :: At(byNode, n) == CutToMonth(SpansOf(jobs, n), month)
    ensures forall n :: n in byNode <==> Touched(jobs, month, n)
    ensures forall n :: n in byNode ==> Canonical(n) && byNode[n] != []
  {
    hide Expand, CutToMonth, Canonical, Repeated, Touched;
    byNode := map[];
    NothingYet(0, 0, month);
    NothingTouched(jobs, month);
    for k := 0 to |jobs|
      invariant forall n :: At(byNode, n) == CutToMonth(SpansOf(jobs[..k], n), month)
      invariant forall n :: n in byNode <==> Touched(jobs[..k], month, n)
      invariant forall n :: n in byNode ==> Canonical(n) && byNode[n] != []
    {
      var job := jobs[k];
      assert jobs[..k + 1][..k] == jobs[..k];
      var nodes := Expand(job.list);
      var outside := job.end <= 0 || job.start >= month;
      var span := Span(if job.start > 0 then job.start else 0, if job.end < month then job.end else month);
      ExpandIsCanonical(job.list);
      forall n
        ensures CutToMonth(SpansOf(jobs[..k + 1], n), month)
                == CutToMonth(SpansOf(jobs[..k], n), month) + if outside then [] else Repeated(n, nodes, span)
        ensures n in nodes <==> Repeated(n, nodes, span) != []
        ensures Touched(jobs[..k + 1], month, n) <==> Touched(jobs[..k], month, n) || (!outside && n in nodes)
      {
        CutAppend(SpansOf(jobs[..k], n), Repeated(n, nodes, Span(job.start, job.end)), month);
        CutRepeated(n, nodes, Span(job.start, job.end), month);
        TouchedOneMore(jobs, k, month, n);
        RepeatedSome(n, nodes, span);
      }
      if nodes != [] && !outside {
        var next := Register(byNode, nodes, span);
        RegisteredNonEmpty(byNode, next, nodes, span);
        byNode := next;
      }
    }
    assert jobs[..|jobs|] == jobs;
  }

  lemma {:induction false} SpansProper(jobs: seq<Job>, node: Node)
    requires ProperJobs(jobs)
    ensures Proper(SpansOf(jobs, node))
  {
    hide Expand;
    if jobs != [] {
      var last := jobs[|jobs| - 1];
      SpansProper(jobs[..|jobs| - 1], node);
      var more := Repeated(node, Expand(last.list), Span(last.start, last.end));
      RepeatedSome(node, Expand(last.list), Span(last.start, last.end));
      assert forall i :: 0 <= i < |more| ==> more[i] in more;
    }
  }

  lemma {:induction false} SharedAppend(xs: seq<Span>, ys: seq<Span>, a: int, b: int)
    ensures SharedTotal(xs + ys, a, b) == SharedTotal(xs, a, b) + SharedTotal(ys, a, b)
    decreases |ys|
  {
    if ys == [] {
      assert xs + ys == xs;
    } else {
      assert (xs + ys)[..|xs + ys| - 1] == xs + ys[..|ys| - 1];
      SharedAppend(xs, ys[..|ys| - 1], a, b);
    }
  }

  /** Merges every node's spans and lists them all. */
  method MergeAll(jobs: seq<Job>, byNode: ByNode, month: nat) returns (merged: seq<Span>)
    requires ProperJobs(jobs) && forall n :: At(byNode, n) == CutToMonth(SpansOf(jobs, n), month)
    requires forall n :: n in byNode ==> Canonical(n) && byNode[n] != []
    ensures forall a, b :: 0 <= a <= b <= month ==>
              SharedTotal(merged, a, b) == Occupancy(jobs, byNode.Keys, a, b, TOTAL_NODES)
    ensures forall x :: x in merged ==> 0 <= x.start <= x.end <= month
  {
    hide Cover, SpansOf, Window, NodeAt, Canonical, CutToMonth, Occupancy, IndexOf, SharedTotal, Apart;
    merged := [];
    var rest := byNode.Keys;
    ghost var summed: set<Node> := {};
    NothingMerged(jobs, month);
    while rest != {}
      invariant summed + rest == byNode.Keys && summed !! rest
      invariant forall a, b :: 0 <= a <= b <= month ==>
                  SharedTotal(merged, a, b) == Occupancy(jobs, summed, a, b, TOTAL_NODES)
      invariant forall x :: x in merged ==> 0 <= x.start <= x.end <= month
      decreases |rest|
    {
      ghost var member := Member(rest);
      var node :| node in rest;
      ghost var spans := SpansOf(jobs, node);
      SpansProper(jobs, node);
      CutProper(spans, month);
      assert byNode[node] == At(byNode, node);
      var more := Merge(byNode[node]);
      assert Bounded(byNode[node], 0, month);
      assert Bounded(more, 0, month);
      CanonicalNodes(node, 0);
      forall a, b | 0 <= a <= b <= month
        ensures SharedTotal(merged + more, a, b) == Occupancy(jobs, summed + {node}, a, b, TOTAL_NODES)
      {
        BothWaysAgree(spans, more, month, a, b);
        SharedAppend(merged, more, a, b);
        OneMoreNode(jobs, summed, node, a, b, TOTAL_NODES);
      }
      MergedProper(more);
      summed := summed + {node};
      merged := merged + more;
      rest := rest - {node};
    }
    assert summed == byNode.Keys;
  }

  lemma MergedProper(xs: seq<Span>)
    requires Proper(xs)
    ensures forall x :: x in xs ==> x.start <= x.end
  {
  }

  lemma NothingMerged(jobs: seq<Job>, month: nat)
    ensures forall a, b :: SharedTotal([], a, b) == Occupancy(jobs, {}, a, b, TOTAL_NODES)
  {
    forall a, b
      ensures SharedTotal([], a, b) == Occupancy(jobs, {}, a, b, TOTAL_NODES)
    {
      NoNodes(jobs, a, b, TOTAL_NODES);
    }
  }

  lemma CutAbsentMeansIdle(jobs: seq<Job>, byNode: ByNode, month: nat, a: int, b: int)
    requires 0 <= a <= b <= month && forall n :: At(byNode, n) == CutToMonth(SpansOf(jobs, n), month)
    requires forall n :: n in byNode ==> Canonical(n)
    ensures Occupancy(jobs, byNode.Keys, a, b, TOTAL_NODES) == Everywhere(jobs, a, b)
  {
    hide Cover, SpansOf, NodeAt, Canonical, CutToMonth, Occupancy;
    var all := set i: nat | i < TOTAL_NODES :: NodeAt(i);
    AllCanonical(byNode.Keys);
    forall n | n in all && n !in byNode.Keys
      ensures Cover(SpansOf(jobs, n)) * Window(a, b) == {}
    {
      CutCovers(SpansOf(jobs, n), month);
      assert At(byNode, n) == [];
      EmptyCover();
      assert Window(a, b) <= Window(0, month);
    }
    OnlyBusyNodes(jobs, byNode.Keys, all, a, b, TOTAL_NODES);
  }

  const NODE_WEIGHT: real := 1.0 / 202.0

  function Weighted(merged: seq<Span>): (r: seq<Interval>)
    ensures |r| == |merged|
  {
    seq(|merged|, i requires 0 <= i < |merged| => Interval(merged[i].start as real, merged[i].end as real, NODE_WEIGHT))
  }

  lemma ScaledMaxMin(x: real, y: real, s: real)
    requires s > 0.0
    ensures Times(Max(x, y), s) == Max(Times(x, s), Times(y, s))
    ensures Times(Min(x, y), s) == Min(Times(x, s), Times(y, s))
    ensures Times(x - y, s) == Times(x, s) - Times(y, s) && Times(0.0, s) == 0.0
  {
    if x > y {
      assert (x - y) * s > 0.0;
    } else {
      assert (y - x) * s >= 0.0;
    }
  }

  lemma Unscaled(x: int, i: nat, step: int)
    requires step > 0
    ensures Times(x as real / step as real, step as real) == x as real
    ensures Times(i as real, step as real) == (i * step) as real
  {
  }

  lemma ScaledOverlap(x: Span, step: int, i: nat)
    requires step > 0 && x.start <= x.end
    ensures Times(NODE_WEIGHT, UnitOverlap(x.start as real / step as real, x.end as real / step as real, i))
            == Shared(x, i * step, (i + 1) * step) as real / (step as real * TOTAL_NODES as real)
  {
    hide Times;
    var s := step as real;
    var u, v, lo, hi := x.start as real / s, x.end as real / s, i * step, (i + 1) * step;
    Unscaled(x.start, i, step);
    Unscaled(x.end, i + 1, step);
    var left, right := Max(u, i as real), Min(v, (i + 1) as real);
    ScaledMaxMin(u, i as real, s);
    ScaledMaxMin(v, (i + 1) as real, s);
    ScaledMaxMin(right, left, s);
    ScaledMaxMin(right - left, 0.0, s);
    SharedAsReal(x, lo, hi);
    ShareOf(UnitOverlap(u, v, i), Shared(x, lo, hi) as real, s);
  }

  lemma SharedAsReal(x: Span, a: int, b: int)
    ensures Shared(x, a, b) as real == Max(Min(x.end as real, b as real) - Max(x.start as real, a as real), 0.0)
  {
  }

  lemma ShareOf(overlap: real, shared: real, s: real)
    requires s > 0.0 && Times(overlap, s) == shared
    ensures Times(NODE_WEIGHT, overlap) == shared / (s * TOTAL_NODES as real)
  {
    var whole := s * 202.0;
    assert whole > 0.0;
    var q := overlap / 202.0;
    assert q * whole == shared;
    assert shared / whole == q;
    assert NODE_WEIGHT * overlap == q;
  }

  lemma SumOfShares(x: real, y: real, whole: real)
    requires whole > 0.0
    ensures x / whole + y / whole == (x + y) / whole
  {
  }

  lemma {:induction false} AddedIsShared(merged: seq<Span>, step: int, i: nat)
    requires step > 0 && forall x :: x in merged ==> x.start <= x.end
    ensures Added(Weighted(merged), step as real, i)
            == SharedTotal(merged, i * step, (i + 1) * step) as real / (step as real * TOTAL_NODES as real)
  {
    hide UnitOverlap, Shared, Times;
    var whole := step as real * TOTAL_NODES as real;
    assert whole > 0.0;
    if merged == [] {
    } else {
      var front, last := merged[..|merged| - 1], merged[|merged| - 1];
      assert last in merged && Weighted(merged)[..|merged| - 1] == Weighted(front);
      AddedIsShared(front, step, i);
      ScaledOverlap(last, step, i);
      SumOfShares(SharedTotal(front, i * step, (i + 1) * step) as real,
                  Shared(last, i * step, (i + 1) * step) as real, whole);
    }
  }

  lemma ProductOrder(x: int, y: int, s: int)
    requires x <= y && s > 0
    ensures x * s <= y * s
  {
    assert (y - x) * s >= 0;
  }

  lemma NextProduct(i: int, s: int)
    ensures (i + 1) * s == i * s + s
  {
  }

  lemma BinInMonth(step: int, bins: nat, i: nat)
    requires step > 0 && i < bins
    ensures 0 <= i * step <= (i + 1) * step <= bins * step && (i + 1) * step - i * step == step
  {
    ProductOrder(0, i, step);
    ProductOrder(i + 1, bins, step);
    NextProduct(i, step);
  }

  lemma WeightedFits(merged: seq<Span>, step: int, bins: nat)
    requires step > 0 && forall x :: x in merged ==> 0 <= x.start <= x.end <= bins * step
    ensures forall x :: x in Weighted(merged) ==> Fits(x, bins, step as real)
  {
    assert (bins * step) as real == bins as real * step as real;
    forall x | x in Weighted(merged)
      ensures Fits(x, bins, step as real)
    {
      var i :| 0 <= i < |merged| && Weighted(merged)[i] == x;
      assert merged[i] in merged;
    }
  }

  /** A job that reaches into the month names the node. */
  lemma TouchedExactly(jobs: seq<Job>, month: int)
    ensures forall i: nat :: i < TOTAL_NODES ==>
              (NodeAt(i) in TouchedNodes(jobs, month) <==>
                 exists job :: job in jobs && job.end > 0 && job.start < month && Names(job.list, NodeAt(i)))
  {
    hide NodeAt, Names, Expand;
    forall job | job in jobs
      ensures forall n :: n in Expand(job.list) <==> Names(job.list, n)
    {
      ExpandExactly(job.list);
    }
  }

  lemma BinShare(jobs: seq<Job>, step: int, i: nat)
    requires step > 0
    ensures NodeShare(jobs, i * step, (i + 1) * step) == BusyShare(jobs, i * step, step)
  {
    hide Everywhere, BusyPairs;
    NextProduct(i, step);
    ShareCounts(jobs, i * step, (i + 1) * step);
  }

  /** `unique_node_interval_load` over a month of whole bins: every bin holds the same share that
      `AllocatedUtilization` computes for it, and the count is that of the nodes named in the month. */
  method UniqueNodeLoad(jobs: seq<Job>, bins: nat, step: int) returns (values: array<real>, nodes: nat)
    requires step > 0 && bins > 0 && ProperJobs(jobs)
    ensures fresh(values) && values.Length == bins
    ensures forall i :: 0 <= i < bins ==> values[i] == NodeShare(jobs, i * step, (i + 1) * step)
    ensures forall i :: 0 <= i < bins ==>
              values[i] == BusyShare(jobs, i * step, step)
    ensures nodes == |TouchedNodes(jobs, bins * step)|
  {
    hide TouchedNodes, Touched, Added, Fits, Occupancy, Everywhere, SharedTotal, CutToMonth, SpansOf, Canonical,
         BusyShare;
    var month: nat := bins * step;
    var byNode := CollectCut(jobs, month);
    var merged := MergeAll(jobs, byNode, month);
    values := new real[bins](_ => 0.0);
    WeightedFits(merged, step, bins);
    AddIntervalAverage(values, Weighted(merged), step as real);
    forall i | 0 <= i < bins
      ensures values[i] == NodeShare(jobs, i * step, (i + 1) * step) == BusyShare(jobs, i * step, step)
    {
      BinShare(jobs, step, i);
      BinInMonth(step, bins, i);
      AddedIsShared(merged, step, i);
      CutAbsentMeansIdle(jobs, byNode, month, i * step, (i + 1) * step);
    }
    CountedNodes(jobs, byNode, month);
    nodes := |byNode.Keys|;
  }
}
