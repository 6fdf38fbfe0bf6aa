/** Which offers win the budget: the best first, in terms of utility, release and job. */
module ControllerGreedy {
  import opened Basics
  import opened Selection
  import opened Controller
  import opened ControllerBooks
  import opened ControllerStep
  import opened ControllerBudget

  // ---------- ranking ----------

  lemma NotBeforeTransitive(a: Candidate, b: Candidate, c: Candidate)
    requires !Precedes(b, a) && !Precedes(c, b)
    ensures !Precedes(c, a)
  {
    hide UtilityOf;
  }

  lemma PrecedesAsymmetric(a: Candidate, b: Candidate)
    requires Precedes(a, b)
    ensures !Precedes(b, a)
  {
    hide UtilityOf;
  }

  lemma NeverBeforeItself(c: Candidate)
    ensures !Precedes(c, c)
  {
  }

  ghost predicate Sorted(s: seq<Candidate>) {
    forall i, j :: 0 <= i < j < |s| ==> !Precedes(s[j], s[i])
  }

  lemma {:induction false} InsertSorted(c: Candidate, s: seq<Candidate>)
    requires Sorted(s)
    ensures Sorted(Insert(c, s))
  {
    hide Precedes;
    if s == [] {
    } else if Precedes(c, s[0]) {
      PrecedesAsymmetric(c, s[0]);
      forall j | 0 <= j < |s|
        ensures !Precedes(s[j], c)
      {
        if j > 0 {
          NotBeforeTransitive(c, s[0], s[j]);
        }
      }
    } else {
      InsertSorted(c, s[1..]);
      InsertSameElements(c, s[1..]);
      var rest := Insert(c, s[1..]);
      forall j | 0 <= j < |rest|
        ensures !Precedes(rest[j], s[0])
      {
        assert rest[j] in multiset(rest);
        if rest[j] != c {
          assert rest[j] in s[1..];
        }
      }
    }
  }

  lemma {:induction false} RankSorted(cs: seq<Candidate>)
    ensures Sorted(Rank(cs))
  {
    hide Insert, Precedes;
    if cs != [] {
      RankSorted(cs[..|cs| - 1]);
      InsertSorted(cs[|cs| - 1], Rank(cs[..|cs| - 1]));
    }
  }

  /** No two different candidates share the sort key. */
  ghost predicate Keyed(cs: seq<Candidate>) {
    forall a, b :: a in cs && b in cs && !Precedes(a, b) && !Precedes(b, a) ==> a == b
  }

  lemma CandidatesKeyed(cfg: Config, arrivals: seq<Arrival>, states: seq<Observation>, now: real, seen: set<JobId>)
    requires ValidConfig(cfg) && Readable(cfg, states) && Fresh(cfg, seen, arrivals)
    ensures Keyed(AllCandidates(cfg, arrivals, states, now))
  {
    hide ValidConfig, AllCandidates, OnGrid, Feasible, AdmissionRules, OptionAt, Backlog, Immediate, Precedes;
    AllCandidatesExactly(cfg, arrivals, states, now);
    var cs := AllCandidates(cfg, arrivals, states, now);
    forall a, b | a in cs && b in cs && !Precedes(a, b) && !Precedes(b, a)
      ensures a == b
    {
      SameKey(a, b);
      var x :| x in arrivals && !Immediate(cfg, x.job) && Offered(cfg, x, states, now, a);
      var y :| y in arrivals && !Immediate(cfg, y.job) && Offered(cfg, y, states, now, b);
      assert x == y;
    }
  }

  lemma SameKey(a: Candidate, b: Candidate)
    requires !Precedes(a, b) && !Precedes(b, a)
    ensures a.job == b.job && a.option.release == b.option.release
  {
    hide UtilityOf;
  }

  // ---------- the greedy law ----------

  /** Offer a is better than offer b: more utility, else an earlier release, else a smaller job. */
  ghost predicate Better(a: Candidate, b: Candidate)
    requires a.option.utility.Finite? && b.option.utility.Finite?
  {
    var x, y := a.option.utility.value, b.option.utility.value;
    || x > y
    || (x == y && a.option.release < b.option.release)
    || (x == y && a.option.release == b.option.release && a.job < b.job)
  }

  /** Hold h comes from one of the offers `ranked`, and from a better one than d. */
  ghost predicate FromBetter(ranked: seq<Candidate>, h: Hold, d: Candidate)
    requires AllFinite(ranked) && d.option.utility.Finite?
  {
    exists c :: c in ranked && h == HoldFor(c) && Better(c, d)
  }

  ghost predicate AllFinite(ranked: seq<Candidate>) {
    forall c :: c in ranked ==> c.option.utility.Finite?
  }

  /** What the user's holds reserve, counting those in `kept` and those from better offers than d. */
  ghost function ReservedBefore(
    cfg: Config, held: seq<Hold>, kept: seq<Hold>, ranked: seq<Candidate>, d: Candidate, u: User): real
    requires (forall h :: h in held ==> h.job in cfg.jobs) && AllFinite(ranked) && d.option.utility.Finite?
  {
    if held == [] then 0.0
    else
      var h := held[|held| - 1];
      ReservedBefore(cfg, held[..|held| - 1], kept, ranked, d, u)
      + if cfg.jobs[h.job].user == u && (h in kept || FromBetter(ranked, h, d)) then h.reserved else 0.0
  }

  /** Offer d becomes a hold exactly when no better offer of its job does and it fits into its user's budget beside
      the holds kept and the holds from better offers. */
  ghost predicate Greedy(cfg: Config, spent: map<User, real>, kept: seq<Hold>, held: seq<Hold>,
                         ranked: seq<Candidate>, d: Candidate)
    requires (forall h :: h in held ==> h.job in cfg.jobs) && AllFinite(ranked) && d.option.utility.Finite?
    requires d.job in cfg.jobs
  {
    var u := cfg.jobs[d.job].user;
    HoldFor(d) in held <==>
      && (forall c :: c in ranked && c.job == d.job && Better(c, d) ==> HoldFor(c) !in held)
      && Get(spent, u) + ReservedBefore(cfg, held, kept, ranked, d, u) + (d.option.release - d.arrived)
           <= cfg.userBudget + BUDGET_SLACK_S
  }

  lemma PrecedesMeans(a: Candidate, b: Candidate)
    requires a.option.utility.Finite? && b.option.utility.Finite?
    ensures Precedes(a, b) <==> Better(a, b)
  {
  }

  lemma {:induction false} AdmitSplit(cfg: Config, st: State, a: seq<Candidate>, b: seq<Candidate>)
    requires forall c :: c in a || c in b ==> c.job in cfg.jobs
    ensures forall c :: c in a + b ==> c.job in cfg.jobs
    ensures Admit(cfg, st, a + b) == Admit(cfg, Admit(cfg, st, a), b)
    decreases |a|
  {
    hide AdmitOne;
    assert forall c :: c in a + b ==> c in a || c in b;
    if a == [] {
      assert a + b == b;
    } else {
      assert (a + b)[0] == a[0] && (a + b)[1..] == a[1..] + b;
      AdmitSplit(cfg, AdmitOne(cfg, st, a[0]), a[1..], b);
    }
  }

  lemma AdmitOneExactly(cfg: Config, st: State, c: Candidate)
    requires c.job in cfg.jobs
    ensures AdmitOne(cfg, st, c).held
            == if c.job in HeldJobs(st.held) || Overflows(cfg, st, c) then st.held else st.held + [HoldFor(c)]
  {
    hide Get, Add;
  }

  /** An offer that was passed over is not taken up later in the pass. */
  lemma {:induction false} PassedOver(
    cfg: Config, st: State, ranked: seq<Candidate>, now: real, limbo: set<JobId>, d: Candidate)
    requires ValidConfig(cfg) && Account(cfg, st, limbo)
    requires forall c :: c in ranked ==> Plannable(cfg, now, c)
    requires forall c :: c in ranked ==> c.job in limbo || c.job in HeldJobs(st.held)
    requires d.job in cfg.jobs && HoldFor(d) !in st.held && (d.job in HeldJobs(st.held) || Overflows(cfg, st, d))
    ensures HoldFor(d) !in Admit(cfg, st, ranked).held
    decreases |ranked|
  {
    hide ValidConfig, OnGrid, AdmitOne, Account, Committed;
    if ranked != [] {
      var c, rest := ranked[0], ranked[1..];
      AdmitOneEffect(cfg, st, c, now, limbo);
      AdmitOneExactly(cfg, st, c);
      var next := AdmitOne(cfg, st, c);
      AppendHeldJobs(st.held, HoldFor(c));
      PassedOver(cfg, next, rest, now, limbo - HeldJobs(next.held), d);
    }
  }

  // ---------- what is reserved when an offer's turn comes ----------

  lemma {:induction false} CountsAll(
    cfg: Config, held: seq<Hold>, kept: seq<Hold>, ranked: seq<Candidate>, d: Candidate, u: User)
    requires (forall h :: h in held ==> h.job in cfg.jobs) && AllFinite(ranked) && d.option.utility.Finite?
    requires forall h :: h in held ==> h in kept || FromBetter(ranked, h, d)
    ensures ReservedBefore(cfg, held, kept, ranked, d, u) == ReservedOf(cfg, held, u)
  {
    hide FromBetter;
    if held != [] {
      CountsAll(cfg, held[..|held| - 1], kept, ranked, d, u);
    }
  }

  lemma {:induction false} CountsFirst(
    cfg: Config, held: seq<Hold>, later: seq<Hold>, kept: seq<Hold>, ranked: seq<Candidate>, d: Candidate, u: User)
    requires (forall h :: h in held + later ==> h.job in cfg.jobs) && AllFinite(ranked) && d.option.utility.Finite?
    requires forall h :: h in later ==> !(h in kept || FromBetter(ranked, h, d))
    ensures forall h :: h in held ==> h.job in cfg.jobs
    ensures ReservedBefore(cfg, held + later, kept, ranked, d, u) == ReservedBefore(cfg, held, kept, ranked, d, u)
  {
    hide FromBetter;
    assert forall h :: h in held || h in later ==> h in held + later;
    if later == [] {
      assert held + later == held;
    } else {
      var n := |later| - 1;
      assert (held + later)[..|held + later| - 1] == held + later[..n];
      assert forall h :: h in held + later[..n] ==> h in held + later;
      CountsFirst(cfg, held, later[..n], kept, ranked, d, u);
    }
  }

  lemma {:induction false} CountsSame(
    cfg: Config, held: seq<Hold>, a: seq<Hold>, b: seq<Hold>, p: seq<Candidate>, q: seq<Candidate>, d: Candidate,
    u: User)
    requires (forall h :: h in held ==> h.job in cfg.jobs) && d.option.utility.Finite?
    requires AllFinite(p) && AllFinite(q) && (forall c :: c in p <==> c in q)
    requires forall h :: h in held ==> (h in a <==> h in b)
    ensures ReservedBefore(cfg, held, a, p, d, u) == ReservedBefore(cfg, held, b, q, d, u)
  {
    hide FromBetter;
    if held != [] {
      var h := held[|held| - 1];
      assert FromBetter(p, h, d) <==> FromBetter(q, h, d) by {
        SameFrom(p, q, h, d);
      }
      CountsSame(cfg, held[..|held| - 1], a, b, p, q, d, u);
    }
  }

  lemma SameFrom(p: seq<Candidate>, q: seq<Candidate>, h: Hold, d: Candidate)
    requires AllFinite(p) && AllFinite(q) && (forall c :: c in p <==> c in q) && d.option.utility.Finite?
    ensures FromBetter(p, h, d) <==> FromBetter(q, h, d)
  {
    hide Better;
  }

  lemma GreedySame(cfg: Config, spent: map<User, real>, a: seq<Hold>, b: seq<Hold>, held: seq<Hold>,
                   p: seq<Candidate>, q: seq<Candidate>, d: Candidate)
    requires (forall h :: h in held ==> h.job in cfg.jobs) && d.option.utility.Finite? && d.job in cfg.jobs
    requires AllFinite(p) && AllFinite(q) && (forall c :: c in p <==> c in q)
    requires forall h :: h in held ==> (h in a <==> h in b)
    requires Greedy(cfg, spent, a, held, p, d)
    ensures Greedy(cfg, spent, b, held, q, d)
  {
    hide Better, Get, ReservedBefore;
    CountsSame(cfg, held, a, b, p, q, d, cfg.jobs[d.job].user);
  }

  // ---------- the pass obeys the law ----------

  /** Different offers would make different holds. */
  ghost predicate OwnHolds(ranked: seq<Candidate>) {
    forall a, b :: a in ranked && b in ranked && HoldFor(a) == HoldFor(b) ==> a == b
  }

  /** What ranks before the first place of d is better than d; nothing after it is. */
  lemma BetterIsBefore(ranked: seq<Candidate>, i: nat)
    requires Sorted(ranked) && Keyed(ranked) && AllFinite(ranked)
    requires i < |ranked| && ranked[i] !in ranked[..i]
    ensures forall c :: c in ranked[..i] ==> Better(c, ranked[i])
    ensures forall c :: c in ranked[i..] ==> !Better(c, ranked[i])
  {
    hide Precedes, Better;
    var d := ranked[i];
    forall c | c in ranked[..i]
      ensures Better(c, d)
    {
      var k :| 0 <= k < i && ranked[k] == c;
      assert c in ranked && d in ranked && !Precedes(d, c);
      PrecedesMeans(c, d);
    }
    forall c | c in ranked[i..]
      ensures !Better(c, d)
    {
      var k :| i <= k < |ranked| && ranked[k] == c;
      NeverBeforeItself(d);
      PrecedesMeans(c, d);
      assert !Precedes(c, d);
    }
  }

  lemma {:induction false} FirstPlace(ranked: seq<Candidate>, d: Candidate) returns (i: nat)
    requires d in ranked
    ensures i < |ranked| && ranked[i] == d && d !in ranked[..i]
  {
    if ranked[0] == d {
      i := 0;
    } else {
      var j := FirstPlace(ranked[1..], d);
      i := j + 1;
      assert ranked[..i] == [ranked[0]] + ranked[1..][..j];
    }
  }

  /** The state in which the pass meets its offer number i. */
  ghost function AtTurn(cfg: Config, st: State, ranked: seq<Candidate>, i: nat): State
    requires (forall c :: c in ranked ==> c.job in cfg.jobs) && i < |ranked|
  {
    assert forall c :: c in ranked[..i] ==> c in ranked;
    Admit(cfg, st, ranked[..i])
  }

  lemma AroundTurn(cfg: Config, st: State, ranked: seq<Candidate>, i: nat, now: real, limbo: set<JobId>)
    requires ValidConfig(cfg) && Account(cfg, st, limbo) && i < |ranked|
    requires forall c :: c in ranked ==> Plannable(cfg, now, c) && c.job in limbo
    ensures forall c :: c in ranked ==> c.job in cfg.jobs
    ensures var before, r := AtTurn(cfg, st, ranked, i), Admit(cfg, st, ranked);
            && (forall c :: c in ranked[..i] || c in ranked[i..] ==> c in ranked)
            && Admitted(cfg, st, before, ranked[..i])
            && Account(cfg, before, limbo - HeldJobs(before.held))
            && Admit(cfg, before, ranked[i..]) == r
            && Admitted(cfg, before, r, ranked[i..])
            && Distinct(r.held) && (forall h :: h in r.held ==> h.job in cfg.jobs)
            && (forall c :: c in ranked ==> c.job !in HeldJobs(st.held))
  {
    hide ValidConfig, Plannable, Admit, Admitted, HeldJobs, AllPlanned, ReservedExact;
    assert ranked == ranked[..i] + ranked[i..];
    assert forall c :: c in ranked[..i] || c in ranked[i..] ==> c in ranked;
    forall c | c in ranked
      ensures c.job in cfg.jobs
    {
      PlannableKnown(cfg, now, c);
    }
    AdmitSplit(cfg, st, ranked[..i], ranked[i..]);
    AdmitEffect(cfg, st, ranked[..i], now, limbo);
    var before := AtTurn(cfg, st, ranked, i);
    AdmitEffect(cfg, before, ranked[i..], now, limbo - HeldJobs(before.held));
    AccountKnown(cfg, Admit(cfg, st, ranked),
                 limbo - HeldJobs(before.held) - HeldJobs(Admit(cfg, st, ranked).held));
  }

  lemma PlannableKnown(cfg: Config, now: real, c: Candidate)
    requires ValidConfig(cfg) && Plannable(cfg, now, c)
    ensures c.job in cfg.jobs
  {
  }

  lemma AccountKnown(cfg: Config, st: State, limbo: set<JobId>)
    requires ValidConfig(cfg) && Account(cfg, st, limbo)
    ensures Distinct(st.held) && forall h :: h in st.held ==> h.job in cfg.jobs
  {
    hide ValidConfig, OnGrid, ReservedExact;
  }

  lemma LaterHold(held: seq<Hold>, all: seq<Hold>, h: Hold)
    requires held <= all && Distinct(all) && h in all[|held|..]
    ensures h in all && h !in held
  {
    var j :| |held| <= j < |all| && all[j] == h;
    assert forall k :: 0 <= k < |held| ==> held[k] == all[k];
  }

  /** When the turn of offer d comes, exactly the holds kept and those from better offers are reserved. */
  lemma ReservedAtTurn(cfg: Config, st: State, ranked: seq<Candidate>, i: nat, now: real, limbo: set<JobId>, u: User)
    requires ValidConfig(cfg) && Account(cfg, st, limbo) && i < |ranked| && ranked[i] !in ranked[..i]
    requires forall c :: c in ranked ==> Plannable(cfg, now, c) && c.job in limbo
    requires Sorted(ranked) && Keyed(ranked) && AllFinite(ranked) && OwnHolds(ranked)
    ensures forall c :: c in ranked ==> c.job in cfg.jobs
    ensures var before, r := AtTurn(cfg, st, ranked, i), Admit(cfg, st, ranked);
            && (forall h :: h in r.held ==> h.job in cfg.jobs)
            && Committed(before, u) == Get(st.spent, u) + ReservedBefore(cfg, r.held, st.held, ranked, ranked[i], u)
  {
    hide ValidConfig, Plannable, Admit, HeldJobs, AllPlanned, Sorted, Keyed, Better, AtTurn, Partition, HoldFor, Get,
         ReservedBefore, Overflows;
    AroundTurn(cfg, st, ranked, i, now, limbo);
    BetterIsBefore(ranked, i);
    var d, before, r := ranked[i], AtTurn(cfg, st, ranked, i), Admit(cfg, st, ranked);
    var later := r.held[|before.held|..];
    assert r.held == before.held + later;
    forall h | h in later
      ensures !(h in st.held || FromBetter(ranked, h, d))
    {
      LaterHold(before.held, r.held, h);
      assert h !in st.held;
      var c :| c in ranked[i..] && h == HoldFor(c);
    }
    assert forall h :: h in before.held ==> h in r.held;
    forall h | h in before.held && h !in st.held
      ensures FromBetter(ranked, h, d)
    {
      var c :| c in ranked[..i] && h == HoldFor(c);
    }
    CountsFirst(cfg, before.held, later, st.held, ranked, d, u);
    CountsAll(cfg, before.held, st.held, ranked, d, u);
    assert Get(before.reserved, u) == ReservedOf(cfg, before.held, u);
  }

  lemma GreedyAdmit(cfg: Config, st: State, ranked: seq<Candidate>, now: real, limbo: set<JobId>, d: Candidate)
    requires ValidConfig(cfg) && Account(cfg, st, limbo) && d in ranked
    requires forall c :: c in ranked ==> Plannable(cfg, now, c) && c.job in limbo
    requires Sorted(ranked) && Keyed(ranked) && AllFinite(ranked) && OwnHolds(ranked)
    ensures forall c :: c in ranked ==> c.job in cfg.jobs
    ensures var r := Admit(cfg, st, ranked);
            && (forall h :: h in r.held ==> h.job in cfg.jobs)
            && Greedy(cfg, st.spent, st.held, r.held, ranked, d)
  {
    hide ValidConfig, Plannable, Admit, AllPlanned, Sorted, Keyed, Better, AtTurn, Partition, Get,
         ReservedBefore, ReservedExact;
    var i := FirstPlace(ranked, d);
    AroundTurn(cfg, st, ranked, i, now, limbo);
    BetterIsBefore(ranked, i);
    ReservedAtTurn(cfg, st, ranked, i, now, limbo, cfg.jobs[d.job].user);
    var before, r := AtTurn(cfg, st, ranked, i), Admit(cfg, st, ranked);
    assert forall h :: h in before.held ==> h in r.held;
    assert d !in ranked[..i] && HoldFor(d) !in before.held by {
      assert HoldFor(d) in st.held ==> d.job in HeldJobs(st.held);
    }
    if d.job in HeldJobs(before.held) {
      var h :| h in before.held && h.job == d.job;
      assert h !in st.held;
      var c :| c in ranked[..i] && h == HoldFor(c);
      assert c in ranked && c.job == d.job && Better(c, d) && HoldFor(c) in r.held;
    }
    if d.job in HeldJobs(before.held) || Overflows(cfg, before, d) {
      assert forall c :: c in ranked[i..] ==> c.job in limbo - HeldJobs(before.held) || c.job in HeldJobs(before.held);
      PassedOver(cfg, before, ranked[i..], now, limbo - HeldJobs(before.held), d);
    } else {
      AdmittedNow(cfg, before, ranked[i..], d, r);
      assert d in ranked[i..];
      forall c | c in ranked && c.job == d.job && Better(c, d)
        ensures HoldFor(c) !in r.held
      {
        if HoldFor(c) in r.held {
          SameJobSameHold(r.held, HoldFor(c), HoldFor(d));
        }
      }
    }
  }

  lemma AdmittedNow(cfg: Config, st: State, ranked: seq<Candidate>, d: Candidate, r: State)
    requires (forall c :: c in ranked ==> c.job in cfg.jobs) && ranked != [] && ranked[0] == d
    requires d.job !in HeldJobs(st.held) && !Overflows(cfg, st, d) && r == Admit(cfg, st, ranked)
    ensures HoldFor(d) in r.held
  {
    hide AdmitOne, Overflows;
    AdmitOneExactly(cfg, st, d);
    var next := AdmitOne(cfg, st, d);
    assert HoldFor(d) in next.held;
    AdmitGrows(cfg, next, ranked[1..]);
  }

  lemma {:induction false} AdmitGrows(cfg: Config, st: State, ranked: seq<Candidate>)
    requires forall c :: c in ranked ==> c.job in cfg.jobs
    ensures st.held <= Admit(cfg, st, ranked).held
    decreases |ranked|
  {
    hide AdmitOne, Overflows;
    if ranked != [] {
      AdmitOneExactly(cfg, st, ranked[0]);
      AdmitGrows(cfg, AdmitOne(cfg, st, ranked[0]), ranked[1..]);
    }
  }

  // ---------- the offers of one step ----------

  lemma OfferedFinite(cfg: Config, arrivals: seq<Arrival>, states: seq<Observation>, now: real, c: Candidate)
    requires ValidConfig(cfg) && Readable(cfg, states) && forall a :: a in arrivals ==> a.job in cfg.jobs
    requires OfferedTo(cfg, arrivals, states, now, c)
    ensures c.option.utility.Finite?
  {
    hide ValidConfig, OnGrid, OptionAt, Backlog;
  }

  lemma OfferedOwnHold(
    cfg: Config, arrivals: seq<Arrival>, states: seq<Observation>, now: real, a: Candidate, b: Candidate)
    requires ValidConfig(cfg) && Readable(cfg, states) && forall a :: a in arrivals ==> a.job in cfg.jobs
    requires OfferedTo(cfg, arrivals, states, now, a) && OfferedTo(cfg, arrivals, states, now, b)
    requires HoldFor(a) == HoldFor(b)
    ensures a == b
  {
    hide ValidConfig, OnGrid, OptionAt, Backlog, Feasible, AdmissionRules;
  }

  lemma OffersRanked(cfg: Config, arrivals: seq<Arrival>, states: seq<Observation>, now: real, seen: set<JobId>)
    requires ValidConfig(cfg) && Readable(cfg, states) && Fresh(cfg, seen, arrivals)
    ensures var cs := AllCandidates(cfg, arrivals, states, now);
            && AllFinite(cs) && AllFinite(Rank(cs)) && (forall c :: c in Rank(cs) <==> c in cs)
            && Sorted(Rank(cs)) && Keyed(Rank(cs)) && OwnHolds(Rank(cs))
  {
    hide ValidConfig, AllCandidates, OfferedTo, Rank, Precedes, OncePerJob, HoldFor;
    var cs := AllCandidates(cfg, arrivals, states, now);
    AllCandidatesExactly(cfg, arrivals, states, now);
    RankSameElements(cs);
    RankSorted(cs);
    CandidatesKeyed(cfg, arrivals, states, now, seen);
    forall c | c in cs
      ensures c.option.utility.Finite?
    {
      OfferedFinite(cfg, arrivals, states, now, c);
    }
    forall a, b | a in cs && b in cs && HoldFor(a) == HoldFor(b)
      ensures a == b
    {
      OfferedOwnHold(cfg, arrivals, states, now, a, b);
    }
  }
}
