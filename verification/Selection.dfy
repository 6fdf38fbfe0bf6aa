/** Feasible-first selection with an audit row per option (`policy_v2/selection.py`). */
module Selection {
  import opened Basics

  /** A score that is missing, not a number, or infinite is `Unusable`. */
  datatype Score = Unusable | Finite(value: real)

  datatype Gate<!T> = Gate(name: string, holds: T -> bool)

  datatype AuditRow = AuditRow(index: nat, accepted: bool, reasons: seq<string>)

  /** What `choose` is told about the options: the gates, the score, the tie-break and the direction. */
  datatype Rules<!T> = Rules(gates: seq<Gate<T>>, score: T -> Score, release: T -> real, maximize: bool)

  /** The names of the gates an option fails, in gate order. */
  function Failures<T>(x: T, gates: seq<Gate<T>>): seq<string> {
    if gates == [] then []
    else
      var rest := Failures(x, gates[..|gates| - 1]);
      var gate := gates[|gates| - 1];
      if gate.holds(x) then rest else rest + [gate.name]
  }

  function Reasons<T>(x: T, rules: Rules<T>): seq<string> {
    Failures(x, rules.gates) + if rules.score(x).Finite? then [] else ["non_finite_score"]
  }

  predicate Feasible<T>(x: T, rules: Rules<T>) {
    Reasons(x, rules) == []
  }

  /** The key of x is strictly smaller than the key of y: a better score, or the same and earlier. */
  predicate Before<T>(x: T, y: T, rules: Rules<T>)
    requires rules.score(x).Finite? && rules.score(y).Finite?
  {
    var a, b := rules.score(x).value, rules.score(y).value;
    if rules.maximize then a > b || (a == b && rules.release(x) < rules.release(y))
    else a < b || (a == b && rules.release(x) < rules.release(y))
  }

  /** Among the first n options: the first feasible one that no other feasible one comes before. */
  ghost predicate IsChoice<T>(options: seq<T>, n: nat, rules: Rules<T>, best: Option<nat>)
    requires n <= |options|
  {
    match best
    case None => forall j :: 0 <= j < n ==> !Feasible(options[j], rules)
    case Some(i) =>
      && i < n && Feasible(options[i], rules)
      && (forall j :: 0 <= j < n && Feasible(options[j], rules) ==> !Before(options[j], options[i], rules))
      && (forall j :: 0 <= j < i && Feasible(options[j], rules) ==> Before(options[i], options[j], rules))
  }

  /** The audit row of option i once the choice is known. */
  function FinalRow<T>(options: seq<T>, i: nat, rules: Rules<T>, best: Option<nat>): AuditRow
    requires i < |options|
  {
    var reasons := Reasons(options[i], rules);
    AuditRow(i, best == Some(i),
             if reasons != [] || best == Some(i) || best == None then reasons else ["feasible_lower_rank"])
  }

  /** An option passes when every gate holds and its score is a finite number. */
  ghost predicate Passes<T>(x: T, rules: Rules<T>) {
    (forall k :: 0 <= k < |rules.gates| ==> rules.gates[k].holds(x)) && rules.score(x).Finite?
  }

  /** Option i is chosen over option j: a better score, else an earlier release, else the earlier place. */
  ghost predicate Beats<T>(options: seq<T>, rules: Rules<T>, i: nat, j: nat)
    requires i < |options| && j < |options| && rules.score(options[i]).Finite? && rules.score(options[j]).Finite?
  {
    var a, b := rules.score(options[i]).value, rules.score(options[j]).value;
    var earlier := rules.release(options[i]) < rules.release(options[j])
                   || (rules.release(options[i]) == rules.release(options[j]) && i < j);
    (if rules.maximize then b < a else a < b) || (a == b && earlier)
  }

  /** The best option that passes, if any does. */
  ghost predicate BestOf<T>(options: seq<T>, rules: Rules<T>, best: Option<nat>) {
    match best
    case None => forall j :: 0 <= j < |options| ==> !Passes(options[j], rules)
    case Some(i) =>
      && i < |options| && Passes(options[i], rules)
      && forall j :: 0 <= j < |options| && j != i && Passes(options[j], rules) ==> Beats(options, rules, i, j)
  }

  lemma {:induction false} NoFailures<T>(x: T, gates: seq<Gate<T>>)
    ensures Failures(x, gates) == [] <==> forall k :: 0 <= k < |gates| ==> gates[k].holds(x)
  {
    if gates != [] {
      NoFailures(x, gates[..|gates| - 1]);
    }
  }

  lemma PassesExactly<T>(x: T, rules: Rules<T>)
    ensures Feasible(x, rules) <==> Passes(x, rules)
  {
    NoFailures(x, rules.gates);
  }

  lemma LastGate<T>(x: T, gates: seq<Gate<T>>, gate: Gate<T>)
    ensures Failures(x, gates + [gate]) == Failures(x, gates) + if gate.holds(x) then [] else [gate.name]
  {
    assert (gates + [gate])[..|gates|] == gates;
  }

  /** The reasons name the failed gates, in gate order. */
  lemma {:induction false} FailuresExactly<T>(x: T, a: seq<Gate<T>>, gate: Gate<T>, b: seq<Gate<T>>)
    ensures Failures(x, []) == []
    ensures Failures(x, a + [gate] + b)
            == Failures(x, a) + (if gate.holds(x) then [] else [gate.name]) + Failures(x, b)
    decreases |b|
  {
    hide Failures;
    NoGates(x);
    if b == [] {
      assert a + [gate] + b == a + [gate];
      LastGate(x, a, gate);
    } else {
      var front, last := b[..|b| - 1], b[|b| - 1];
      FailuresExactly(x, a, gate, front);
      assert b == front + [last];
      assert a + [gate] + b == (a + [gate] + front) + [last];
      LastGate(x, a + [gate] + front, last);
      LastGate(x, front, last);
    }
  }

  lemma NoGates<T>(x: T)
    ensures Failures(x, []) == []
  {
  }

  lemma ChoiceIsBest<T>(options: seq<T>, rules: Rules<T>, best: Option<nat>)
    requires IsChoice(options, |options|, rules, best)
    ensures BestOf(options, rules, best)
  {
    hide Feasible, Passes;
    forall j | 0 <= j < |options|
      ensures Feasible(options[j], rules) <==> Passes(options[j], rules)
      ensures Passes(options[j], rules) ==> rules.score(options[j]).Finite?
    {
      PassesExactly(options[j], rules);
      PassesFinite(options[j], rules);
    }
  }

  lemma PassesFinite<T>(x: T, rules: Rules<T>)
    ensures Passes(x, rules) ==> rules.score(x).Finite?
  {
  }

  lemma FeasibleFinite<T>(x: T, rules: Rules<T>)
    ensures Feasible(x, rules) ==> rules.score(x).Finite?
  {
    hide Failures;
  }

  lemma ChosenFeasible<T>(options: seq<T>, n: nat, rules: Rules<T>, best: Option<nat>)
    requires n <= |options| && IsChoice(options, n, rules, best)
    ensures best.Some? ==> best.value < n && Feasible(options[best.value], rules)
  {
    hide Reasons, Before;
  }

  /** Option n becomes the choice: it is feasible, and the first such or before the choice so far. */
  ghost predicate Replaces<T>(options: seq<T>, n: nat, rules: Rules<T>, best: Option<nat>)
    requires n < |options| && (best.Some? ==> best.value < |options|)
  {
    && Feasible(options[n], rules) && rules.score(options[n]).Finite?
    && (best == None
        || (rules.score(options[best.value]).Finite? && Before(options[n], options[best.value], rules)))
  }

  lemma ChoiceGrows<T>(options: seq<T>, n: nat, rules: Rules<T>, best: Option<nat>, next: Option<nat>)
    requires n < |options| && IsChoice(options, n, rules, best)
    requires best.Some? ==> best.value < |options|
    requires next == if Replaces(options, n, rules, best) then Some(n) else best
    ensures IsChoice(options, n + 1, rules, next)
  {
    hide Failures, Feasible;
    ChosenFeasible(options, n, rules, best);
    forall j | 0 <= j <= n
      ensures Feasible(options[j], rules) ==> rules.score(options[j]).Finite?
    {
      FeasibleFinite(options[j], rules);
    }
  }

  lemma NothingToChoose<T>(options: seq<T>, rules: Rules<T>)
    ensures IsChoice(options, 0, rules, None)
  {
  }

  method Choose<T>(options: seq<T>, rules: Rules<T>) returns (best: Option<nat>, audit: seq<AuditRow>)
    ensures IsChoice(options, |options|, rules, best)
    ensures BestOf(options, rules, best)
    ensures |audit| == |options|
    ensures forall i :: 0 <= i < |audit| ==> audit[i] == FinalRow(options, i, rules, best)
  {
    hide BestOf, IsChoice, Before, Reasons;
    NothingToChoose(options, rules);
    audit, best := [], None;
    for n := 0 to |options|
      invariant |audit| == n && IsChoice(options, n, rules, best)
      invariant forall i :: 0 <= i < n ==> audit[i] == AuditRow(i, false, Reasons(options[i], rules))
    {
      var reasons := Reasons(options[n], rules);
      audit := audit + [AuditRow(n, false, reasons)];
      ChosenFeasible(options, n, rules, best);
      FeasibleFinite(options[n], rules);
      if best.Some? {
        FeasibleFinite(options[best.value], rules);
      }
      ghost var was := best;
      if reasons == [] {
        if best == None || Before(options[n], options[best.value], rules) {
          best := Some(n);
        }
      }
      ChoiceGrows(options, n, rules, was, best);
    }
    ChosenFeasible(options, |options|, rules, best);
    ChoiceIsBest(options, rules, best);
    if best.Some? {
      audit := audit[best.value := audit[best.value].(accepted := true)];
      for n := 0 to |audit|
        invariant |audit| == |options|
        invariant forall i :: 0 <= i < n ==> audit[i] == FinalRow(options, i, rules, best)
        invariant forall i :: n <= i < |audit| ==>
                    audit[i] == AuditRow(i, best == Some(i), Reasons(options[i], rules))
      {
        if !audit[n].accepted && audit[n].reasons == [] {
          audit := audit[n := audit[n].(reasons := ["feasible_lower_rank"])];
        }
      }
    }
  }

  // ---------- what the choice means ----------

  lemma ChoiceUnique<T>(options: seq<T>, n: nat, rules: Rules<T>, a: Option<nat>, b: Option<nat>)
    requires n <= |options| && IsChoice(options, n, rules, a) && IsChoice(options, n, rules, b)
    ensures a == b
  {
    match (a, b)
    case (Some(i), Some(j)) =>
      assert Feasible(options[i], rules) && Feasible(options[j], rules);
    case _ =>
  }

  /** A row is feasible exactly when the audit marks it accepted or of lower rank. */
  lemma AuditTellsFeasible<T>(options: seq<T>, i: nat, rules: Rules<T>, best: Option<nat>)
    requires i < |options| && IsChoice(options, |options|, rules, best)
    requires forall k :: 0 <= k < |rules.gates| ==> rules.gates[k].name != "feasible_lower_rank"
    ensures var row := FinalRow(options, i, rules, best);
            Feasible(options[i], rules) <==> row.accepted || row.reasons == ["feasible_lower_rank"]
  {
    FailureNames(options[i], rules.gates);
    var reasons := Reasons(options[i], rules);
    assert |"non_finite_score"| != |"feasible_lower_rank"|;
    assert reasons != [] ==> reasons[0] in Failures(options[i], rules.gates) || reasons[0] == "non_finite_score";
  }

  lemma {:induction false} FailureNames<T>(x: T, gates: seq<Gate<T>>)
    requires forall k :: 0 <= k < |gates| ==> gates[k].name != "feasible_lower_rank"
    ensures forall f :: f in Failures(x, gates) ==> f != "feasible_lower_rank"
  {
    if gates != [] {
      FailureNames(x, gates[..|gates| - 1]);
    }
  }

  // ---------- the original rule: best first, then gates (generate_policy_scenario.py) ----------

  /** The original planners' choice: the best utility, the earlier of equals; gates play no part. */
  ghost predicate IsTop<T>(options: seq<T>, rules: Rules<T>, i: nat)
    requires forall x :: x in options ==> rules.score(x).Finite?
  {
    && i < |options|
    && (forall j :: 0 <= j < |options| ==> !Before(options[j], options[i], rules))
    && (forall j :: 0 <= j < i ==> Before(options[i], options[j], rules))
  }

  /** The original planners keep the baseline unless the top option passes every gate. */
  function TopThenGates<T>(options: seq<T>, rules: Rules<T>, top: nat): Option<nat>
    requires top < |options|
  {
    if Failures(options[top], rules.gates) == [] then Some(top) else None
  }

  /** Feasible-first agrees with best-then-gate exactly when the top option passes the gates or no option does; in
      particular every delay the original rule accepts is still chosen. */
  lemma FeasibleFirstRefinesTopThenGates<T>(options: seq<T>, rules: Rules<T>, top: nat, best: Option<nat>)
    requires forall x :: x in options ==> rules.score(x).Finite?
    requires IsTop(options, rules, top) && IsChoice(options, |options|, rules, best)
    ensures TopThenGates(options, rules, top).Some? ==> best == Some(top)
    ensures best == TopThenGates(options, rules, top) <==>
              (Feasible(options[top], rules) || forall x :: x in options ==> !Feasible(x, rules))
  {
    if Feasible(options[top], rules) {
      assert IsChoice(options, |options|, rules, Some(top));
      ChoiceUnique(options, |options|, rules, best, Some(top));
    }
  }
}
