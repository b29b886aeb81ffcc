/** How a verdict is read off what a rule collects, and what the weak edges may turn out
    to be (rule_eval.rs, `evaluate_one` and `Uncertainty`). */
module VerdictTerms {
  import opened Wrappers
  import opened Ir
  import opened RuleModel
  import opened RuleEval

  /** The verdict, the rows and the doubt of one outcome. */
  predicate Reads(o: RuleOutcome, violations: seq<Violation>, u: Uncertainty) {
    if violations != [] then o.verdict == Violated && o.violations == violations && o.uncertainty == None
    else if u.unresolvedEdges > 0 then o.verdict == Inconclusive && o.violations == [] && o.uncertainty == Some(u)
    else o.verdict == Satisfied && o.violations == [] && o.uncertainty == None
  }

  /** A rule about new symbols is skipped where no change is supplied; every other rule
      is violated by a row, and in doubt over a weak edge where it has none. */
  lemma OutcomeIsRead(w: World, es: seq<Edge>, added: Option<set<SymbolId>>, rule: Rule, o: RuleOutcome)
    requires IsOutcome(w, es, added, rule, o)
    ensures o.rule == rule.name && o.severity == rule.severity
    ensures o.verdict == Skipped <==> rule.kind.RequiresTest? && rule.kind.newOnly && added == None
    ensures o.verdict == Skipped ==> o.violations == [] && o.uncertainty == None
    ensures o.verdict != Skipped ==>
      exists violations, u :: Collected(w, rule.kind, added, es, violations, u) && Reads(o, violations, u)
  {
    hide Collected, Breached, Doubted;
    if o.verdict != Skipped {
      var u :| Collected(w, rule.kind, added, es, o.violations, u) && (o.uncertainty.Some? ==> o.uncertainty.value == u);
      CollectedDecides(w, rule.kind, added, es, o.violations, u);
      assert Reads(o, o.violations, u);
    }
  }

  /** A gate fails when some rule at error severity is violated. */
  lemma GateFailsOnError(
    w: World, es: seq<Edge>, added: Option<set<SymbolId>>, rules: seq<Rule>, outcomes: seq<RuleOutcome>)
    requires |outcomes| == |rules| && forall i :: 0 <= i < |rules| ==> IsOutcome(w, es, added, rules[i], outcomes[i])
    ensures ShouldFail(outcomes) <==>
      exists i :: 0 <= i < |outcomes| && outcomes[i].violations != [] && rules[i].severity == Error
  {
    hide Collected, VerdictOf;
    if o :| o in outcomes && o.verdict.Violated? && o.severity.Error? {
      var i :| 0 <= i < |outcomes| && outcomes[i] == o;
    }
    if i :| 0 <= i < |outcomes| && outcomes[i].violations != [] && rules[i].severity == Error {
      assert outcomes[i] in outcomes;
    }
  }

  // ── weak edges ──────────────────────────────────────────────

  predicate IsRetargeted(e: Edge, c: Edge, to: SymbolId) {
    c == if e.gateSafe then e else Edge(e.from, to, e.file, e.line, e.kindName, e.isDependency, true)
  }

  ghost predicate Retargets(es: seq<Edge>, cs: seq<Edge>, targets: seq<SymbolId>) {
    && |targets| == |cs| == |es|
    && forall i :: 0 <= i < |es| ==> IsRetargeted(es[i], cs[i], targets[i])
  }

  /** A completion is what the edges are with any targets at all for the weak ones. */
  lemma CompletionsRetarget(es: seq<Edge>, cs: seq<Edge>)
    ensures Completes(es, cs) <==> exists targets :: Retargets(es, cs, targets)
  {
    if Completes(es, cs) {
      var targets := seq(|es|, i requires 0 <= i < |cs| => cs[i].to);
      assert Retargets(es, cs, targets);
    }
  }

  ghost predicate IsKept(e: Edge, kept: bool, c: Edge) {
    (e.gateSafe || kept) && c == Edge(e.from, e.to, e.file, e.line, e.kindName, e.isDependency, true)
  }

  ghost function KeptPlaces(es: seq<Edge>, kept: seq<bool>, c: Edge): set<nat>
    requires |kept| == |es|
  {
    set i: nat | i < |es| && IsKept(es[i], kept[i], c)
  }

  /** What is kept are the resolved edges and those weak ones, as often as they occur. */
  lemma {:induction false} KeepCounts(es: seq<Edge>, kept: seq<bool>, c: Edge)
    requires |kept| == |es|
    ensures multiset(Keep(es, kept))[c] == |KeptPlaces(es, kept, c)|
  {
    if |es| > 0 {
      var n := |es| - 1;
      KeepCounts(es[..n], kept[..n], c);
      MoreKept(es, kept, c);
      hide KeptPlaces;
    }
  }

  lemma MoreKept(es: seq<Edge>, kept: seq<bool>, c: Edge)
    requires |kept| == |es| > 0
    ensures var n := |es| - 1;
      |KeptPlaces(es, kept, c)| == |KeptPlaces(es[..n], kept[..n], c)| + if IsKept(es[n], kept[n], c) then 1 else 0
  {
    hide IsKept;
    var n := |es| - 1;
    var rest := KeptPlaces(es[..n], kept[..n], c);
    assert n !in rest;
    assert KeptPlaces(es, kept, c) == rest + if IsKept(es[n], kept[n], c) then {n} else {};
  }
}
