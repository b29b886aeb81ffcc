/** Satisfied and Violated are both earned: no way of resolving the weak edges
    overturns either (rule_eval.rs). */
module RuleSoundness {
  import opened Wrappers
  import opened Ir
  import opened Reachability
  import opened RuleModel
  import opened FanRetargeting

  // ── completing the weak edges ───────────────────────────────

  lemma CompletionOf(es: seq<Edge>, cs: seq<Edge>, e: Edge) returns (c: Edge)
    requires Completes(es, cs) && e in es
    ensures c in cs && c == if e.gateSafe then e else e.(to := c.to, gateSafe := true)
  {
    var i :| 0 <= i < |es| && es[i] == e;
    c := cs[i];
  }

  lemma CompletedFrom(es: seq<Edge>, cs: seq<Edge>, c: Edge) returns (e: Edge)
    requires Completes(es, cs) && c in cs
    ensures e in es && c.gateSafe && c == if e.gateSafe then e else e.(to := c.to, gateSafe := true)
  {
    var i :| 0 <= i < |cs| && cs[i] == c;
    e := es[i];
  }

  /** Where an edge starts is not in doubt, except that a fan limit looks at its
      target. */
  lemma WatchedStays(w: World, rule: RuleKind, e: Edge, c: Edge)
    requires !IsFanRule(rule) && c == e.(to := c.to, gateSafe := true)
    ensures Watched(w, rule, c) == Watched(w, rule, e)
  {
  }

  lemma DependsGrows(w: World, scope: string, level: CycleLevel, es: seq<Edge>, cs: seq<Edge>)
    requires Completes(es, cs)
    ensures DependsOn(w, scope, level, es) <= DependsOn(w, scope, level, cs)
    ensures (forall e :: e in es ==> !Doubtful(w, NoCycles(scope, level), e)) ==>
      DependsOn(w, scope, level, es) == DependsOn(w, scope, level, cs)
  {
    forall p | p in DependsOn(w, scope, level, es) ensures p in DependsOn(w, scope, level, cs) {
      var e :| e in es && e.gateSafe && Pairs(w, scope, level, e)
        && p == (NodeOf(w, level, e.from), NodeOf(w, level, e.to));
      var c := CompletionOf(es, cs, e);
    }
    if forall e :: e in es ==> !Doubtful(w, NoCycles(scope, level), e) {
      forall p | p in DependsOn(w, scope, level, cs) ensures p in DependsOn(w, scope, level, es) {
        var c :| c in cs && c.gateSafe && Pairs(w, scope, level, c)
          && p == (NodeOf(w, level, c.from), NodeOf(w, level, c.to));
        var e := CompletedFrom(es, cs, c);
        WatchedStays(w, NoCycles(scope, level), e, c);
      }
    }
  }

  lemma CycleGrows(r: Relation<string>, q: Relation<string>)
    requires r <= q && HasCycle(r)
    ensures HasCycle(q)
  {
    var a, b :| a != b && Reaches(r, a, b) && Reaches(r, b, a);
    Wider(r, q, a, b);
    Wider(r, q, b, a);
  }

  // ── Satisfied ───────────────────────────────────────────────

  lemma EdgeRuleSatisfied(w: World, rule: RuleKind, added: Option<set<SymbolId>>, es: seq<Edge>, cs: seq<Edge>)
    requires IsEdgeRule(rule) && Completes(es, cs) && VerdictOf(w, rule, added, es) == Satisfied
    ensures Holds(w, rule, added, cs)
  {
    forall c | c in cs ensures !(Watched(w, rule, c) && Forbidden(w, rule, c)) {
      var e := CompletedFrom(es, cs, c);
      WatchedStays(w, rule, e, c);
      assert !Doubtful(w, rule, e) && !Breach(w, rule, e);
    }
  }

  lemma SymbolRuleSatisfied(w: World, rule: RuleKind, added: Option<set<SymbolId>>, es: seq<Edge>, cs: seq<Edge>)
    requires IsSymbolRule(rule) && Completes(es, cs) && VerdictOf(w, rule, added, es) == Satisfied
    ensures Holds(w, rule, added, cs)
  {
    forall id | Demanded(w, rule, added, id) ensures exists c :: c in cs && Serves(w, rule, id, c) {
      assert !Unmet(w, rule, added, es, id);
      var e :| e in es && Settles(w, rule, id, e);
      var c := CompletionOf(es, cs, e);
      assert Serves(w, rule, id, c);
    }
  }

  /** A reported pass holds however the weak edges resolve. */
  lemma SatisfiedIsEarned(w: World, rule: RuleKind, added: Option<set<SymbolId>>, es: seq<Edge>, cs: seq<Edge>)
    requires !IsFanRule(rule) && Completes(es, cs)
    requires VerdictOf(w, rule, added, es) == Satisfied
    ensures Holds(w, rule, added, cs)
  {
    if IsEdgeRule(rule) {
      EdgeRuleSatisfied(w, rule, added, es, cs);
    } else if IsSymbolRule(rule) {
      SymbolRuleSatisfied(w, rule, added, es, cs);
    } else {
      DependsGrows(w, rule.scope, rule.level, es, cs);
      assert NoCycles(rule.scope, rule.level) == rule;
    }
  }

  // ── Violated ────────────────────────────────────────────────

  lemma SymbolRuleViolated(w: World, rule: RuleKind, added: Option<set<SymbolId>>, es: seq<Edge>, cs: seq<Edge>, id: SymbolId)
    requires IsSymbolRule(rule) && Completes(es, cs)
    requires Unmet(w, rule, added, es, id) && (rule.RequiresDependency? || !Weak(es))
    ensures !Holds(w, rule, added, cs)
  {
    forall c | c in cs ensures !Serves(w, rule, id, c) {
      var e := CompletedFrom(es, cs, c);
      assert !Settles(w, rule, id, e);
    }
  }

  /** A reported breach is a breach however the weak edges resolve. */
  lemma ViolatedIsEarned(w: World, rule: RuleKind, added: Option<set<SymbolId>>, es: seq<Edge>, cs: seq<Edge>)
    requires Completes(es, cs) && VerdictOf(w, rule, added, es) == Violated
    ensures !Holds(w, rule, added, cs)
  {
    if IsEdgeRule(rule) {
      var e :| e in es && Breach(w, rule, e);
      var c := CompletionOf(es, cs, e);
      assert Watched(w, rule, c) && Forbidden(w, rule, c);
    } else if IsSymbolRule(rule) {
      var id :| Unmet(w, rule, added, es, id);
      SymbolRuleViolated(w, rule, added, es, cs, id);
    } else if IsFanRule(rule) {
      FanBreachStands(w, rule, added, es, cs);
    } else {
      DependsGrows(w, rule.scope, rule.level, es, cs);
      CycleGrows(DependsOn(w, rule.scope, rule.level, es), DependsOn(w, rule.scope, rule.level, cs));
    }
  }

  // ── the fan limits ──────────────────────────────────────────

  lemma {:induction false} FanInBetween(es: seq<Edge>, kept: seq<bool>, id: SymbolId)
    requires |kept| == |es|
    ensures FanIn(es, id, true) <= FanIn(Keep(es, kept), id, true) <= FanIn(es, id, true) + FanIn(es, id, false)
  {
    if |es| > 0 {
      var n := |es| - 1;
      FanInBetween(es[..n], kept[..n], id);
      var rest := Keep(es[..n], kept[..n]);
      FanInOfOneMore(rest, es[n].(gateSafe := true), id, true);
      assert rest + [] == rest;
    }
  }

  lemma {:induction false} KeepHolds(es: seq<Edge>, kept: seq<bool>)
    requires |kept| == |es|
    ensures forall e :: e in es && e.gateSafe ==> e in Keep(es, kept)
    ensures forall c :: c in Keep(es, kept) ==> c.gateSafe && exists e :: e in es && c == e.(gateSafe := true)
  {
    if |es| > 0 {
      var n := |es| - 1;
      KeepHolds(es[..n], kept[..n]);
      assert es == es[..n] + [es[n]];
      forall c | c in Keep(es, kept)
        ensures c.gateSafe && exists e :: e in es && c == e.(gateSafe := true)
      {
        if c in Keep(es[..n], kept[..n]) {
          var e :| e in es[..n] && c == e.(gateSafe := true);
          assert e in es;
        } else {
          assert es[n] in es && c == es[n].(gateSafe := true);
        }
      }
    }
  }

  lemma FanOutBetween(es: seq<Edge>, kept: seq<bool>, id: SymbolId)
    requires |kept| == |es|
    ensures FanOut(es, id, true) <= FanOut(Keep(es, kept), id, true) <= FanOut(es, id, true) + FanOut(es, id, false)
  {
    KeepHolds(es, kept);
    var ks := Keep(es, kept);
    forall t | t in FanOut(ks, id, true) ensures t in FanOut(es, id, true) + FanOut(es, id, false) {
      var c :| c in ks && c.gateSafe && c.from == id && !IsExternalPackage(c.to) && c.to == t;
      var e :| e in es && c == e.(gateSafe := true);
      assert e.from == id && e.to == t;
    }
  }

  lemma {:induction false} SubsetCount<T>(a: set<T>, b: set<T>)
    requires a <= b
    ensures |a| <= |b| && |b| == |a| + |b - a|
  {
    assert b == a + (b - a);
  }

  lemma FanOutCounts(es: seq<Edge>, kept: seq<bool>, id: SymbolId)
    requires |kept| == |es|
    ensures |FanOut(es, id, true)| <= |FanOut(Keep(es, kept), id, true)|
    ensures |FanOut(Keep(es, kept), id, true)|
         <= |FanOut(es, id, true)| + |FanOut(es, id, false) - FanOut(es, id, true)|
  {
    FanOutBetween(es, kept, id);
    var strong, weak, kept' := FanOut(es, id, true), FanOut(es, id, false), FanOut(Keep(es, kept), id, true);
    SubsetCount(strong, kept');
    SubsetCount(kept', strong + weak);
    assert strong + weak == strong + (weak - strong);
  }

  /** A fan verdict stands whichever weak edges are real, their recorded targets
      being right. */
  lemma FanVerdictIsEarned(w: World, rule: RuleKind, added: Option<set<SymbolId>>, es: seq<Edge>, kept: seq<bool>)
    requires IsFanRule(rule) && |kept| == |es|
    ensures VerdictOf(w, rule, added, es) == Satisfied ==> Holds(w, rule, added, Keep(es, kept))
    ensures VerdictOf(w, rule, added, es) == Violated ==> !Holds(w, rule, added, Keep(es, kept))
  {
    if rule.MaxFanIn? {
      forall id { FanInBetween(es, kept, id); }
    } else {
      forall id
        ensures |FanOut(es, id, true)| <= |FanOut(Keep(es, kept), id, true)|
        ensures |FanOut(Keep(es, kept), id, true)|
             <= |FanOut(es, id, true)| + |FanOut(es, id, false) - FanOut(es, id, true)|
      {
        FanOutCounts(es, kept, id);
      }
    }
  }

  // ── resolved graphs ─────────────────────────────────────────

  lemma {:induction false} NoWeakFan(es: seq<Edge>, id: SymbolId)
    requires AllResolved(es)
    ensures FanIn(es, id, false) == 0 && FanOut(es, id, false) == {}
  {
    if |es| > 0 {
      assert es[|es| - 1] in es;
      forall e | e in es[..|es| - 1] ensures e in es { }
      NoWeakFan(es[..|es| - 1], id);
    }
  }

  lemma SettlesIsServes(w: World, rule: RuleKind, id: SymbolId, e: Edge)
    requires IsSymbolRule(rule) && e.gateSafe
    ensures Settles(w, rule, id, e) == Serves(w, rule, id, e)
  {
  }

  lemma FanDecides(w: World, rule: RuleKind, added: Option<set<SymbolId>>, es: seq<Edge>)
    requires AllResolved(es) && IsFanRule(rule)
    ensures Breached(w, rule, added, es) == !Holds(w, rule, added, es)
    ensures Doubted(w, rule, added, es) ==> Breached(w, rule, added, es)
  {
    forall id { NoWeakFan(es, id); }
    if rule.MaxFanOut? {
      forall id ensures FanOut(es, id, false) - FanOut(es, id, true) == {} { NoWeakFan(es, id); }
    }
  }

  lemma SymbolRuleDecides(w: World, rule: RuleKind, added: Option<set<SymbolId>>, es: seq<Edge>)
    requires AllResolved(es) && IsSymbolRule(rule)
    ensures Breached(w, rule, added, es) == !Holds(w, rule, added, es)
    ensures !Doubted(w, rule, added, es)
  {
    forall id ensures Unmet(w, rule, added, es, id) <==>
      Demanded(w, rule, added, id) && !exists e :: e in es && Serves(w, rule, id, e)
    {
      forall e | e in es ensures Settles(w, rule, id, e) == Serves(w, rule, id, e) { SettlesIsServes(w, rule, id, e); }
    }
  }

  lemma OtherDecides(w: World, rule: RuleKind, added: Option<set<SymbolId>>, es: seq<Edge>)
    requires AllResolved(es) && (IsEdgeRule(rule) || rule.NoCycles?)
    ensures Breached(w, rule, added, es) == !Holds(w, rule, added, es)
    ensures !Doubted(w, rule, added, es)
  {
    hide Watched, Forbidden, DependsOn, HasCycle;
  }

  /** With nothing weak left, the evaluator decides, and decides by what the rule
      means. */
  lemma DecidesWhenResolved(w: World, rule: RuleKind, added: Option<set<SymbolId>>, es: seq<Edge>)
    requires AllResolved(es) && !IsSkipped(rule, added)
    ensures VerdictOf(w, rule, added, es) == if Holds(w, rule, added, es) then Satisfied else Violated
  {
    if IsFanRule(rule) {
      FanDecides(w, rule, added, es);
    } else if IsSymbolRule(rule) {
      SymbolRuleDecides(w, rule, added, es);
    } else {
      OtherDecides(w, rule, added, es);
    }
  }

  // ── the gate ────────────────────────────────────────────────

  /** What a gate fails on: a violation at error severity. */
  ghost predicate GateFails(w: World, rules: seq<Rule>, added: Option<set<SymbolId>>, es: seq<Edge>) {
    exists r :: r in rules && r.severity.Error? && VerdictOf(w, r.kind, added, es) == Violated
  }

  /** A rule whose pass stands wherever its weak edges really point. A fan limit
      needs room for them all. */
  ghost predicate PassStands(w: World, rule: RuleKind, added: Option<set<SymbolId>>, es: seq<Edge>) {
    VerdictOf(w, rule, added, es) == Satisfied && (IsFanRule(rule) ==> HasRoom(rule, es))
  }

  /** A gate that fails keeps failing, and one whose every pass stands keeps
      passing, in every completion of the evidence. */
  lemma GateIsStable(w: World, rules: seq<Rule>, added: Option<set<SymbolId>>, es: seq<Edge>, cs: seq<Edge>)
    requires Completes(es, cs)
    ensures GateFails(w, rules, added, es) ==> GateFails(w, rules, added, cs)
    ensures (forall r :: r in rules ==> PassStands(w, r.kind, added, es)) ==> !GateFails(w, rules, added, cs)
  {
    forall c | c in cs ensures c.gateSafe { var e := CompletedFrom(es, cs, c); }
    hide Holds, Breached, Doubted, HasRoom, Completes;
    if GateFails(w, rules, added, es) {
      var r :| r in rules && r.severity.Error? && VerdictOf(w, r.kind, added, es) == Violated;
      ViolatedIsEarned(w, r.kind, added, es, cs);
      DecidesWhenResolved(w, r.kind, added, cs);
    }
    if forall r :: r in rules ==> PassStands(w, r.kind, added, es) {
      forall r | r in rules ensures VerdictOf(w, r.kind, added, cs) != Violated {
        assert PassStands(w, r.kind, added, es);
        if IsFanRule(r.kind) { RoomHolds(w, r.kind, added, es, cs); } else { SatisfiedIsEarned(w, r.kind, added, es, cs); }
        DecidesWhenResolved(w, r.kind, added, cs);
      }
    }
  }

  // ── weak edges kept or dropped ──────────────────────────────

  lemma KeptPair(w: World, scope: string, level: CycleLevel, es: seq<Edge>, ks: seq<Edge>, p: (string, string))
    requires forall c :: c in ks ==> c.gateSafe && exists e :: e in es && c == e.(gateSafe := true)
    requires forall e :: e in es ==> !Doubtful(w, NoCycles(scope, level), e)
    requires p in DependsOn(w, scope, level, ks)
    ensures p in DependsOn(w, scope, level, es)
  {
    hide InScope, NodeOf;
    var c :| c in ks && c.gateSafe && Pairs(w, scope, level, c)
      && p == (NodeOf(w, level, c.from), NodeOf(w, level, c.to));
    var e :| e in es && c == e.(gateSafe := true);
    assert !Doubtful(w, NoCycles(scope, level), e);
    assert e == c;
  }

  lemma KeptDepends(w: World, scope: string, level: CycleLevel, es: seq<Edge>, kept: seq<bool>)
    requires |kept| == |es|
    ensures DependsOn(w, scope, level, es) <= DependsOn(w, scope, level, Keep(es, kept))
    ensures (forall e :: e in es ==> !Doubtful(w, NoCycles(scope, level), e)) ==>
      DependsOn(w, scope, level, es) == DependsOn(w, scope, level, Keep(es, kept))
  {
    KeepHolds(es, kept);
    hide Keep, InScope, NodeOf, Pairs, Doubtful;
    if forall e :: e in es ==> !Doubtful(w, NoCycles(scope, level), e) {
      forall p | p in DependsOn(w, scope, level, Keep(es, kept)) ensures p in DependsOn(w, scope, level, es) {
        KeptPair(w, scope, level, es, Keep(es, kept), p);
      }
    }
  }

  lemma NeverServed(w: World, rule: RuleKind, added: Option<set<SymbolId>>, es: seq<Edge>, id: SymbolId, e: Edge)
    requires IsSymbolRule(rule) && Unmet(w, rule, added, es, id) && e in es
    requires rule.RequiresDependency? || e.gateSafe
    ensures !Serves(w, rule, id, e.(gateSafe := true))
  {
    hide InScope, Demanded;
    assert !Settles(w, rule, id, e);
  }

  lemma KeptSymbolRuleViolated(w: World, rule: RuleKind, added: Option<set<SymbolId>>, es: seq<Edge>, kept: seq<bool>)
    requires IsSymbolRule(rule) && |kept| == |es| && VerdictOf(w, rule, added, es) == Violated
    ensures !Holds(w, rule, added, Keep(es, kept))
  {
    var id :| Unmet(w, rule, added, es, id);
    KeepHolds(es, kept);
    hide Keep, Demanded, Serves, Settles;
    forall c | c in Keep(es, kept) ensures !Serves(w, rule, id, c) {
      var e :| e in es && c == e.(gateSafe := true);
      NeverServed(w, rule, added, es, id, e);
    }
  }

  /** A reported breach is a breach whichever weak edges are real. */
  lemma KeptViolated(w: World, rule: RuleKind, added: Option<set<SymbolId>>, es: seq<Edge>, kept: seq<bool>)
    requires |kept| == |es| && VerdictOf(w, rule, added, es) == Violated
    ensures !Holds(w, rule, added, Keep(es, kept))
  {
    if IsFanRule(rule) {
      FanVerdictIsEarned(w, rule, added, es, kept);
    } else if IsSymbolRule(rule) {
      KeptSymbolRuleViolated(w, rule, added, es, kept);
    } else if rule.NoCycles? {
      KeptDepends(w, rule.scope, rule.level, es, kept);
      CycleGrows(DependsOn(w, rule.scope, rule.level, es), DependsOn(w, rule.scope, rule.level, Keep(es, kept)));
    } else {
      var e :| e in es && Breach(w, rule, e);
      KeepHolds(es, kept);
      assert e in Keep(es, kept);
    }
  }

  /** Whether a pass rests on no weak edge being real, as one of `requires-test` may: it
      takes the source of a weak `tests` edge for a test. */
  ghost predicate ServedOnResolved(w: World, rule: RuleKind, added: Option<set<SymbolId>>, es: seq<Edge>) {
    rule.RequiresTest? ==>
      forall id :: Demanded(w, rule, added, id) ==> exists e :: e in es && e.gateSafe && Serves(w, rule, id, e)
  }

  /** So is a pass, unless it rests on a weak edge being real. */
  lemma KeptSatisfied(w: World, rule: RuleKind, added: Option<set<SymbolId>>, es: seq<Edge>, kept: seq<bool>)
    requires |kept| == |es| && VerdictOf(w, rule, added, es) == Satisfied && ServedOnResolved(w, rule, added, es)
    ensures Holds(w, rule, added, Keep(es, kept))
  {
    if IsFanRule(rule) {
      FanVerdictIsEarned(w, rule, added, es, kept);
    } else if rule.NoCycles? {
      KeptDepends(w, rule.scope, rule.level, es, kept);
    } else {
      KeepHolds(es, kept);
      var ks := Keep(es, kept);
      hide Keep, InScope, LayerOf;
      if IsEdgeRule(rule) {
        forall c | c in ks ensures !(Watched(w, rule, c) && Forbidden(w, rule, c)) {
          var e :| e in es && c == e.(gateSafe := true);
          assert !Doubtful(w, rule, e) && !Breach(w, rule, e);
        }
      } else {
        forall id | Demanded(w, rule, added, id) ensures exists c :: c in ks && Serves(w, rule, id, c) {
          assert !Unmet(w, rule, added, es, id);
          var e :| e in es && (if rule.RequiresTest? then e.gateSafe && Serves(w, rule, id, e) else Settles(w, rule, id, e));
          assert e.gateSafe && e in ks;
        }
      }
    }
  }

  lemma {:induction false} NothingWeakKept(es: seq<Edge>, kept: seq<bool>)
    requires |kept| == |es| && forall i :: 0 <= i < |kept| ==> !kept[i]
    ensures forall c :: c in Keep(es, kept) ==> c in es && c.gateSafe
  {
    if |es| > 0 {
      var n := |es| - 1;
      NothingWeakKept(es[..n], kept[..n]);
      assert es == es[..n] + [es[n]];
      if es[n].gateSafe { assert es[n].(gateSafe := true) == es[n]; }
    }
  }

  /** A satisfied rule holds whichever weak edges are real exactly when no symbol that
      `requires-test` makes its demand of is served by weak edges alone. */
  lemma KeptPassExactly(w: World, rule: RuleKind, added: Option<set<SymbolId>>, es: seq<Edge>)
    requires VerdictOf(w, rule, added, es) == Satisfied
    ensures (forall kept :: |kept| == |es| ==> Holds(w, rule, added, Keep(es, kept)))
      <==> ServedOnResolved(w, rule, added, es)
  {
    hide Breached, Doubted, Keep, Serves, Demanded;
    if ServedOnResolved(w, rule, added, es) {
      forall kept: seq<bool> | |kept| == |es| ensures Holds(w, rule, added, Keep(es, kept)) {
        KeptSatisfied(w, rule, added, es, kept);
      }
    } else {
      var none := seq(|es|, i => false);
      NothingWeakKept(es, none);
      assert !Holds(w, rule, added, Keep(es, none));
    }
  }

  /** A test known by one weak edge: dropped, it is a symbol without a test. */
  lemma WeakTestIsDropped()
    ensures var w := World((pattern, path) => true, map["t" := Symbol("t", "t", Function, Rust, "f", 1, 1, None)]);
      var rule, e := RequiresTest("*", None, false), Edge("t", "x", "f", 1, "tests", false, false);
      VerdictOf(w, rule, None, [e]) == Satisfied && !Holds(w, rule, None, Keep([e], [false]))
  {
    var w := World((pattern, path) => true, map["t" := Symbol("t", "t", Function, Rust, "f", 1, 1, None)]);
    var rule, e := RequiresTest("*", None, false), Edge("t", "x", "f", 1, "tests", false, false);
    assert Demanded(w, rule, None, "t");
    assert e in [e] && Settles(w, rule, "t", e);
    forall id ensures !Unmet(w, rule, None, [e], id) { }
    assert Keep([e][..0], [false][..0]) == [];
    assert Keep([e], [false]) == [];
  }

  /** The gate, fan limits included, over every choice of the weak edges that are
      real. */
  lemma KeptGateIsStable(w: World, rules: seq<Rule>, added: Option<set<SymbolId>>, es: seq<Edge>, kept: seq<bool>)
    requires |kept| == |es|
    ensures GateFails(w, rules, added, es) ==> GateFails(w, rules, added, Keep(es, kept))
    ensures (forall r :: r in rules ==> ServedOnResolved(w, r.kind, added, es) && VerdictOf(w, r.kind, added, es) == Satisfied) ==>
      !GateFails(w, rules, added, Keep(es, kept))
  {
    KeepHolds(es, kept);
    var ks := Keep(es, kept);
    assert AllResolved(ks);
    hide Holds, Breached, Doubted, Keep;
    if GateFails(w, rules, added, es) {
      var r :| r in rules && r.severity.Error? && VerdictOf(w, r.kind, added, es) == Violated;
      KeptViolated(w, r.kind, added, es, kept);
      DecidesWhenResolved(w, r.kind, added, ks);
    }
    if forall r :: r in rules ==> ServedOnResolved(w, r.kind, added, es) && VerdictOf(w, r.kind, added, es) == Satisfied {
      forall r | r in rules ensures VerdictOf(w, r.kind, added, ks) != Violated {
        KeptSatisfied(w, r.kind, added, es, kept);
        DecidesWhenResolved(w, r.kind, added, ks);
      }
    }
  }
}
