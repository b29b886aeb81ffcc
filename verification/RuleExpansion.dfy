/** `layers` and `independence` against the pairwise rules they stand for
    (rule_eval.rs). */
module RuleExpansion {
  import opened Wrappers
  import opened Ir
  import opened RuleModel

  function Globs(rule: RuleKind): seq<string>
    requires rule.Layers? || rule.Independence?
  {
    if rule.Layers? then rule.layers else rule.modules
  }

  /** Nothing is in the scope of two of the globs. */
  ghost predicate Disjoint(w: World, patterns: seq<string>) {
    forall i, j, id :: 0 <= i < j < |patterns| ==> !(InScope(w, patterns[i], id) && InScope(w, patterns[j], id))
  }

  /** One rule for every upward pair of layers, or for every ordered pair of
      modules. */
  function Expansion(rule: RuleKind): set<RuleKind>
    requires rule.Layers? || rule.Independence?
  {
    if rule.Layers? then
      set i, j | 0 <= j < i < |rule.layers| :: ForbidDependency(rule.layers[i], rule.layers[j])
    else
      set i, j | 0 <= i < |rule.modules| && 0 <= j < |rule.modules| && i != j ::
        ForbidReference(rule.modules[i], rule.modules[j])
  }

  lemma LayerIsMatch(w: World, patterns: seq<string>, id: SymbolId, i: nat)
    requires Disjoint(w, patterns) && i < |patterns|
    ensures InScope(w, patterns[i], id) <==> LayerOf(w, patterns, id) == Some(i)
  {
    if InScope(w, patterns[i], id) {
      var k := LayerOf(w, patterns, id).value;
      assert InScope(w, patterns[i], id) && InScope(w, patterns[k], id);
      assert !(k < i) && !(i < k);
    }
  }

  /** The pairwise rule that an edge between two of the scopes falls under. */
  function PairRule(rule: RuleKind, i: nat, j: nat): RuleKind
    requires rule.Layers? || rule.Independence?
    requires i < |Globs(rule)| && j < |Globs(rule)|
  {
    if rule.Layers? then ForbidDependency(rule.layers[i], rule.layers[j])
    else ForbidReference(rule.modules[i], rule.modules[j])
  }

  lemma PairOf(rule: RuleKind, r: RuleKind) returns (i: nat, j: nat)
    requires (rule.Layers? || rule.Independence?) && r in Expansion(rule)
    ensures i < |Globs(rule)| && j < |Globs(rule)| && r == PairRule(rule, i, j)
    ensures if rule.Layers? then j < i else i != j
  {
    if rule.Layers? {
      i, j :| 0 <= j < i < |rule.layers| && r == ForbidDependency(rule.layers[i], rule.layers[j]);
    } else {
      i, j :| 0 <= i < |rule.modules| && 0 <= j < |rule.modules| && i != j
        && r == ForbidReference(rule.modules[i], rule.modules[j]);
    }
  }

  /** A breach of the rule is a breach of one of its pairs. */
  lemma BreachHasPair(w: World, rule: RuleKind, e: Edge) returns (r: RuleKind)
    requires (rule.Layers? || rule.Independence?) && Disjoint(w, Globs(rule)) && Breach(w, rule, e)
    ensures r in Expansion(rule) && Breach(w, r, e)
  {
    var globs := Globs(rule);
    var i, j := LayerOf(w, globs, e.from).value, LayerOf(w, globs, e.to).value;
    LayerIsMatch(w, globs, e.from, i);
    LayerIsMatch(w, globs, e.to, j);
    r := PairRule(rule, i, j);
  }

  lemma PairBreaches(w: World, rule: RuleKind, r: RuleKind, e: Edge)
    requires (rule.Layers? || rule.Independence?) && Disjoint(w, Globs(rule))
    requires r in Expansion(rule) && Breach(w, r, e)
    ensures Breach(w, rule, e)
  {
    var i, j := PairOf(rule, r);
    LayerIsMatch(w, Globs(rule), e.from, i);
    LayerIsMatch(w, Globs(rule), e.to, j);
  }

  /** So with doubts, as long as every scope has another to be set against. */
  lemma DoubtHasPair(w: World, rule: RuleKind, e: Edge) returns (r: RuleKind)
    requires (rule.Layers? || rule.Independence?) && Disjoint(w, Globs(rule)) && |Globs(rule)| >= 2
    requires Doubtful(w, rule, e)
    ensures r in Expansion(rule) && Doubtful(w, r, e)
  {
    var globs := Globs(rule);
    var i := LayerOf(w, globs, e.from).value;
    LayerIsMatch(w, globs, e.from, i);
    r := PairRule(rule, i, if i == 0 then 1 else 0);
  }

  lemma PairDoubts(w: World, rule: RuleKind, r: RuleKind, e: Edge)
    requires (rule.Layers? || rule.Independence?) && Disjoint(w, Globs(rule))
    requires r in Expansion(rule) && Doubtful(w, r, e)
    ensures Doubtful(w, rule, e)
  {
    var i, j := PairOf(rule, r);
    LayerIsMatch(w, Globs(rule), e.from, i);
  }

  lemma EdgeVerdict(w: World, rule: RuleKind, added: Option<set<SymbolId>>, es: seq<Edge>)
    requires IsEdgeRule(rule)
    ensures Breached(w, rule, added, es) <==> exists e :: e in es && Breach(w, rule, e)
    ensures Doubted(w, rule, added, es) <==> exists e :: e in es && Doubtful(w, rule, e)
  {
  }

  lemma BreachedSplits(w: World, rule: RuleKind, added: Option<set<SymbolId>>, es: seq<Edge>)
    requires (rule.Layers? || rule.Independence?) && Disjoint(w, Globs(rule))
    ensures Breached(w, rule, added, es) <==> exists r :: r in Expansion(rule) && Breached(w, r, added, es)
  {
    EdgeVerdict(w, rule, added, es);
    if e :| e in es && Breach(w, rule, e) {
      var r := BreachHasPair(w, rule, e);
      EdgeVerdict(w, r, added, es);
    }
    if r :| r in Expansion(rule) && Breached(w, r, added, es) {
      EdgeVerdict(w, r, added, es);
      var e :| e in es && Breach(w, r, e);
      PairBreaches(w, rule, r, e);
    }
  }

  lemma DoubtedSplits(w: World, rule: RuleKind, added: Option<set<SymbolId>>, es: seq<Edge>)
    requires (rule.Layers? || rule.Independence?) && Disjoint(w, Globs(rule)) && |Globs(rule)| >= 2
    ensures Doubted(w, rule, added, es) <==> exists r :: r in Expansion(rule) && Doubted(w, r, added, es)
  {
    EdgeVerdict(w, rule, added, es);
    if e :| e in es && Doubtful(w, rule, e) {
      var r := DoubtHasPair(w, rule, e);
      EdgeVerdict(w, r, added, es);
    }
    if r :| r in Expansion(rule) && Doubted(w, r, added, es) {
      EdgeVerdict(w, r, added, es);
      var e :| e in es && Doubtful(w, r, e);
      PairDoubts(w, rule, r, e);
    }
  }

  /** What evaluating a list of rules would report: Violated if any is, otherwise
      Inconclusive if any is, otherwise Satisfied. */
  ghost function WorstOf(w: World, rules: set<RuleKind>, added: Option<set<SymbolId>>, es: seq<Edge>): Verdict {
    if exists r :: r in rules && VerdictOf(w, r, added, es) == Violated then Violated
    else if exists r :: r in rules && VerdictOf(w, r, added, es) == Inconclusive then Inconclusive
    else Satisfied
  }

  /** Scopes that do not overlap, two or more of them, reach the verdict of all
      their pairs taken together. */
  lemma VerdictIsTheWorstPair(w: World, rule: RuleKind, added: Option<set<SymbolId>>, es: seq<Edge>)
    requires (rule.Layers? || rule.Independence?) && Disjoint(w, Globs(rule)) && |Globs(rule)| >= 2
    ensures VerdictOf(w, rule, added, es) == WorstOf(w, Expansion(rule), added, es)
  {
    BreachedSplits(w, rule, added, es);
    DoubtedSplits(w, rule, added, es);
    hide Breached, Doubted, Disjoint;
    forall r | r in Expansion(rule) ensures !IsSkipped(r, added) { var i, j := PairOf(rule, r); }
  }

  // ── scopes that overlap ─────────────────────────────────────

  /** A resolved dependency of a symbol on itself. */
  function SelfEdge(id: SymbolId): Edge { Edge(id, id, "", 0, "imports", true, true) }

  /** Whatever is in two of the scopes breaks one of the pairs by using itself, and
      never the rule. */
  lemma OverlapParts(w: World, rule: RuleKind, added: Option<set<SymbolId>>, i: nat, j: nat, id: SymbolId)
    requires (rule.Layers? || rule.Independence?) && i < j < |Globs(rule)|
    requires InScope(w, Globs(rule)[i], id) && InScope(w, Globs(rule)[j], id)
    ensures VerdictOf(w, rule, added, [SelfEdge(id)]) == Satisfied
    ensures WorstOf(w, Expansion(rule), added, [SelfEdge(id)]) == Violated
  {
    var e, r := SelfEdge(id), PairRule(rule, j, i);
    assert e in [e];
    assert r in Expansion(rule) && Breach(w, r, e);
    EdgeVerdict(w, rule, added, [e]);
    EdgeVerdict(w, r, added, [e]);
    hide Breached, Doubted, InScope, LayerOf;
    assert VerdictOf(w, r, added, [e]) == Violated;
  }

  /** The rule and its expansion reach one verdict on every list of edges exactly
      when nothing is in two of the scopes. */
  lemma ExpansionAgreesExactly(w: World, rule: RuleKind, added: Option<set<SymbolId>>)
    requires (rule.Layers? || rule.Independence?) && |Globs(rule)| >= 2
    ensures (forall es :: VerdictOf(w, rule, added, es) == WorstOf(w, Expansion(rule), added, es))
      <==> Disjoint(w, Globs(rule))
  {
    hide VerdictOf, WorstOf, InScope, Expansion;
    if Disjoint(w, Globs(rule)) {
      forall es ensures VerdictOf(w, rule, added, es) == WorstOf(w, Expansion(rule), added, es) {
        VerdictIsTheWorstPair(w, rule, added, es);
      }
    } else {
      var i, j, id :| 0 <= i < j < |Globs(rule)| && InScope(w, Globs(rule)[i], id) && InScope(w, Globs(rule)[j], id);
      OverlapParts(w, rule, added, i, j, id);
    }
  }

  /** One weak dependency leaving the top layer. The rule is satisfied; its expansion
      counts the edge exactly when a lower layer's glob accepts its source too. */
  lemma TopDoubtExactly(w: World, stack: seq<string>, added: Option<set<SymbolId>>, e: Edge)
    requires !e.gateSafe && e.isDependency && LayerOf(w, stack, e.from) == Some(0)
    ensures VerdictOf(w, Layers(stack), added, [e]) == Satisfied
    ensures WorstOf(w, Expansion(Layers(stack)), added, [e])
      == if exists i :: 0 < i < |stack| && InScope(w, stack[i], e.from) then Inconclusive else Satisfied
  {
    var rule, es := Layers(stack), [e];
    assert e in es;
    EdgeVerdict(w, rule, added, es);
    forall r | r in Expansion(rule)
      ensures r.ForbidDependency? && VerdictOf(w, r, added, es) == if InScope(w, r.from, e.from) then Inconclusive else Satisfied
    {
      EdgeVerdict(w, r, added, es);
      hide Breached, Doubted, InScope, LayerOf;
    }
    hide Breached, Doubted, InScope, LayerOf, VerdictOf;
    if i :| 0 < i < |stack| && InScope(w, stack[i], e.from) {
      assert ForbidDependency(stack[i], stack[0]) in Expansion(rule);
    }
  }

  /** Two layers that both accept a path, and one weak dependency leaving it: the
      stack is satisfied, and the one pair it expands into is not. */
  lemma SharedPathParts()
    ensures var w := World((pattern, path) => path == "f", map["s" := Symbol("s", "s", Function, Rust, "f", 1, 1, None)]);
      var e := Edge("s", "s", "f", 1, "imports", true, false);
      && VerdictOf(w, Layers(["top", "low"]), None, [e]) == Satisfied
      && ForbidDependency("low", "top") in Expansion(Layers(["top", "low"]))
      && VerdictOf(w, ForbidDependency("low", "top"), None, [e]) == Inconclusive
  {
    var w := World((pattern, path) => path == "f", map["s" := Symbol("s", "s", Function, Rust, "f", 1, 1, None)]);
    var e := Edge("s", "s", "f", 1, "imports", true, false);
    var r := ForbidDependency("low", "top");
    var stack := ["top", "low"];
    TopDoubtExactly(w, stack, None, e);
    assert r == ForbidDependency(stack[1], stack[0]) && r in Expansion(Layers(stack));
    assert e in [e] && Doubtful(w, r, e);
    EdgeVerdict(w, r, None, [e]);
    hide Breached, Doubted;
  }
}
