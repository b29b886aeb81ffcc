/** The rule evaluators (rule_eval.rs), each a pass over the edges, and the
    dispatcher that turns what they found into a verdict. */
module RuleEval {
  import opened Wrappers
  import opened Ir
  import opened Ordering
  import opened Reachability
  import opened RuleModel
  import opened Cycles
  import opened FanLimits
  import opened RuleSoundness
  import opened FanRetargeting

  // ── what a pass collects ────────────────────────────────────

  /** The breaches in the order the edges come. */
  function Rows(w: World, rule: RuleKind, es: seq<Edge>): seq<Violation> {
    if |es| == 0 then []
    else
      var e := es[|es| - 1];
      Rows(w, rule, es[..|es| - 1]) + if Breach(w, rule, e) then [Violation(e.file, e.line, e.from)] else []
  }

  function DoubtCount(w: World, rule: RuleKind, es: seq<Edge>): nat {
    if |es| == 0 then 0
    else DoubtCount(w, rule, es[..|es| - 1]) + if Doubtful(w, rule, es[|es| - 1]) then 1 else 0
  }

  /** The weak edges in scope, counted, and the files they are in. */
  function Doubt(w: World, rule: RuleKind, es: seq<Edge>): Uncertainty {
    Uncertainty(DoubtCount(w, rule, es), set e | e in es && Doubtful(w, rule, e) :: e.file)
  }

  const NO_DOUBT := Uncertainty(0, {})

  lemma {:induction false} NoRows(w: World, rule: RuleKind, es: seq<Edge>)
    requires forall e :: e in es ==> !Breach(w, rule, e)
    ensures Rows(w, rule, es) == []
  {
    if |es| > 0 {
      assert es[|es| - 1] in es;
      NoRows(w, rule, es[..|es| - 1]);
    }
  }

  lemma {:induction false} SomeRow(w: World, rule: RuleKind, es: seq<Edge>, i: nat)
    requires i < |es| && Breach(w, rule, es[i])
    ensures Rows(w, rule, es) != []
  {
    if i < |es| - 1 { SomeRow(w, rule, es[..|es| - 1], i); }
  }

  lemma {:induction false} NoDoubts(w: World, rule: RuleKind, es: seq<Edge>)
    requires forall e :: e in es ==> !Doubtful(w, rule, e)
    ensures DoubtCount(w, rule, es) == 0
  {
    if |es| > 0 {
      assert es[|es| - 1] in es;
      NoDoubts(w, rule, es[..|es| - 1]);
    }
  }

  lemma {:induction false} SomeDoubt(w: World, rule: RuleKind, es: seq<Edge>, i: nat)
    requires i < |es| && Doubtful(w, rule, es[i])
    ensures DoubtCount(w, rule, es) > 0
  {
    if i < |es| - 1 { SomeDoubt(w, rule, es[..|es| - 1], i); }
  }

  lemma RowsReport(w: World, rule: RuleKind, es: seq<Edge>)
    ensures Rows(w, rule, es) != [] <==> exists e :: e in es && Breach(w, rule, e)
  {
    if e :| e in es && Breach(w, rule, e) {
      var i :| 0 <= i < |es| && es[i] == e;
      SomeRow(w, rule, es, i);
    } else {
      NoRows(w, rule, es);
    }
  }

  lemma DoubtsReport(w: World, rule: RuleKind, es: seq<Edge>)
    ensures DoubtCount(w, rule, es) > 0 <==> exists e :: e in es && Doubtful(w, rule, e)
  {
    if e :| e in es && Doubtful(w, rule, e) {
      var i :| 0 <= i < |es| && es[i] == e;
      SomeDoubt(w, rule, es, i);
    } else {
      NoDoubts(w, rule, es);
    }
  }

  lemma OneMoreEdge(w: World, rule: RuleKind, es: seq<Edge>, i: nat)
    requires i < |es|
    ensures Rows(w, rule, es[..i + 1]) == Rows(w, rule, es[..i])
      + if Breach(w, rule, es[i]) then [Violation(es[i].file, es[i].line, es[i].from)] else []
    ensures var u := Doubt(w, rule, es[..i]);
      Doubt(w, rule, es[..i + 1]) ==
        if Doubtful(w, rule, es[i]) then Uncertainty(u.unresolvedEdges + 1, u.files + {es[i].file}) else u
  {
    hide Breach, Doubtful;
    assert es[..i + 1][..i] == es[..i];
    OneMoreDoubt(w, rule, es[..i], es[i]);
    assert es[..i + 1] == es[..i] + [es[i]];
    hide Doubt, DoubtCount;
  }

  lemma OneMoreDoubt(w: World, rule: RuleKind, es: seq<Edge>, e: Edge)
    ensures var u := Doubt(w, rule, es);
      Doubt(w, rule, es + [e]) ==
        if Doubtful(w, rule, e) then Uncertainty(u.unresolvedEdges + 1, u.files + {e.file}) else u
  {
    hide Doubtful;
    assert (es + [e])[..|es|] == es;
    var files := set x | x in es + [e] && Doubtful(w, rule, x) :: x.file;
    assert files == (set x | x in es && Doubtful(w, rule, x) :: x.file) + if Doubtful(w, rule, e) then {e.file} else {};
  }

  lemma NothingYet(w: World, rule: RuleKind, es: seq<Edge>)
    ensures Rows(w, rule, es[..0]) == [] && Doubt(w, rule, es[..0]) == NO_DOUBT
    ensures IsSymbolRule(rule) ==> SettledIds(w, rule, es[..0]) == {}
  {
  }

  // ── edge rules ──────────────────────────────────────────────

  method ForbidEdges(w: World, es: seq<Edge>, from: string, to: string, dependencyOnly: bool)
    returns (violations: seq<Violation>, u: Uncertainty)
    ensures var rule := if dependencyOnly then ForbidDependency(from, to) else ForbidReference(from, to);
      violations == SortBy(ViolationKey, Rows(w, rule, es)) && u == Doubt(w, rule, es)
  {
    ghost var rule := if dependencyOnly then ForbidDependency(from, to) else ForbidReference(from, to);
    violations := [];
    var unresolved, files := 0, {};
    for i := 0 to |es|
      invariant violations == Rows(w, rule, es[..i])
      invariant Uncertainty(unresolved, files) == Doubt(w, rule, es[..i])
    {
      var edge := es[i];
      OneMoreEdge(w, rule, es, i);
      if dependencyOnly && !edge.isDependency { continue; }
      var source := ScopePath(w, edge.from);
      if source.None? || !w.glob(from, source.value) { continue; }
      if !edge.gateSafe {
        unresolved, files := unresolved + 1, files + {edge.file};
        continue;
      }
      var target := ScopePath(w, edge.to);
      if target.Some? && w.glob(to, target.value) {
        violations := violations + [Violation(edge.file, edge.line, edge.from)];
      }
    }
    assert es[..|es|] == es;
    violations := SortBy(ViolationKey, violations);
    u := Uncertainty(unresolved, files);
  }

  method LayersEdges(w: World, es: seq<Edge>, stack: seq<string>)
    returns (violations: seq<Violation>, u: Uncertainty)
    ensures violations == SortBy(ViolationKey, Rows(w, Layers(stack), es)) && u == Doubt(w, Layers(stack), es)
  {
    violations := [];
    var unresolved, files := 0, {};
    for i := 0 to |es|
      invariant violations == Rows(w, Layers(stack), es[..i])
      invariant Uncertainty(unresolved, files) == Doubt(w, Layers(stack), es[..i])
    {
      var edge := es[i];
      OneMoreEdge(w, Layers(stack), es, i);
      if !edge.isDependency { continue; }
      var source := LayerOf(w, stack, edge.from);
      if source.None? || source.value == 0 { continue; }
      if !edge.gateSafe {
        unresolved, files := unresolved + 1, files + {edge.file};
        continue;
      }
      var target := LayerOf(w, stack, edge.to);
      if target.Some? && target.value < source.value {
        violations := violations + [Violation(edge.file, edge.line, edge.from)];
      }
    }
    assert es[..|es|] == es;
    violations := SortBy(ViolationKey, violations);
    u := Uncertainty(unresolved, files);
  }

  method IndependenceEdges(w: World, es: seq<Edge>, modules: seq<string>)
    returns (violations: seq<Violation>, u: Uncertainty)
    ensures violations == SortBy(ViolationKey, Rows(w, Independence(modules), es))
    ensures u == Doubt(w, Independence(modules), es)
  {
    violations := [];
    var unresolved, files := 0, {};
    for i := 0 to |es|
      invariant violations == Rows(w, Independence(modules), es[..i])
      invariant Uncertainty(unresolved, files) == Doubt(w, Independence(modules), es[..i])
    {
      var edge := es[i];
      OneMoreEdge(w, Independence(modules), es, i);
      var source := LayerOf(w, modules, edge.from);
      if source.None? { continue; }
      if !edge.gateSafe {
        unresolved, files := unresolved + 1, files + {edge.file};
        continue;
      }
      var target := LayerOf(w, modules, edge.to);
      if target.Some? && source.value != target.value {
        violations := violations + [Violation(edge.file, edge.line, edge.from)];
      }
    }
    assert es[..|es|] == es;
    violations := SortBy(ViolationKey, violations);
    u := Uncertainty(unresolved, files);
  }

  // ── symbol rules ────────────────────────────────────────────

  function RowOf(w: World, id: SymbolId): Violation
    requires id in w.symbols
  {
    var s := w.symbols[id];
    Violation(s.file, s.lineStart, s.id)
  }

  /** One row for each of these symbols, in order. */
  ghost predicate Reports(w: World, ids: set<SymbolId>, violations: seq<Violation>) {
    && ids <= w.symbols.Keys
    && |violations| == |ids|
    && SortedBy(ViolationKey, violations)
    && forall v :: v in violations <==> exists id :: id in ids && v == RowOf(w, id)
  }

  /** The symbols whose demand nothing in `settled` meets. */
  function Missing(w: World, rule: RuleKind, added: Option<set<SymbolId>>, settled: set<SymbolId>): set<SymbolId>
    requires IsSymbolRule(rule)
  {
    set id | id in w.symbols && Demanded(w, rule, added, id) && id !in settled
  }

  /** One row for each of these symbols, in the order they were come upon. */
  ghost predicate Listed(w: World, ids: set<SymbolId>, violations: seq<Violation>) {
    && ids <= w.symbols.Keys
    && |violations| == |ids|
    && forall v :: v in violations <==> exists id :: id in ids && v == RowOf(w, id)
  }

  lemma ListOne(w: World, ids: set<SymbolId>, violations: seq<Violation>, id: SymbolId)
    requires Listed(w, ids, violations) && id in w.symbols && id !in ids
    ensures Listed(w, ids + {id}, violations + [RowOf(w, id)])
  {
    forall v ensures v in violations + [RowOf(w, id)] <==> exists x :: x in ids + {id} && v == RowOf(w, x) {
      if v == RowOf(w, id) { assert id in ids + {id}; }
    }
  }

  lemma ListNext(w: World, missing: set<SymbolId>, rest: set<SymbolId>, violations: seq<Violation>, id: SymbolId)
    requires Listed(w, missing - rest, violations) && id in rest && id in w.symbols
    ensures Listed(w, missing - (rest - {id}), if id in missing then violations + [RowOf(w, id)] else violations)
  {
    if id in missing {
      ListOne(w, missing - rest, violations, id);
      assert missing - (rest - {id}) == (missing - rest) + {id};
    } else {
      assert missing - (rest - {id}) == missing - rest;
    }
  }

  lemma ListSorted(w: World, ids: set<SymbolId>, violations: seq<Violation>)
    requires Listed(w, ids, violations)
    ensures Reports(w, ids, SortBy(ViolationKey, violations))
  {
    Sorts(ViolationKey, violations);
    SortKeeps(ViolationKey, violations);
  }

  /** The pass over the symbol table, which comes in no particular order. */
  method ReportMissing(w: World, rule: RuleKind, added: Option<set<SymbolId>>, settled: set<SymbolId>)
    returns (violations: seq<Violation>)
    requires IsSymbolRule(rule)
    ensures Reports(w, Missing(w, rule, added, settled), violations)
  {
    violations := [];
    var rest := w.symbols.Keys;
    ghost var missing := Missing(w, rule, added, settled);
    while rest != {}
      invariant rest <= w.symbols.Keys
      invariant Listed(w, missing - rest, violations)
      decreases rest
    {
      var id :| id in rest;
      assert id in missing <==> Demanded(w, rule, added, id) && id !in settled;
      ListNext(w, missing, rest, violations, id);
      if Demanded(w, rule, added, id) && id !in settled {
        violations := violations + [RowOf(w, id)];
      }
      rest := rest - {id};
    }
    assert missing - rest == missing;
    ListSorted(w, missing, violations);
    violations := SortBy(ViolationKey, violations);
  }

  ghost function UnmetIds(w: World, rule: RuleKind, added: Option<set<SymbolId>>, es: seq<Edge>): set<SymbolId>
    requires IsSymbolRule(rule)
  {
    set id | id in w.symbols && Unmet(w, rule, added, es, id)
  }

  ghost function SettledIds(w: World, rule: RuleKind, es: seq<Edge>): set<SymbolId>
    requires IsSymbolRule(rule)
  {
    set id, e | id in Ends(es) && e in es && Settles(w, rule, id, e) :: id
  }

  ghost function Ends(es: seq<Edge>): set<SymbolId> {
    (set e | e in es :: e.from) + (set e | e in es :: e.to)
  }

  lemma SettledElsewhere(w: World, rule: RuleKind, added: Option<set<SymbolId>>, es: seq<Edge>)
    requires IsSymbolRule(rule)
    ensures UnmetIds(w, rule, added, es) == Missing(w, rule, added, SettledIds(w, rule, es))
  {
    forall id | id in w.symbols
      ensures Unmet(w, rule, added, es, id) <==> Demanded(w, rule, added, id) && id !in SettledIds(w, rule, es)
    {
      if Demanded(w, rule, added, id) {
        forall e | e in es && Settles(w, rule, id, e) ensures id in SettledIds(w, rule, es) {
          assert id in Ends(es);
        }
      }
    }
  }

  lemma OneMoreSettled(w: World, rule: RuleKind, es: seq<Edge>, i: nat)
    requires IsSymbolRule(rule) && i < |es|
    ensures SettledIds(w, rule, es[..i + 1]) == SettledIds(w, rule, es[..i])
      + set id | id in {es[i].from, es[i].to} && Settles(w, rule, id, es[i])
  {
    assert es[..i + 1] == es[..i] + [es[i]];
    var more := set id | id in {es[i].from, es[i].to} && Settles(w, rule, id, es[i]);
    forall id ensures id in SettledIds(w, rule, es[..i + 1]) <==> id in SettledIds(w, rule, es[..i]) || id in more {
      forall e | e in es && Settles(w, rule, id, e) ensures id == e.from || id == e.to { }
      if id in SettledIds(w, rule, es[..i + 1]) {
        var e :| e in es[..i + 1] && Settles(w, rule, id, e);
        if e in es[..i] { assert id in Ends(es[..i]); }
      }
      if id in SettledIds(w, rule, es[..i]) {
        var e :| e in es[..i] && Settles(w, rule, id, e);
        assert e in es[..i + 1] && id in Ends(es[..i + 1]);
      }
      if id in more { assert es[i] in es[..i + 1] && id in Ends(es[..i + 1]); }
    }
  }

  method RequiresDependencyOf(w: World, es: seq<Edge>, from: string, to: string)
    returns (violations: seq<Violation>, u: Uncertainty)
    requires WellKeyed(w)
    ensures var rule := RequiresDependency(from, to);
      Reports(w, UnmetIds(w, rule, None, es), violations) && u == Doubt(w, rule, es)
  {
    hide Doubt, DoubtCount, SettledIds;
    var rule := RequiresDependency(from, to);
    NothingYet(w, rule, es);
    var satisfied: set<SymbolId>, unproven: set<SymbolId> := {}, {};
    var unresolved, files := 0, {};
    for i := 0 to |es|
      invariant satisfied + unproven == SettledIds(w, rule, es[..i])
      invariant Uncertainty(unresolved, files) == Doubt(w, rule, es[..i])
    {
      var edge := es[i];
      OneMoreEdge(w, rule, es, i);
      OneMoreSettled(w, rule, es, i);
      var source := ScopePath(w, edge.from);
      if source.None? || !w.glob(from, source.value) { continue; }
      if !edge.gateSafe {
        unresolved, files := unresolved + 1, files + {edge.file};
        unproven := unproven + {edge.from};
        continue;
      }
      var target := ScopePath(w, edge.to);
      if target.Some? && w.glob(to, target.value) {
        satisfied := satisfied + {edge.from};
      }
    }
    assert es[..|es|] == es;
    SettledElsewhere(w, rule, None, es);
    violations := ReportMissing(w, rule, None, satisfied + unproven);
    u := Uncertainty(unresolved, files);
  }

  /** Absence cannot be shown while any edge is weak: then there are no violations
      to report, only the doubt. */
  ghost predicate AbsenceReported(
    w: World, rule: RuleKind, added: Option<set<SymbolId>>, es: seq<Edge>,
    violations: seq<Violation>, u: Uncertainty)
    requires IsSymbolRule(rule)
  {
    var missing := UnmetIds(w, rule, added, es);
    if Doubt(w, rule, es).unresolvedEdges > 0 && missing != {} then violations == [] && u == Doubt(w, rule, es)
    else Reports(w, missing, violations) && u == NO_DOUBT
  }

  method NoOrphansOf(w: World, es: seq<Edge>, scope: string, roots: seq<string>)
    returns (violations: seq<Violation>, u: Uncertainty)
    requires WellKeyed(w)
    ensures AbsenceReported(w, NoOrphans(scope, roots), None, es, violations, u)
  {
    hide Doubt, SettledIds;
    var rule := NoOrphans(scope, roots);
    NothingYet(w, rule, es);
    var referenced: set<SymbolId> := {};
    var structural, files := 0, {};
    for i := 0 to |es|
      invariant referenced == SettledIds(w, rule, es[..i])
      invariant Uncertainty(structural, files) == Doubt(w, rule, es[..i])
    {
      OneMoreEdge(w, rule, es, i);
      OneMoreSettled(w, rule, es, i);
      if es[i].gateSafe {
        referenced := referenced + {es[i].to};
      } else {
        structural, files := structural + 1, files + {es[i].file};
      }
    }
    assert es[..|es|] == es;
    SettledElsewhere(w, rule, None, es);
    violations := ReportMissing(w, rule, None, referenced);
    if structural > 0 && violations != [] {
      assert UnmetIds(w, rule, None, es) != {};
      return [], Uncertainty(structural, files);
    }
    u := NO_DOUBT;
  }

  method RequiresTestOf(w: World, es: seq<Edge>, added: Option<set<SymbolId>>, symbols: string, only: Option<string>, newOnly: bool)
    returns (violations: seq<Violation>, u: Uncertainty)
    requires WellKeyed(w)
    ensures AbsenceReported(w, RequiresTest(symbols, only, newOnly), added, es, violations, u)
  {
    hide Doubt, SettledIds;
    var rule := RequiresTest(symbols, only, newOnly);
    NothingYet(w, rule, es);
    var covered: set<SymbolId>, tests: set<SymbolId> := {}, {};
    var structural, files := 0, {};
    for i := 0 to |es|
      invariant covered + tests == SettledIds(w, rule, es[..i])
      invariant Uncertainty(structural, files) == Doubt(w, rule, es[..i])
    {
      OneMoreEdge(w, rule, es, i);
      OneMoreSettled(w, rule, es, i);
      if es[i].kindName == "tests" {
        tests := tests + {es[i].from};
        if es[i].gateSafe { covered := covered + {es[i].to}; }
      }
      if !es[i].gateSafe {
        structural, files := structural + 1, files + {es[i].file};
      }
    }
    assert es[..|es|] == es;
    SettledElsewhere(w, rule, added, es);
    violations := ReportMissing(w, rule, added, covered + tests);
    if structural > 0 && violations != [] {
      assert UnmetIds(w, rule, added, es) != {};
      return [], Uncertainty(structural, files);
    }
    u := NO_DOUBT;
  }

  // ── cycles ──────────────────────────────────────────────────

  /** The members of a cycle that the report names it by. */
  ghost predicate NamesCycle(r: Relation<string>, a: string) {
    && (exists b :: b != a && Mutual(r, a, b))
    && forall b :: Mutual(r, a, b) ==> TextLe(a, b)
  }

  function CycleRow(a: string): Violation { Violation(a, 0, a) }

  /** One row for every component of two nodes or more, and beside each the walk
      that is printed for it. */
  ghost predicate CyclesReported(r: Relation<string>, violations: seq<Violation>, walks: map<string, seq<string>>) {
    && StrictlySortedBy(ViolationKey, violations)
    && (forall v :: v in violations <==> NamesCycle(r, v.symbol) && v == CycleRow(v.symbol))
    && forall v :: v in violations ==> v.symbol in walks && IsWalkFrom(r, v.symbol, walks[v.symbol])
  }

  ghost predicate IsWalkFrom(r: Relation<string>, a: string, walk: seq<string>) {
    exists members :: a in members && IsComponent(r, members) && IsCycleWalk(r, members, a, walk)
  }

  /** The collecting pass of `no-cycles`. */
  method CollectPairs(w: World, es: seq<Edge>, scope: string, level: CycleLevel)
    returns (nodes: set<string>, pairs: Relation<string>, u: Uncertainty)
    ensures pairs == DependsOn(w, scope, level, es) && u == Doubt(w, NoCycles(scope, level), es)
    ensures forall a, b :: (a, b) in pairs ==> a in nodes && b in nodes
  {
    nodes, pairs := {}, {};
    var unresolved, files := 0, {};
    for i := 0 to |es|
      invariant pairs == DependsOn(w, scope, level, es[..i])
      invariant Uncertainty(unresolved, files) == Doubt(w, NoCycles(scope, level), es[..i])
      invariant forall a, b :: (a, b) in pairs ==> a in nodes && b in nodes
    {
      var edge := es[i];
      OneMoreEdge(w, NoCycles(scope, level), es, i);
      OneMorePair(w, scope, level, es, i);
      if !edge.isDependency { continue; }
      var source := ScopePath(w, edge.from);
      if source.None? || !w.glob(scope, source.value) { continue; }
      var fromNode := CycleNode(source.value, level);
      nodes := nodes + {fromNode};
      if !edge.gateSafe {
        unresolved, files := unresolved + 1, files + {edge.file};
        continue;
      }
      var target := ScopePath(w, edge.to);
      if target.None? || !w.glob(scope, target.value) { continue; }
      var toNode := CycleNode(target.value, level);
      nodes := nodes + {toNode};
      if fromNode != toNode { pairs := pairs + {(fromNode, toNode)}; }
    }
    assert es[..|es|] == es;
    u := Uncertainty(unresolved, files);
  }

  lemma OneMorePair(w: World, scope: string, level: CycleLevel, es: seq<Edge>, i: nat)
    requires i < |es|
    ensures DependsOn(w, scope, level, es[..i + 1]) == DependsOn(w, scope, level, es[..i])
      + if es[i].gateSafe && Pairs(w, scope, level, es[i])
        then {(NodeOf(w, level, es[i].from), NodeOf(w, level, es[i].to))} else {}
  {
    assert es[..i + 1] == es[..i] + [es[i]];
  }

  /** Only nodes of the relation reach or are reached by anything else. */
  lemma MutualStays(r: Relation<string>, nodes: set<string>, a: string, b: string)
    requires forall x, y :: (x, y) in r ==> x in nodes && y in nodes
    requires a in nodes && Mutual(r, a, b)
    ensures b in nodes
  {
    ClosedHolds(r, nodes, a, b);
  }

  lemma ComponentOf(r: Relation<string>, nodes: set<string>, a: string, members: set<string>)
    requires forall x, y :: (x, y) in r ==> x in nodes && y in nodes
    requires a in nodes && forall b :: b in members <==> b in nodes && Mutual(r, a, b)
    ensures a in members && IsComponent(r, members)
    ensures forall x, y :: x in members && Mutual(r, x, y) ==> Mutual(r, a, y) && y in nodes
  {
    ReachesSelf(r, a);
    forall x, y | x in members && Mutual(r, x, y) ensures Mutual(r, a, y) && y in nodes {
      ReachesThrough(r, a, x, y);
      ReachesThrough(r, y, x, a);
      MutualStays(r, nodes, a, y);
    }
    forall x, y | x in members && y in members ensures Mutual(r, x, y) {
      ReachesThrough(r, x, a, y);
      ReachesThrough(r, y, a, x);
    }
  }

  lemma TwoOrMore(members: set<string>, a: string)
    requires a in members
    ensures |members| < 2 <==> members == {a}
  {
    if |members| < 2 { assert |members - {a}| == 0; }
  }

  lemma NamedOnce(r: Relation<string>, a: string, b: string)
    requires NamesCycle(r, a) && NamesCycle(r, b) && Mutual(r, a, b)
    ensures a == b
  {
    assert Mutual(r, b, a);
    Total(TextKey(a), TextKey(b));
  }

  /** What the pass over components has found so far, `rest` being still to come. */
  ghost predicate FoundCycles(
    r: Relation<string>, nodes: set<string>, rest: set<string>,
    violations: seq<Violation>, walks: map<string, seq<string>>)
  {
    && (forall v :: v in violations <==> v == CycleRow(v.symbol) && v.symbol in nodes - rest && NamesCycle(r, v.symbol))
    && (forall i, j :: 0 <= i < j < |violations| ==> violations[i] != violations[j])
    && (forall v :: v in violations ==> v.symbol in walks && IsWalkFrom(r, v.symbol, walks[v.symbol]))
    && (forall a, b :: a in nodes - rest && Mutual(r, a, b) ==> b in nodes - rest)
    && (|violations| == 0 ==> forall a, b :: a in nodes - rest && Mutual(r, a, b) ==> a == b)
  }

  method NoCyclesOf(w: World, es: seq<Edge>, scope: string, level: CycleLevel)
    returns (violations: seq<Violation>, walks: map<string, seq<string>>, u: Uncertainty)
    ensures var r := DependsOn(w, scope, level, es);
      && CyclesReported(r, violations, walks)
      && (violations != [] <==> HasCycle(r))
    ensures u == Doubt(w, NoCycles(scope, level), es)
  {
    var nodes, pairs, doubt := CollectPairs(w, es, scope, level);
    u := doubt;
    violations, walks := FindCycles(pairs, nodes);
    CyclesFound(pairs, nodes, violations, walks);
    violations := SortBy(ViolationKey, violations);
  }

  /** The reporting pass, over the components in no particular order. */
  method FindCycles(r: Relation<string>, nodes: set<string>)
    returns (violations: seq<Violation>, walks: map<string, seq<string>>)
    requires forall x, y :: (x, y) in r ==> x in nodes && y in nodes
    ensures FoundCycles(r, nodes, {}, violations, walks)
  {
    violations, walks := [], map[];
    var rest := nodes;
    while rest != {}
      invariant rest <= nodes && FoundCycles(r, nodes, rest, violations, walks)
      decreases rest
    {
      var a :| a in rest;
      var members := Component(r, nodes, a);
      ComponentOf(r, nodes, a, members);
      if |members| < 2 {
        TwoOrMore(members, a);
        SkipSingle(r, nodes, rest, violations, walks, a, members);
      } else {
        var entry := LeastOf(members);
        var walk := CyclePath(r, members, entry);
        AddCycle(r, nodes, rest, violations, walks, members, entry, walk, a);
        violations := violations + [CycleRow(entry)];
        walks := walks[entry := walk];
      }
      rest := rest - members;
    }
  }

  lemma SkipSingle(
    r: Relation<string>, nodes: set<string>, rest: set<string>,
    violations: seq<Violation>, walks: map<string, seq<string>>, a: string, members: set<string>)
    requires FoundCycles(r, nodes, rest, violations, walks) && a in rest && rest <= nodes
    requires IsComponent(r, members) && members == {a}
    ensures FoundCycles(r, nodes, rest - members, violations, walks)
  {
  }

  lemma AddCycle(
    r: Relation<string>, nodes: set<string>, rest: set<string>,
    violations: seq<Violation>, walks: map<string, seq<string>>,
    members: set<string>, entry: string, walk: seq<string>, a: string)
    requires FoundCycles(r, nodes, rest, violations, walks) && rest <= nodes
    requires IsComponent(r, members) && members <= nodes && |members| >= 2 && a in members && a in rest
    requires entry in members && forall t :: t in members ==> TextLe(entry, t)
    requires IsCycleWalk(r, members, entry, walk)
    ensures FoundCycles(r, nodes, rest - members, violations + [CycleRow(entry)], walks[entry := walk])
  {
    TwoOrMore(members, entry);
    var other :| other in members && other != entry;
    assert NamesCycle(r, entry);
    assert members <= rest by {
      forall x | x in members ensures x in rest {
        assert Mutual(r, x, a);
      }
    }
    forall x | x in members && NamesCycle(r, x) ensures x == entry { NamedOnce(r, x, entry); }
    assert IsWalkFrom(r, entry, walk);
  }

  lemma CyclesFound(r: Relation<string>, nodes: set<string>, violations: seq<Violation>, walks: map<string, seq<string>>)
    requires FoundCycles(r, nodes, {}, violations, walks)
    requires forall a, b :: (a, b) in r ==> a in nodes && b in nodes
    ensures CyclesReported(r, SortBy(ViolationKey, violations), walks)
    ensures SortBy(ViolationKey, violations) != [] <==> HasCycle(r)
  {
    Sorts(ViolationKey, violations);
    SortKeeps(ViolationKey, violations);
    DistinctSortsStrictly(ViolationKey, violations);
    forall a | NamesCycle(r, a) ensures a in nodes { NamedIsNode(r, nodes, a); }
    if violations != [] {
      assert violations[0] in violations;
      assert NamesCycle(r, violations[0].symbol);
    } else if HasCycle(r) {
      var a, b :| a != b && Reaches(r, a, b) && Reaches(r, b, a);
      var c := FirstStep(r, a, b);
      assert Mutual(r, a, b);
      assert false;
    }
  }

  lemma NamedIsNode(r: Relation<string>, nodes: set<string>, a: string)
    requires forall x, y :: (x, y) in r ==> x in nodes && y in nodes
    requires NamesCycle(r, a)
    ensures a in nodes
  {
    var b :| b != a && Mutual(r, a, b);
    var c := FirstStep(r, a, b);
  }

  // ── the dispatcher ──────────────────────────────────────────

  /** What evaluating one rule turns up. */
  ghost predicate Collected(
    w: World, rule: RuleKind, added: Option<set<SymbolId>>, es: seq<Edge>,
    violations: seq<Violation>, u: Uncertainty)
  {
    if IsEdgeRule(rule) then violations == SortBy(ViolationKey, Rows(w, rule, es)) && u == Doubt(w, rule, es)
    else if rule.RequiresDependency? then Reports(w, UnmetIds(w, rule, None, es), violations) && u == Doubt(w, rule, es)
    else if IsSymbolRule(rule) then
      AbsenceReported(w, rule, if rule.NoOrphans? then None else added, es, violations, u)
    else if rule.NoCycles? then
      && (exists walks :: CyclesReported(DependsOn(w, rule.scope, rule.level, es), violations, walks))
      && (violations != [] <==> HasCycle(DependsOn(w, rule.scope, rule.level, es)))
      && u == Doubt(w, rule, es)
    else FanReported(w, rule, es, violations, u)
  }

  method Collect(w: World, es: seq<Edge>, added: Option<set<SymbolId>>, rule: RuleKind)
    returns (violations: seq<Violation>, u: Uncertainty)
    requires WellKeyed(w)
    ensures Collected(w, rule, added, es, violations, u)
  {
    match rule
    case ForbidDependency(from, to) => violations, u := ForbidEdges(w, es, from, to, true);
    case ForbidReference(from, to) => violations, u := ForbidEdges(w, es, from, to, false);
    case Layers(stack) => violations, u := LayersEdges(w, es, stack);
    case Independence(modules) => violations, u := IndependenceEdges(w, es, modules);
    case RequiresDependency(from, to) => violations, u := RequiresDependencyOf(w, es, from, to);
    case NoOrphans(scope, roots) => violations, u := NoOrphansOf(w, es, scope, roots);
    case RequiresTest(symbols, only, newOnly) =>
      violations, u := RequiresTestOf(w, es, added, symbols, only, newOnly);
    case NoCycles(scope, level) =>
      var walks;
      violations, walks, u := NoCyclesOf(w, es, scope, level);
    case MaxFanIn(threshold) => violations, u := MaxFanInOf(w, es, threshold);
    case MaxFanOut(threshold) => violations, u := MaxFanOutOf(w, es, threshold);
  }

  lemma SortedEmpty(xs: seq<Violation>)
    ensures SortBy(ViolationKey, xs) != [] <==> xs != []
  {
    Sorts(ViolationKey, xs);
  }

  lemma ReportsEmpty(w: World, ids: set<SymbolId>, violations: seq<Violation>)
    requires Reports(w, ids, violations)
    ensures violations != [] <==> ids != {}
  {
  }

  lemma SymbolRuleCollected(
    w: World, rule: RuleKind, added: Option<set<SymbolId>>, es: seq<Edge>, violations: seq<Violation>, u: Uncertainty)
    requires IsSymbolRule(rule) && Collected(w, rule, added, es, violations, u)
    ensures violations != [] <==> Breached(w, rule, added, es)
    ensures violations == [] ==> (u.unresolvedEdges > 0 <==> Doubted(w, rule, added, es))
  {
    DoubtsReport(w, rule, es);
    var asked := if rule.RequiresTest? then added else None;
    var missing := UnmetIds(w, rule, asked, es);
    forall id ensures id in missing <==> Unmet(w, rule, added, es, id) { }
    if rule.RequiresDependency? {
      ReportsEmpty(w, missing, violations);
    } else {
      forall e ensures Doubtful(w, rule, e) <==> !e.gateSafe { }
      assert Weak(es) <==> DoubtCount(w, rule, es) > 0;
      if !Weak(es) || missing == {} { ReportsEmpty(w, missing, violations); }
    }
  }

  /** What was collected draws the verdict. */
  lemma CollectedDecides(
    w: World, rule: RuleKind, added: Option<set<SymbolId>>, es: seq<Edge>, violations: seq<Violation>, u: Uncertainty)
    requires Collected(w, rule, added, es, violations, u)
    ensures violations != [] <==> Breached(w, rule, added, es)
    ensures violations == [] ==> (u.unresolvedEdges > 0 <==> Doubted(w, rule, added, es))
  {
    DoubtsReport(w, rule, es);
    hide Doubtful, Breach;
    if IsEdgeRule(rule) {
      RowsReport(w, rule, es);
      SortedEmpty(Rows(w, rule, es));
    } else if IsSymbolRule(rule) {
      SymbolRuleCollected(w, rule, added, es, violations, u);
    } else if IsFanRule(rule) {
      FanVerdict(w, rule, added, es, violations, u);
    }
  }

  /** One rule judged: the verdict is the one the evidence calls for, a violated
      rule carries the violations found and an inconclusive one the doubt, and
      neither is carried otherwise. */
  ghost predicate IsOutcome(w: World, es: seq<Edge>, added: Option<set<SymbolId>>, rule: Rule, o: RuleOutcome) {
    && o.rule == rule.name && o.severity == rule.severity
    && o.verdict == VerdictOf(w, rule.kind, added, es)
    && (o.violations != [] <==> o.verdict == Violated)
    && (o.uncertainty.Some? <==> o.verdict == Inconclusive)
    && (o.verdict != Skipped ==> exists u ::
          Collected(w, rule.kind, added, es, o.violations, u) && (o.uncertainty.Some? ==> o.uncertainty.value == u))
  }

  method EvaluateOne(w: World, es: seq<Edge>, added: Option<set<SymbolId>>, rule: Rule) returns (outcome: RuleOutcome)
    requires WellKeyed(w)
    ensures IsOutcome(w, es, added, rule, outcome)
  {
    outcome := RuleOutcome(rule.name, rule.severity, Satisfied, [], None);
    if rule.kind.RequiresTest? && rule.kind.newOnly && added.None? {
      return outcome.(verdict := Skipped);
    }
    var violations, u := Collect(w, es, added, rule.kind);
    CollectedDecides(w, rule.kind, added, es, violations, u);
    hide Collected, Breached, Doubted;
    if violations != [] {
      outcome := outcome.(verdict := Violated, violations := violations);
    } else if u.unresolvedEdges > 0 {
      outcome := outcome.(verdict := Inconclusive, uncertainty := Some(u));
    }
    assert Collected(w, rule.kind, added, es, outcome.violations, u);
  }

  /** Every rule judged, in the order they were written. */
  method Evaluate(w: World, es: seq<Edge>, added: Option<set<SymbolId>>, rules: seq<Rule>)
    returns (outcomes: seq<RuleOutcome>)
    requires WellKeyed(w)
    ensures |outcomes| == |rules|
    ensures forall i :: 0 <= i < |rules| ==> IsOutcome(w, es, added, rules[i], outcomes[i])
  {
    hide *;
    outcomes := [];
    for i := 0 to |rules|
      invariant |outcomes| == i
      invariant forall j :: 0 <= j < i ==> IsOutcome(w, es, added, rules[j], outcomes[j])
    {
      var outcome := EvaluateOne(w, es, added, rules[i]);
      outcomes := outcomes + [outcome];
    }
  }

  /** A gate fails on a violation at error severity and on nothing else. */
  predicate ShouldFail(outcomes: seq<RuleOutcome>) {
    exists o :: o in outcomes && o.verdict.Violated? && o.severity.Error?
  }

  /** A gate run on weak evidence that fails, fails on every graph the evidence
      could be of, and one whose every pass stands passes on all of them. */
  method Gate(w: World, es: seq<Edge>, added: Option<set<SymbolId>>, rules: seq<Rule>) returns (fails: bool)
    requires WellKeyed(w)
    ensures fails <==> GateFails(w, rules, added, es)
    ensures fails ==> forall cs :: Completes(es, cs) ==> GateFails(w, rules, added, cs)
    ensures (forall r :: r in rules ==> PassStands(w, r.kind, added, es)) ==>
      !fails && forall cs :: Completes(es, cs) ==> !GateFails(w, rules, added, cs)
  {
    var outcomes := Evaluate(w, es, added, rules);
    fails := ShouldFail(outcomes);
    hide VerdictOf, Collected, Completes, HasRoom;
    if fails {
      var o :| o in outcomes && o.verdict.Violated? && o.severity.Error?;
      var i :| 0 <= i < |outcomes| && outcomes[i] == o;
      assert rules[i] in rules;
    }
    if GateFails(w, rules, added, es) {
      var r :| r in rules && r.severity.Error? && VerdictOf(w, r.kind, added, es) == Violated;
      var i :| 0 <= i < |rules| && rules[i] == r;
      assert outcomes[i] in outcomes;
    }
    forall cs | Completes(es, cs)
      ensures GateFails(w, rules, added, es) ==> GateFails(w, rules, added, cs)
      ensures (forall r :: r in rules ==> PassStands(w, r.kind, added, es)) ==> !GateFails(w, rules, added, cs)
    {
      GateIsStable(w, rules, added, es, cs);
    }
    if forall r :: r in rules ==> PassStands(w, r.kind, added, es) {
      forall r | r in rules ensures VerdictOf(w, r.kind, added, es) == Satisfied {
        assert PassStands(w, r.kind, added, es);
      }
    }
  }
}
