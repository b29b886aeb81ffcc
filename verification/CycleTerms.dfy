/** What `no-cycles` reports, told by paths and directories (rule_eval.rs, `cycle_node`
    and `no_cycles`). */
module CycleTerms {
  import opened Wrappers
  import opened Ir
  import opened Ordering
  import opened Reachability
  import opened RuleModel
  import opened Cycles
  import opened RuleEval
  import opened RuleTerms

  /** A file stands for itself, or for the directory it is in; `.` is the one of a path
      without any. */
  ghost predicate NodeIs(level: CycleLevel, path: string, node: string) {
    if level == FileLevel then node == path
    else if '/' in path then exists base: string :: '/' !in base && path == node + "/" + base
    else node == "."
  }

  lemma CycleNodeTells(path: string, level: CycleLevel, node: string)
    ensures CycleNode(path, level) == node <==> NodeIs(level, path, node)
  {
    var cut := LastSlash(path);
    hide LastSlash;
    if level == ModuleLevel && cut.Some? {
      var base := path[cut.value + 1..];
      assert path == path[..cut.value] + "/" + base;
      if other: string :| '/' !in other && path == node + "/" + other { SplitOnce(path, path[..cut.value], base, node, other); }
    }
  }

  lemma LastSlashIs(path: string, a: string, base: string)
    requires path == a + "/" + base && '/' !in base
    ensures path[|a|] == '/' && forall k :: |a| < k < |path| ==> path[k] != '/'
  {
    forall k | |a| < k < |path| ensures path[k] != '/' { assert path[k] == base[k - |a| - 1]; }
  }

  /** A path splits before its last slash in one way. */
  lemma SplitOnce(path: string, a: string, base: string, b: string, other: string)
    requires path == a + "/" + base && path == b + "/" + other && '/' !in base && '/' !in other
    ensures a == b
  {
    LastSlashIs(path, a, base);
    LastSlashIs(path, b, other);
    assert a == path[..|a|] && b == path[..|b|];
  }

  ghost predicate NodeOfId(w: World, scope: string, level: CycleLevel, id: SymbolId, node: string) {
    exists path :: PathIs(w, id, path) && w.glob(scope, path) && NodeIs(level, path, node)
  }

  /** A resolved dependency in scope from one node to another. */
  ghost predicate Depends(w: World, scope: string, level: CycleLevel, es: seq<Edge>, a: string, b: string) {
    && a != b
    && exists e :: e in es && e.gateSafe && e.isDependency
        && NodeOfId(w, scope, level, e.from, a) && NodeOfId(w, scope, level, e.to, b)
  }

  lemma NodeOfIdTells(w: World, scope: string, level: CycleLevel, id: SymbolId, node: string)
    ensures InScope(w, scope, id) && NodeOf(w, level, id) == node <==> NodeOfId(w, scope, level, id, node)
  {
    forall path ensures ScopePath(w, id) == Some(path) <==> PathIs(w, id, path) { PathTells(w, id, path); }
    forall path ensures CycleNode(path, level) == node <==> NodeIs(level, path, node) { CycleNodeTells(path, level, node); }
    hide ScopePath, PathIs, CycleNode, NodeIs;
  }

  lemma DependsTells(w: World, scope: string, level: CycleLevel, es: seq<Edge>, a: string, b: string)
    ensures (a, b) in DependsOn(w, scope, level, es) <==> Depends(w, scope, level, es, a, b)
  {
    forall e: Edge ensures InScope(w, scope, e.from) && NodeOf(w, level, e.from) == a <==> NodeOfId(w, scope, level, e.from, a) {
      NodeOfIdTells(w, scope, level, e.from, a);
    }
    forall e: Edge ensures InScope(w, scope, e.to) && NodeOf(w, level, e.to) == b <==> NodeOfId(w, scope, level, e.to, b) {
      NodeOfIdTells(w, scope, level, e.to, b);
    }
    hide InScope, NodeOf, NodeOfId;
  }

  /** On a cycle of two nodes or more, and the first of those on it. */
  ghost predicate FirstOnCycle(r: Relation<string>, a: string) {
    && (exists b :: b != a && Reaches(r, a, b) && Reaches(r, b, a))
    && forall b :: Reaches(r, a, b) && Reaches(r, b, a) ==> CharsLe(a, b)
  }

  lemma FirstOnCycleTells(r: Relation<string>, a: string)
    ensures NamesCycle(r, a) <==> FirstOnCycle(r, a)
  {
    forall b ensures TextLe(a, b) <==> CharsLe(a, b) { LastCompares(a, b); }
    hide TextLe, CharsLe, Reaches;
    if b :| b != a && Reaches(r, a, b) && Reaches(r, b, a) { assert Mutual(r, a, b); }
    forall b ensures Mutual(r, a, b) <==> Reaches(r, a, b) && Reaches(r, b, a) { }
  }

  /** `no-cycles` has one row for every cycle, at the first node on it. */
  lemma CyclesAreReported(
    w: World, scope: string, level: CycleLevel, added: Option<set<SymbolId>>, es: seq<Edge>,
    violations: seq<Violation>, u: Uncertainty, r: Relation<string>)
    requires Collected(w, NoCycles(scope, level), added, es, violations, u)
    requires forall a, b :: (a, b) in r <==> Depends(w, scope, level, es, a, b)
    ensures forall v :: v in violations <==> v.file == v.symbol && v.line == 0 && FirstOnCycle(r, v.symbol)
    ensures InRowOrder(violations) && forall i, j :: 0 <= i < j < |violations| ==> violations[i] != violations[j]
  {
    forall a, b ensures (a, b) in DependsOn(w, scope, level, es) <==> Depends(w, scope, level, es, a, b) {
      DependsTells(w, scope, level, es, a, b);
    }
    hide Depends;
    assert r == DependsOn(w, scope, level, es) by {
      forall p ensures p in r <==> p in DependsOn(w, scope, level, es) { assert p == (p.0, p.1); }
    }
    hide DependsOn, NamesCycle, FirstOnCycle;
    forall a ensures NamesCycle(r, a) <==> FirstOnCycle(r, a) { FirstOnCycleTells(r, a); }
    SortedInRowOrder(violations);
    hide InRowOrder, IsWalkFrom, HasCycle, Doubt;
  }

  /** There is one such relation. */
  lemma DependsOnIsIt(w: World, scope: string, level: CycleLevel, es: seq<Edge>)
    ensures forall a, b :: (a, b) in DependsOn(w, scope, level, es) <==> Depends(w, scope, level, es, a, b)
  {
    forall a, b ensures (a, b) in DependsOn(w, scope, level, es) <==> Depends(w, scope, level, es, a, b) {
      DependsTells(w, scope, level, es, a, b);
    }
  }
}
