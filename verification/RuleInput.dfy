/** What rule evaluation reads of a graph (rule_eval.rs, `edges` and `scope_path`), and
    what follows for package nodes and per-file module symbols, which do not answer
    to rules by the names their documentation gives them. */
module RuleInput {
  import opened Wrappers
  import opened Ir
  import opened Ordering
  import opened GraphModel
  import opened Removal
  import opened Graph
  import opened RuleModel
  import RuleOrder

  predicate IsDependency(kind: RelationshipKind) { kind.Imports? || kind.ReExports? }

  /** One edge, flattened out of the graph. */
  function EdgeOf(e: NamedEdge): Edge {
    var m := e.meta;
    Edge(e.from, e.to, m.file, m.line, KindName(m.kind), IsDependency(m.kind), m.resolution.GateSafe())
  }

  function EdgesOf(es: seq<NamedEdge>): (fs: seq<Edge>)
    ensures |fs| == |es| && forall i :: 0 <= i < |es| ==> fs[i] == EdgeOf(es[i])
  {
    if |es| == 0 then [] else EdgesOf(es[..|es| - 1]) + [EdgeOf(es[|es| - 1])]
  }

  function Flag(b: bool): nat { if b then 1 else 0 }

  function EdgeKey(e: Edge): SortKey {
    [Text(e.from), Text(e.to), Text(e.file), Num(e.line), Text(e.kindName), Num(Flag(e.isDependency)), Num(Flag(e.gateSafe))]
  }

  /** The rows rules are evaluated on. */
  function Edges(g: GraphView): seq<Edge>
    requires LinksLand(g)
  {
    SortBy(EdgeKey, EdgesOf(Names(g.nodes, g.links)))
  }

  function WorldOf(glob: (string, string) -> bool, g: GraphView): World { World(glob, g.symbols) }

  lemma EdgesTell(g: GraphView, e: Edge)
    requires LinksLand(g)
    ensures e in Edges(g) <==> exists i :: 0 <= i < |g.links| && e == EdgeOf(NameLink(g.nodes, g.links[i]))
  {
    var names := Names(g.nodes, g.links);
    var flat := EdgesOf(names);
    SortKeeps(EdgeKey, flat);
    hide Names, EdgesOf, SortBy, EdgeOf;
    if e in flat {
      var i :| 0 <= i < |flat| && flat[i] == e;
      assert e == EdgeOf(NameLink(g.nodes, g.links[i]));
    }
    if i :| 0 <= i < |g.links| && e == EdgeOf(NameLink(g.nodes, g.links[i])) {
      assert flat[i] == e;
    }
  }

  lemma EdgeKeyTells(x: Edge, y: Edge)
    requires EdgeKey(x) == EdgeKey(y)
    ensures x == y
  {
    var k, l := EdgeKey(x), EdgeKey(y);
    assert k[0] == l[0] && k[1] == l[1] && k[2] == l[2] && k[3] == l[3] && k[4] == l[4] && k[5] == l[5] && k[6] == l[6];
  }

  /** The same edges are read in the same order, however they came into the graph. */
  lemma EdgesIgnoreInsertion(g: GraphView, h: GraphView)
    requires LinksLand(g) && LinksLand(h)
    requires multiset(EdgesOf(Names(g.nodes, g.links))) == multiset(EdgesOf(Names(h.nodes, h.links)))
    ensures Edges(g) == Edges(h)
  {
    var xs, ys := EdgesOf(Names(g.nodes, g.links)), EdgesOf(Names(h.nodes, h.links));
    Sorts(EdgeKey, xs);
    Sorts(EdgeKey, ys);
    forall x, y | EdgeKey(x) == EdgeKey(y) ensures x == y { EdgeKeyTells(x, y); }
    hide EdgeKey, EdgesOf, SortBy;
    RuleOrder.SortedPermutation(EdgeKey, SortBy(EdgeKey, xs), SortBy(EdgeKey, ys));
  }

  // ── graphs that additions build ─────────────────────────────

  predicate IsPackageLike(id: SymbolId) { "ext::" <= id }

  /** Only additions, and no symbol added as a package with a file of its own:
      parsers report no packages, and a stored package node has none. */
  ghost predicate OnlyAdds(ops: seq<Op>) {
    forall op :: op in ops ==>
      && (op.AddSymbolOp? || op.AddRelationshipOp?)
      && (op.AddSymbolOp? && IsPackageLike(op.symbol.id) ==> op.symbol.file == "")
  }

  /** The graph after some run of additions. */
  ghost predicate Built(g: GraphView) {
    exists ops, states :: IsRun(ops, states) && OnlyAdds(ops) && g == states[|ops|]
  }

  ghost predicate PackagesHaveNoFile(g: GraphView) {
    forall id :: id in g.symbols && IsPackageLike(id) ==> g.symbols[id].file == ""
  }

  lemma AddedSymbols(g: GraphView, s: Symbol)
    ensures WithSymbol(g, s).symbols == g.symbols[s.id := s]
  {
  }

  lemma AddedByRelationship(g: GraphView, r: Relationship)
    ensures WithRelationship(g, r).symbols == g.symbols
      || (IsPackageLike(r.to) && WithRelationship(g, r).symbols == g.symbols[r.to := PackageSymbol(r.to)])
  {
    AddedSymbols(g, PackageSymbol(r.to));
    hide WithSymbol;
  }

  lemma {:induction false} PackagesStayWithoutFile(ops: seq<Op>, states: seq<GraphView>, k: nat)
    requires IsRun(ops, states) && OnlyAdds(ops) && k < |states|
    ensures PackagesHaveNoFile(states[k])
  {
    if k > 0 {
      PackagesStayWithoutFile(ops, states, k - 1);
      var g, op := states[k - 1], ops[k - 1];
      assert op in ops && Steps(states[k - 1], ops[k - 1], states[k - 1 + 1]);
      hide WithSymbol, WithRelationship, IsPackageLike, FileRemoved, FileEdgesRemoved;
      if op.AddSymbolOp? { AddedSymbols(g, op.symbol); } else { AddedByRelationship(g, op.relationship); }
    }
  }

  lemma BuiltIsWellFormed(g: GraphView)
    requires Built(g)
    ensures WellFormed(g) && PackagesHaveNoFile(g)
  {
    var ops, states :| IsRun(ops, states) && OnlyAdds(ops) && g == states[|ops|];
    AddingRunsAreExact(ops, states, |ops|);
    PackagesStayWithoutFile(ops, states, |ops|);
    hide *;
  }

  /** Every edge of such a graph joins stored symbols, so a rule reads the files of
      both and never a name out of an id. */
  lemma EndsAreStored(g: GraphView, e: Edge)
    requires WellFormed(g) && e in Edges(g)
    ensures e.from in g.symbols && e.to in g.symbols
    ensures forall glob :: ScopePath(WorldOf(glob, g), e.from) == Some(g.symbols[e.from].file)
    ensures forall glob :: ScopePath(WorldOf(glob, g), e.to) == Some(g.symbols[e.to].file)
  {
    EdgesTell(g, e);
    var i :| 0 <= i < |g.links| && e == EdgeOf(NameLink(g.nodes, g.links[i]));
    assert g.links[i] in g.links;
    hide Edges, InOrderEach, Lists;
  }

  // ── packages ────────────────────────────────────────────────

  /** A package answers a scope pattern by its name exactly while no node stands for
      it, unless the name is empty: a stored one answers with the empty path. */
  lemma PackageAnswersByNameExactly(glob: (string, string) -> bool, g: GraphView, id: SymbolId)
    requires Built(g) && IsExternalPackage(id)
    ensures ScopePath(WorldOf(glob, g), id) == ParseExternalPackage(id)
      <==> id !in g.symbols || ParseExternalPackage(id) == Some("")
    ensures id in g.symbols ==> ScopePath(WorldOf(glob, g), id) == Some("")
  {
    BuiltIsWellFormed(g);
    hide WellFormed, Built;
  }

  lemma PackageIdParses(package: string)
    ensures IsExternalPackage(ExternalPackageId(package)) && ParseExternalPackage(ExternalPackageId(package)) == Some(package)
  {
    var id := ExternalPackageId(package);
    assert id[5..] == package + "::package";
    assert id[|id| - 9..] == "::package";
    assert id[5..][|package|..] == "::package";
    assert (package + "::package")[..|package|] == package;
  }

  function ImportOf(package: string): Relationship {
    Relationship("a", ExternalPackageId(package), Imports, None, [], "", "f", 1, Resolved)
  }

  /** One symbol in file `f`, and a resolved import of the package. */
  function Importer(package: string): GraphView {
    WithRelationship(WithSymbol(EMPTY, Sample("a")), ImportOf(package))
  }

  function ImportEdge(package: string): Edge { Edge("a", ExternalPackageId(package), "f", 1, "imports", true, true) }

  lemma ImporterIsBuilt(package: string)
    ensures Built(Importer(package))
  {
    var ops := [AddSymbolOp(Sample("a")), AddRelationshipOp(ImportOf(package))];
    var states := [EMPTY, WithSymbol(EMPTY, Sample("a")), Importer(package)];
    hide WithSymbol, WithRelationship;
    assert Steps(states[0], ops[0], states[1]) && Steps(states[1], ops[1], states[2]);
    assert IsRun(ops, states) && OnlyAdds(ops);
  }

  lemma ImporterHolds(package: string)
    ensures var g := Importer(package);
      && g.nodes == ["a", ExternalPackageId(package)]
      && g.links == [Link(0, 1, MetaOf(ImportOf(package)))]
      && g.symbols == map["a" := Sample("a"), ExternalPackageId(package) := PackageSymbol(ExternalPackageId(package))]
  {
    var id := ExternalPackageId(package);
    assert PackageSymbol(id).id == id;
    hide Indexed, PackageSymbol;
    assert id[0] == 'e' && "ext::" <= id;
    var g := WithSymbol(EMPTY, Sample("a"));
    assert g.nodes == ["a"] && g.nodeIndex == map["a" := 0] && g.links == [];
    assert id !in g.nodeIndex;
    var h := WithSymbol(g, PackageSymbol(id));
    assert h.nodes == ["a", id] && h.nodeIndex == map["a" := 0, id := 1];
  }

  lemma ImporterEdges(package: string)
    ensures LinksLand(Importer(package)) && Edges(Importer(package)) == [ImportEdge(package)]
  {
    ImporterHolds(package);
    var g := Importer(package);
    hide Importer, ExternalPackageId;
    var names := Names(g.nodes, g.links);
    assert names == [NameLink(g.nodes, g.links[0])];
    assert EdgesOf(names) == [EdgeOf(names[0])];
    assert EdgeOf(names[0]) == ImportEdge(package);
    SortIdempotent(EdgeKey, [ImportEdge(package)]);
  }

  /** A pattern reaches a package by its name, in every graph that additions build,
      exactly when it accepts both the name and the empty path, or neither. */
  lemma PackageScopeExactly(glob: (string, string) -> bool, pattern: string, package: string)
    ensures (forall g, e :: Built(g) && LinksLand(g) && e in Edges(g) && e.to == ExternalPackageId(package) ==>
        (InScope(WorldOf(glob, g), pattern, e.to) <==> glob(pattern, package)))
      <==> (glob(pattern, "") <==> glob(pattern, package))
  {
    var id := ExternalPackageId(package);
    PackageIdParses(package);
    hide Built, Edges, LinksLand, ExternalPackageId, Importer, WellFormed;
    forall g, e | Built(g) && LinksLand(g) && e in Edges(g) && e.to == id
      ensures InScope(WorldOf(glob, g), pattern, e.to) <==> glob(pattern, "")
    {
      BuiltIsWellFormed(g);
      EndsAreStored(g, e);
    }
    ImporterIsBuilt(package);
    ImporterEdges(package);
    assert ImportEdge(package) in Edges(Importer(package));
  }

  /** What a rule against a dependency says of one resolved import of a package: it
      is the empty path that the target pattern is asked about. A pattern that
      accepts the package by name and not the empty path lets the import pass. */
  lemma PackageRuleVerdict(glob: (string, string) -> bool, from: string, to: string, package: string)
    ensures LinksLand(Importer(package))
    ensures VerdictOf(WorldOf(glob, Importer(package)), ForbidDependency(from, to), None, Edges(Importer(package)))
      == if glob(from, "f") && glob(to, "") then Violated else Satisfied
  {
    ImporterEdges(package);
    ImporterHolds(package);
    var w, rule, e := WorldOf(glob, Importer(package)), ForbidDependency(from, to), ImportEdge(package);
    assert |e.to| > 1;
    hide Importer, Edges, ExternalPackageId;
    assert e in [e];
    assert Breach(w, rule, e) <==> glob(from, "f") && glob(to, "");
    assert !Doubtful(w, rule, e);
  }

  // ── per-file module symbols ─────────────────────────────────

  /** The symbol every file gets, to stand for the file itself. */
  function ModuleSymbol(file: string, language: Language): Symbol {
    Symbol(file + "::module::module", "module", Module, language, file, 1, 1, None)
  }

  /** A file with nothing in it. */
  function LoneModule(file: string, language: Language): GraphView { WithSymbol(EMPTY, ModuleSymbol(file, language)) }

  /** A demand made of whatever is in the file. */
  predicate AsksOf(glob: (string, string) -> bool, rule: RuleKind, file: string) {
    match rule
    case RequiresDependency(from, _) => glob(from, file)
    case NoOrphans(scope, roots) => roots == [] && glob(scope, file)
    case RequiresTest(symbols, only, newOnly) => only.None? && !newOnly && glob(symbols, file)
    case _ => false
  }

  /** The exemption of per-file module symbols compares the symbol's name with its
      file, and the name is always `module`. A file with nothing in it is reported,
      by each of the rules that make demands of symbols, unless it is itself named
      so. */
  lemma LoneModuleIsReportedExactly(glob: (string, string) -> bool, rule: RuleKind, file: string, language: Language)
    requires AsksOf(glob, rule, file)
    ensures LinksLand(LoneModule(file, language))
    ensures VerdictOf(WorldOf(glob, LoneModule(file, language)), rule, None, Edges(LoneModule(file, language)))
      == if file == "module" then Satisfied else Violated
  {
    var g, s := LoneModule(file, language), ModuleSymbol(file, language);
    assert g.links == [] && g.symbols == map[s.id := s] && Edges(g) == [];
    var w := WorldOf(glob, g);
    hide LoneModule, Edges;
    assert Synthetic(s) <==> file == "module";
    assert Demanded(w, rule, None, s.id) <==> file != "module";
    assert Unmet(w, rule, None, [], s.id) <==> file != "module";
    forall id | id != s.id ensures !Unmet(w, rule, None, [], id) { }
  }

  /** In any graph at all, a stored module symbol of a file that a demand asks of is
      exempt from it exactly when the file is itself named so. */
  lemma ModuleIsExemptExactly(w: World, rule: RuleKind, added: Option<set<SymbolId>>, file: string, language: Language)
    requires AsksOf(w.glob, rule, file)
    requires var s := ModuleSymbol(file, language); s.id in w.symbols && w.symbols[s.id] == s
    ensures Demanded(w, rule, added, ModuleSymbol(file, language).id) <==> file != "module"
    ensures file == "module" ==> forall es :: !Unmet(w, rule, added, es, ModuleSymbol(file, language).id)
  {
    var s := ModuleSymbol(file, language);
    assert Synthetic(s) <==> file == "module";
    hide Settles;
  }
}
