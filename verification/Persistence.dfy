/** Graphs to snapshots and back (sqlite.rs): every list is put in order before it is
    stored, so what a graph is stored as does not depend on how it was built. */
module Persistence {
  import opened Wrappers
  import opened Ir
  import opened Ordering
  import opened GraphModel
  import opened Petgraph
  import opened Removal
  import opened Graph
  import opened Codec

  function SymbolKey(s: Symbol): SortKey { TextKey(s.id) }
  function RelationshipKey(r: Relationship): SortKey { [Text(r.file), Num(r.line), Text(r.from), Text(r.to)] }
  function AliasKey(a: AliasEntry): SortKey { [Text(a.definedInFile), Text(a.aliasName)] }
  function ReExportKey(e: ReExportEntry): SortKey { [Text(e.exportedName), Text(e.sourceModule)] }
  function PairKey<V>(p: (string, V)): SortKey { TextKey(p.0) }

  function RelationshipOf(e: NamedEdge): Relationship {
    var m := e.meta;
    Relationship(e.from, e.to, m.kind, m.alias, m.properties, m.context, m.file, m.line, m.resolution)
  }

  /** The edges as relationships, in the order they are held. */
  function RelationshipsOf(es: seq<NamedEdge>): (rs: seq<Relationship>)
    ensures |rs| == |es| && forall i :: 0 <= i < |es| ==> rs[i] == RelationshipOf(es[i])
  {
    if |es| == 0 then [] else RelationshipsOf(es[..|es| - 1]) + [RelationshipOf(es[|es| - 1])]
  }

  // ── storing ─────────────────────────────────────────────────

  /** The entries of a map, each once, in key order. */
  ghost predicate ListsMap<V(!new)>(m: map<string, V>, xs: seq<(string, V)>) {
    && StrictlySortedBy(PairKey, xs)
    && forall k, v :: (k, v) in xs <==> k in m && m[k] == v
  }

  function SortedAliases(m: map<SymbolId, seq<AliasEntry>>): map<SymbolId, seq<AliasEntry>> {
    map k | k in m :: SortBy(AliasKey, m[k])
  }

  function SortedReExports(m: map<string, seq<ReExportEntry>>): map<string, seq<ReExportEntry>> {
    map k | k in m :: SortBy(ReExportKey, m[k])
  }

  ghost predicate ListsSymbols(symbols: map<SymbolId, Symbol>, xs: seq<Symbol>) {
    StrictlySortedBy(SymbolKey, xs) && forall s :: s in xs <==> s.id in symbols && symbols[s.id] == s
  }

  /** What a graph is stored as. */
  ghost predicate IsSnapshotOf(g: GraphView, s: GraphSnapshot) {
    && LinksLand(g)
    && ListsSymbols(g.symbols, s.symbols)
    && s.relationships == SortBy(RelationshipKey, RelationshipsOf(Names(g.nodes, g.links)))
    && ListsMap(SortedAliases(g.aliasChains), s.aliasChains)
    && ListsMap(SortedReExports(g.fileReexports), s.fileReexports)
    && ListsMap(g.side.assertions, s.assertions)
    && ListsMap(g.side.assertionsCounted, s.assertionsCounted)
    && ListsMap(g.side.unboundReferences, s.unboundReferences)
    && ListsMap(g.side.unboundOutside, s.unboundOutside)
  }

  method EntriesInOrder<V(==, !new)>(m: map<string, V>) returns (xs: seq<(string, V)>)
    ensures ListsMap(m, xs)
  {
    var items := set k | k in m :: (k, m[k]);
    forall x, y | x in items && y in items && PairKey(x) == PairKey(y) ensures x == y {
      assert PairKey(x)[0] == PairKey(y)[0];
    }
    xs := InOrder(PairKey, items);
  }

  method SymbolsInOrder(symbols: map<SymbolId, Symbol>) returns (xs: seq<Symbol>)
    requires forall id :: id in symbols ==> symbols[id].id == id
    ensures ListsSymbols(symbols, xs)
  {
    var items := set id | id in symbols :: symbols[id];
    forall x, y | x in items && y in items && SymbolKey(x) == SymbolKey(y) ensures x == y {
      assert SymbolKey(x)[0] == SymbolKey(y)[0];
    }
    xs := InOrder(SymbolKey, items);
  }

  method FromGraph(g: GraphView) returns (s: GraphSnapshot)
    requires LinksLand(g) && forall id :: id in g.symbols ==> g.symbols[id].id == id
    ensures IsSnapshotOf(g, s)
  {
    hide ListsSymbols, ListsMap, Lands, SortBy, Names, RelationshipsOf;
    var symbols := SymbolsInOrder(g.symbols);
    var relationships := SortBy(RelationshipKey, RelationshipsOf(Names(g.nodes, g.links)));
    var aliasChains := EntriesInOrder(SortedAliases(g.aliasChains));
    var fileReexports := EntriesInOrder(SortedReExports(g.fileReexports));
    var assertions := EntriesInOrder(g.side.assertions);
    var assertionsCounted := EntriesInOrder(g.side.assertionsCounted);
    var unboundReferences := EntriesInOrder(g.side.unboundReferences);
    var unboundOutside := EntriesInOrder(g.side.unboundOutside);
    s := GraphSnapshot(
      symbols, relationships, aliasChains, fileReexports,
      assertions, assertionsCounted, unboundReferences, unboundOutside);
  }

  lemma ListedMapIsUnique<V(!new)>(m: map<string, V>, xs: seq<(string, V)>, ys: seq<(string, V)>)
    requires ListsMap(m, xs) && ListsMap(m, ys)
    ensures xs == ys
  {
    forall p ensures p in xs <==> p in ys { assert p == (p.0, p.1); }
    StrictOrderIsUnique(PairKey, xs, ys);
  }

  /** One graph has one snapshot, whatever order its maps are walked in. */
  lemma SnapshotIsDetermined(g: GraphView, s: GraphSnapshot, t: GraphSnapshot)
    requires IsSnapshotOf(g, s) && IsSnapshotOf(g, t)
    ensures s == t
  {
    StrictOrderIsUnique(SymbolKey, s.symbols, t.symbols);
    hide ListsMap, ListsSymbols, Names, SortBy;
    ListedMapIsUnique(SortedAliases(g.aliasChains), s.aliasChains, t.aliasChains);
    ListedMapIsUnique(SortedReExports(g.fileReexports), s.fileReexports, t.fileReexports);
    ListedMapIsUnique(g.side.assertions, s.assertions, t.assertions);
    ListedMapIsUnique(g.side.assertionsCounted, s.assertionsCounted, t.assertionsCounted);
    ListedMapIsUnique(g.side.unboundReferences, s.unboundReferences, t.unboundReferences);
    ListedMapIsUnique(g.side.unboundOutside, s.unboundOutside, t.unboundOutside);
  }

  // ── restoring ───────────────────────────────────────────────

  function WithSymbols(g: GraphView, xs: seq<Symbol>): GraphView {
    if |xs| == 0 then g else WithSymbol(WithSymbols(g, xs[..|xs| - 1]), xs[|xs| - 1])
  }

  function WithRelationships(g: GraphView, rs: seq<Relationship>): GraphView {
    if |rs| == 0 then g else WithRelationship(WithRelationships(g, rs[..|rs| - 1]), rs[|rs| - 1])
  }

  /** A later entry for a key replaces an earlier one. */
  function Filled<V>(xs: seq<(string, V)>): map<string, V> {
    if |xs| == 0 then map[] else Filled(xs[..|xs| - 1])[xs[|xs| - 1].0 := xs[|xs| - 1].1]
  }

  function Restored(s: GraphSnapshot): GraphView {
    WithRelationships(WithSymbols(EMPTY, s.symbols), s.relationships).(
      aliasChains := Filled(s.aliasChains), fileReexports := Filled(s.fileReexports),
      side := SideTables(
        Filled(s.assertions), Filled(s.assertionsCounted),
        Filled(s.unboundReferences), Filled(s.unboundOutside)))
  }

  method Fill<V>(xs: seq<(string, V)>) returns (m: map<string, V>)
    ensures m == Filled(xs)
  {
    m := map[];
    for i := 0 to |xs|
      invariant m == Filled(xs[..i])
    {
      assert xs[..i + 1][..i] == xs[..i];
      m := m[xs[i].0 := xs[i].1];
    }
    assert xs[..|xs|] == xs;
  }

  method AddAll(graph: InvarGraph, s: GraphSnapshot)
    modifies graph
    ensures graph.View() == WithRelationships(WithSymbols(old(graph.View()), s.symbols), s.relationships)
  {
    hide WithSymbol, WithRelationship;
    ghost var g := graph.View();
    for i := 0 to |s.symbols|
      invariant graph.View() == WithSymbols(g, s.symbols[..i])
    {
      assert s.symbols[..i + 1][..i] == s.symbols[..i];
      graph.AddSymbol(s.symbols[i]);
    }
    assert s.symbols[..|s.symbols|] == s.symbols;
    ghost var h := graph.View();
    for i := 0 to |s.relationships|
      invariant graph.View() == WithRelationships(h, s.relationships[..i])
    {
      assert s.relationships[..i + 1][..i] == s.relationships[..i];
      graph.AddRelationship(s.relationships[i]);
    }
    assert s.relationships[..|s.relationships|] == s.relationships;
  }

  method IntoGraph(s: GraphSnapshot) returns (graph: InvarGraph)
    ensures fresh(graph) && graph.View() == Restored(s)
  {
    hide WithSymbols, WithRelationships, Filled, EMPTY;
    graph := new InvarGraph();
    AddAll(graph, s);
    FillSideTables(graph, s);
  }

  method PutSideTables(
    graph: InvarGraph, aliasChains: map<SymbolId, seq<AliasEntry>>, fileReexports: map<string, seq<ReExportEntry>>,
    side: SideTables)
    modifies graph
    ensures graph.View() == old(graph.View()).(aliasChains := aliasChains, fileReexports := fileReexports, side := side)
  {
    graph.aliasChains, graph.fileReexports := aliasChains, fileReexports;
    graph.assertions, graph.assertionsCounted := side.assertions, side.assertionsCounted;
    graph.unboundReferences, graph.unboundOutside := side.unboundReferences, side.unboundOutside;
  }

  /** Everything that is not a symbol or an edge is put back as it was stored. */
  method FillSideTables(graph: InvarGraph, s: GraphSnapshot)
    modifies graph
    ensures graph.View() == old(graph.View()).(
      aliasChains := Filled(s.aliasChains), fileReexports := Filled(s.fileReexports),
      side := SideTables(
        Filled(s.assertions), Filled(s.assertionsCounted),
        Filled(s.unboundReferences), Filled(s.unboundOutside)))
  {
    hide *;
    var aliasChains := Fill(s.aliasChains);
    var fileReexports := Fill(s.fileReexports);
    var assertions := Fill(s.assertions);
    var unboundReferences := Fill(s.unboundReferences);
    var unboundOutside := Fill(s.unboundOutside);
    var assertionsCounted := Fill(s.assertionsCounted);
    PutSideTables(graph, aliasChains, fileReexports, SideTables(assertions, assertionsCounted, unboundReferences, unboundOutside));
  }

  // ── back again ──────────────────────────────────────────────

  predicate Maps<V(==)>(m: map<string, V>, k: string, v: V) { k in m && m[k] == v }

  /** A list with distinct keys fills a map with exactly its entries. */
  lemma {:induction false} FilledTells<V(!new)>(xs: seq<(string, V)>, k: string, v: V)
    requires forall i, j :: 0 <= i < j < |xs| ==> xs[i].0 != xs[j].0
    ensures Maps(Filled(xs), k, v) <==> (k, v) in xs
  {
    if |xs| > 0 {
      var n := |xs| - 1;
      assert xs == xs[..n] + [xs[n]];
      FilledTells(xs[..n], k, v);
      if k == xs[n].0 {
        forall p | p in xs[..n] ensures p.0 != k {
          var i :| 0 <= i < n && xs[i] == p;
        }
      } else {
        assert (k, v) != xs[n];
      }
    }
  }

  lemma FillsBack<V(!new)>(m: map<string, V>, xs: seq<(string, V)>)
    requires ListsMap(m, xs)
    ensures Filled(xs) == m
  {
    forall i, j | 0 <= i < j < |xs| ensures xs[i].0 != xs[j].0 {
      assert Less(PairKey(xs[i]), PairKey(xs[j]));
    }
    forall k, v ensures Maps(Filled(xs), k, v) <==> Maps(m, k, v) {
      FilledTells(xs, k, v);
    }
    hide Filled, ListsMap;
    SameEntries(Filled(xs), m);
  }

  lemma SameEntries<V(!new)>(a: map<string, V>, b: map<string, V>)
    requires forall k, v :: Maps(a, k, v) <==> Maps(b, k, v)
    ensures a == b
  {
    forall k ensures k in a <==> k in b {
      if k in a { assert Maps(a, k, a[k]); }
      if k in b { assert Maps(b, k, b[k]); }
    }
    forall k | k in a ensures a[k] == b[k] { assert Maps(a, k, a[k]); }
  }

  lemma AliasesStaySorted(m: map<SymbolId, seq<AliasEntry>>)
    ensures SortedAliases(SortedAliases(m)) == SortedAliases(m)
  {
    forall k | k in m ensures SortBy(AliasKey, SortBy(AliasKey, m[k])) == SortBy(AliasKey, m[k]) {
      Sorts(AliasKey, m[k]);
      SortIdempotent(AliasKey, SortBy(AliasKey, m[k]));
    }
  }

  lemma ReExportsStaySorted(m: map<string, seq<ReExportEntry>>)
    ensures SortedReExports(SortedReExports(m)) == SortedReExports(m)
  {
    forall k | k in m ensures SortBy(ReExportKey, SortBy(ReExportKey, m[k])) == SortBy(ReExportKey, m[k]) {
      Sorts(ReExportKey, m[k]);
      SortIdempotent(ReExportKey, SortBy(ReExportKey, m[k]));
    }
  }

  ghost predicate DifferentIds(xs: seq<Symbol>) { forall i, j :: 0 <= i < j < |xs| ==> xs[i].id != xs[j].id }

  /** The table of these symbols and no others. */
  ghost predicate IsTableOf(symbols: map<SymbolId, Symbol>, xs: seq<Symbol>) {
    forall s :: s in xs <==> s.id in symbols && symbols[s.id] == s
  }

  lemma OneMoreSymbol(symbols: map<SymbolId, Symbol>, xs: seq<Symbol>, s: Symbol)
    requires IsTableOf(symbols, xs) && forall x :: x in xs ==> x.id != s.id
    ensures IsTableOf(symbols[s.id := s], xs + [s])
  {
  }

  /** Adding symbols to an empty graph gives the table of them, and no edges. */
  lemma {:induction false} SymbolsRestored(xs: seq<Symbol>)
    requires DifferentIds(xs)
    ensures var g := WithSymbols(EMPTY, xs); WellFormed(g) && g.links == [] && IsTableOf(g.symbols, xs)
  {
    hide WellFormed, WithSymbol, IsTableOf;
    if |xs| == 0 {
      EmptyIsWellFormed();
      EmptyTable();
    } else {
      var n := |xs| - 1;
      SymbolsRestored(xs[..n]);
      assert xs == xs[..n] + [xs[n]];
      var g := WithSymbols(EMPTY, xs[..n]);
      WithSymbolKeeps(g, xs[n]);
      forall s | s in xs[..n] ensures s.id != xs[n].id {
        var i :| 0 <= i < n && xs[i] == s;
      }
      OneMoreSymbol(g.symbols, xs[..n], xs[n]);
    }
  }

  lemma EmptyTable()
    ensures IsTableOf(map[], [])
  {
  }

  /** Both ends are symbols. */
  ghost predicate Anchored(rs: seq<Relationship>, symbols: map<SymbolId, Symbol>) {
    forall r :: r in rs ==> r.from in symbols && r.to in symbols
  }

  lemma OneEdgeRestored(g: GraphView, r: Relationship)
    requires WellFormed(g) && r.from in g.symbols && r.to in g.symbols
    ensures var h := WithRelationship(g, r);
      && WellFormed(h) && h.symbols == g.symbols
      && RelationshipsOf(Names(h.nodes, h.links)) == RelationshipsOf(Names(g.nodes, g.links)) + [r]
  {
    WithRelationshipKeeps(g, r);
    var link := Link(g.nodeIndex[r.from], g.nodeIndex[r.to], MetaOf(r));
    assert RelationshipOf(NameLink(g.nodes, link)) == r;
    assert (g.links + [link])[..|g.links|] == g.links;
    var h := WithRelationship(g, r);
    assert h.nodes == g.nodes && h.links == g.links + [link];
    assert Names(h.nodes, h.links) == Names(g.nodes, g.links) + [NameLink(g.nodes, link)];
    var es := Names(g.nodes, g.links);
    assert (es + [NameLink(g.nodes, link)])[..|es|] == es;
  }

  lemma {:induction false} EdgesRestored(g: GraphView, rs: seq<Relationship>)
    requires WellFormed(g) && g.links == [] && Anchored(rs, g.symbols)
    ensures var h := WithRelationships(g, rs);
      && WellFormed(h) && h.symbols == g.symbols && RelationshipsOf(Names(h.nodes, h.links)) == rs
  {
    hide WellFormed, WithRelationship, RelationshipsOf, Names;
    if |rs| == 0 {
      NoEdges(g);
    } else {
      var n := |rs| - 1;
      assert rs[n] in rs;
      EdgesRestored(g, rs[..n]);
      OneEdgeRestored(WithRelationships(g, rs[..n]), rs[n]);
      assert rs == rs[..n] + [rs[n]];
    }
  }

  lemma NoEdges(g: GraphView)
    requires WellFormed(g) && g.links == []
    ensures RelationshipsOf(Names(g.nodes, g.links)) == []
  {
  }

  lemma {:induction false} RestoredKeeps(g: GraphView, rs: seq<Relationship>)
    requires WellFormed(g)
    ensures WellFormed(WithRelationships(g, rs))
  {
    if |rs| > 0 {
      RestoredKeeps(g, rs[..|rs| - 1]);
      hide WellFormed, WithRelationship;
      WithRelationshipKeeps(WithRelationships(g, rs[..|rs| - 1]), rs[|rs| - 1]);
    }
  }

  lemma {:induction false} SymbolsKeep(xs: seq<Symbol>)
    ensures WellFormed(WithSymbols(EMPTY, xs))
  {
    hide WellFormed, WithSymbol;
    if |xs| == 0 {
      EmptyIsWellFormed();
    } else {
      SymbolsKeep(xs[..|xs| - 1]);
      WithSymbolKeeps(WithSymbols(EMPTY, xs[..|xs| - 1]), xs[|xs| - 1]);
    }
  }

  /** Any snapshot at all is restored to a well-formed graph. */
  lemma RestoredIsWellFormed(s: GraphSnapshot)
    ensures WellFormed(Restored(s))
  {
    SymbolsKeep(s.symbols);
    RestoredKeeps(WithSymbols(EMPTY, s.symbols), s.relationships);
    hide WithSymbols, WithRelationships, Filled, InOrderEach, Lists;
    var g, h := Core(s), Restored(s);
    assert WellFormed(g);
    assert h == g.(aliasChains := h.aliasChains, fileReexports := h.fileReexports, side := h.side);
  }

  lemma ListedDiffer(symbols: map<SymbolId, Symbol>, xs: seq<Symbol>)
    requires ListsSymbols(symbols, xs)
    ensures DifferentIds(xs)
  {
    forall i, j | 0 <= i < j < |xs| ensures xs[i].id != xs[j].id {
      assert Less(SymbolKey(xs[i]), SymbolKey(xs[j]));
    }
  }

  lemma SymbolsComeBack(symbols: map<SymbolId, Symbol>, xs: seq<Symbol>)
    requires ListsSymbols(symbols, xs) && forall id :: id in symbols ==> symbols[id].id == id
    ensures WithSymbols(EMPTY, xs).symbols == symbols
    ensures WellFormed(WithSymbols(EMPTY, xs)) && WithSymbols(EMPTY, xs).links == []
  {
    ListedDiffer(symbols, xs);
    SymbolsRestored(xs);
    hide WithSymbols, WithSymbol, StrictlySortedBy;
    var g := WithSymbols(EMPTY, xs);
    forall id ensures id in g.symbols <==> id in symbols {
      if id in g.symbols { assert g.symbols[id].id == id && g.symbols[id] in xs; }
      if id in symbols { assert symbols[id].id == id && symbols[id] in xs; }
    }
    forall id | id in g.symbols ensures g.symbols[id] == symbols[id] {
      assert g.symbols[id].id == id && g.symbols[id] in xs;
    }
  }

  /** The side tables of a restored graph are the stored ones, sorted. */
  lemma SideTablesComeBack(g: GraphView, s: GraphSnapshot)
    requires IsSnapshotOf(g, s)
    ensures Restored(s).aliasChains == SortedAliases(g.aliasChains)
    ensures Restored(s).fileReexports == SortedReExports(g.fileReexports)
    ensures Restored(s).side == g.side
  {
    hide ListsMap, ListsSymbols, Filled, SortedAliases, SortedReExports, Names, WithSymbols, WithRelationships;
    FillsBack(SortedAliases(g.aliasChains), s.aliasChains);
    FillsBack(SortedReExports(g.fileReexports), s.fileReexports);
    FillsBack(g.side.assertions, s.assertions);
    FillsBack(g.side.assertionsCounted, s.assertionsCounted);
    FillsBack(g.side.unboundReferences, s.unboundReferences);
    FillsBack(g.side.unboundOutside, s.unboundOutside);
  }

  function Core(s: GraphSnapshot): GraphView { WithRelationships(WithSymbols(EMPTY, s.symbols), s.relationships) }

  /** When every edge joins two stored symbols, the restored graph has the snapshot it
      was restored from, edge for edge and in the same order. */
  lemma AnchoredComesBack(g: GraphView, s: GraphSnapshot)
    requires forall id :: id in g.symbols ==> g.symbols[id].id == id
    requires IsSnapshotOf(g, s) && Anchored(s.relationships, g.symbols)
    ensures IsSnapshotOf(Restored(s), s)
  {
    hide WithSymbols, WithRelationships, Filled, ListsSymbols, ListsMap, Names, SortBy, SortedAliases, SortedReExports;
    SymbolsComeBack(g.symbols, s.symbols);
    EdgesRestored(WithSymbols(EMPTY, s.symbols), s.relationships);
    SideTablesComeBack(g, s);
    AliasesStaySorted(g.aliasChains);
    ReExportsStaySorted(g.fileReexports);
    var rs := RelationshipsOf(Names(g.nodes, g.links));
    Sorts(RelationshipKey, rs);
    SortIdempotent(RelationshipKey, s.relationships);
    RestoredIsWellFormed(s);
    hide WellFormed, RelationshipsOf, Lands;
    var h := Restored(s);
    assert h.nodes == Core(s).nodes && h.links == Core(s).links && h.symbols == Core(s).symbols;
    assert RelationshipsOf(Names(h.nodes, h.links)) == s.relationships;
  }

  /** Storing it again then gives the same snapshot. */
  lemma AnchoredPersists(g: GraphView, s: GraphSnapshot, t: GraphSnapshot)
    requires forall id :: id in g.symbols ==> g.symbols[id].id == id
    requires IsSnapshotOf(g, s) && Anchored(s.relationships, g.symbols)
    requires IsSnapshotOf(Restored(s), t)
    ensures s == t
  {
    AnchoredComesBack(g, s);
    SnapshotIsDetermined(Restored(s), s, t);
    hide *;
  }

  /** In a well-formed graph every edge joins two symbols. */
  lemma WellFormedIsAnchored(g: GraphView)
    requires WellFormed(g)
    ensures Anchored(RelationshipsOf(Names(g.nodes, g.links)), g.symbols)
  {
    var es := Names(g.nodes, g.links);
    forall r | r in RelationshipsOf(es) ensures r.from in g.symbols && r.to in g.symbols {
      var i :| 0 <= i < |es| && RelationshipsOf(es)[i] == r;
      assert g.links[i] in g.links;
      assert r.from == g.nodes[g.links[i].source] && r.to == g.nodes[g.links[i].target];
    }
  }

  lemma AnchoredSorted(rs: seq<Relationship>, symbols: map<SymbolId, Symbol>)
    ensures Anchored(SortBy(RelationshipKey, rs), symbols) <==> Anchored(rs, symbols)
  {
    SortKeeps(RelationshipKey, rs);
    hide SortBy;
    if Anchored(rs, symbols) {
      forall r | r in SortBy(RelationshipKey, rs) ensures r.from in symbols && r.to in symbols { assert r in rs; }
    }
    if Anchored(SortBy(RelationshipKey, rs), symbols) {
      forall r | r in rs ensures r.from in symbols && r.to in symbols { assert r in SortBy(RelationshipKey, rs); }
    }
  }

  /** A graph that additions can build has the snapshot it is restored from. */
  lemma AddedComesBack(g: GraphView, s: GraphSnapshot)
    requires WellFormed(g) && IsSnapshotOf(g, s)
    ensures IsSnapshotOf(Restored(s), s)
  {
    WellFormedIsAnchored(g);
    AnchoredSorted(RelationshipsOf(Names(g.nodes, g.links)), g.symbols);
    AnchoredComesBack(g, s);
    hide *;
  }

  /** Persistence is a fixed point for every graph that additions can build. */
  lemma PersistenceIsAFixedPoint(g: GraphView, s: GraphSnapshot, t: GraphSnapshot)
    requires WellFormed(g) && IsSnapshotOf(g, s)
    requires IsSnapshotOf(Restored(s), t)
    ensures s == t
  {
    WellFormedIsAnchored(g);
    AnchoredSorted(RelationshipsOf(Names(g.nodes, g.links)), g.symbols);
    AnchoredPersists(g, s, t);
    hide *;
  }

  lemma RestoredIsAnchored(s: GraphSnapshot, t: GraphSnapshot)
    requires DifferentIds(s.symbols)
    requires IsSnapshotOf(Restored(s), t)
    ensures Anchored(t.relationships, Restored(s).symbols)
  {
    SymbolsRestored(s.symbols);
    RestoredKeeps(WithSymbols(EMPTY, s.symbols), s.relationships);
    WellFormedIsAnchored(Core(s));
    hide WithSymbols, WithRelationships, WellFormed, Names, Filled, RelationshipsOf, SortBy, ListsMap, ListsSymbols;
    var h := Restored(s);
    assert h.nodes == Core(s).nodes && h.links == Core(s).links && h.symbols == Core(s).symbols;
    AnchoredSorted(RelationshipsOf(Names(h.nodes, h.links)), h.symbols);
  }

  lemma ListedTableIsUnique(a: map<SymbolId, Symbol>, b: map<SymbolId, Symbol>, xs: seq<Symbol>)
    requires ListsSymbols(a, xs) && ListsSymbols(b, xs)
    requires forall id :: id in a ==> a[id].id == id
    ensures forall id :: id in a ==> id in b
  {
    forall id | id in a ensures id in b { assert a[id] in xs; }
  }

  /** Of a graph that removals have been through, storing and restoring is lossless
      exactly when no edge is left at a node whose symbol is gone. */
  lemma PersistsExactly(g: GraphView, s: GraphSnapshot, t: GraphSnapshot)
    requires forall id :: id in g.symbols ==> g.symbols[id].id == id
    requires IsSnapshotOf(g, s)
    requires IsSnapshotOf(Restored(s), t)
    ensures s == t <==> Anchored(RelationshipsOf(Names(g.nodes, g.links)), g.symbols)
  {
    AnchoredSorted(RelationshipsOf(Names(g.nodes, g.links)), g.symbols);
    if Anchored(s.relationships, g.symbols) {
      AnchoredPersists(g, s, t);
    }
    if s == t {
      ListedDiffer(g.symbols, s.symbols);
      RestoredIsAnchored(s, t);
      SymbolsAreKeyed(s);
      ListedTableIsUnique(Restored(s).symbols, g.symbols, s.symbols);
    }
    hide LinksLand, Restored, Names, RelationshipsOf, SortBy, ListsMap, ListsSymbols;
  }

  // ── an edge that is not stored ──────────────────────────────

  /** Two symbols of one file, the second of which refers to itself. */
  const RECURSIVE: GraphView := SAMPLE.(links := [Link(1, 1, META)])

  const META := Meta(Calls, Resolved, None, [], "", "f", 2)

  lemma RecursiveIsSound()
    ensures WellFormed(RECURSIVE) && At(RECURSIVE.fileIndex, "f") == ["a", "b"]
    ensures RECURSIVE.nodeIndex == map["a" := 0, "b" := 1] && RECURSIVE.nodes == ["a", "b"]
  {
    SampleIds();
    assert IndexIsInverse(SAMPLE);
    assert SAMPLE.nodes[0] == "a" && SAMPLE.nodes[1] == "b";
    assert SAMPLE.nodes == ["a", "b"];
    hide InOrderEach, Lists;
    IndexesIgnoreLinks(SAMPLE, RECURSIVE);
  }

  lemma RecursiveIsState()
    ensures IsState(RECURSIVE)
  {
    SampleIsState();
    RecursiveIsSound();
    var r := Relationship("b", "b", Calls, None, [], "", "f", 2, Resolved);
    hide IsState, SAMPLE, WellFormed;
    NextIsState(SAMPLE, AddRelationshipOp(r), WithRelationship(SAMPLE, r));
    assert SAMPLE.links == [] by { SampleHasNoLinks(); }
    assert WithRelationship(SAMPLE, r) == RECURSIVE;
  }

  lemma SampleHasNoLinks()
    ensures SAMPLE.links == []
  {
  }

  const LOOP := NamedEdge("b", "b", META)

  lemma LoopIsHeld()
    ensures LinksLand(RECURSIVE) && Count(RECURSIVE.nodes, RECURSIVE.links, LOOP) > 0
  {
    RecursiveIsSound();
    assert RECURSIVE.links == [Link(1, 1, META)];
    hide WellFormed, RECURSIVE, Names;
    assert Names(RECURSIVE.nodes, RECURSIVE.links)[0] == LOOP;
    assert LOOP in Names(RECURSIVE.nodes, RECURSIVE.links);
  }

  lemma HalfOfRecursive()
    ensures RemovedFrom(RECURSIVE, "f") == {"a"}
  {
    RecursiveIsSound();
    hide RemovedFrom, WellFormed, RECURSIVE, InOrderEach;
    LastFileIsHalfRemoved(RECURSIVE, "f");
    assert ["a", "b"][..1] == ["a"];
    assert Members(["a"]) == {"a"};
  }

  lemma LoopIsLeft(h: GraphView)
    requires LinksLand(RECURSIVE) && FileRemoved(RECURSIVE, "f", h)
    ensures Count(h.nodes, h.links, LOOP) > 0 && "b" !in h.symbols
  {
    LoopIsHeld();
    HalfOfRecursive();
    RecursiveIsSound();
    hide RemovedFrom, WellFormed, Count, RECURSIVE, InOrderEach, Lists, IndexIsInverse;
    assert !Touches(LOOP, {"a"});
    assert "b" in Members(["a", "b"]);
  }

  /** Removing the file leaves the second symbol's node and its edge behind, with no
      symbol to store them under: what is restored has lost the edge. */
  lemma RemovalMayLoseAnEdge(h: GraphView, s: GraphSnapshot, t: GraphSnapshot)
    requires LinksLand(RECURSIVE) && FileRemoved(RECURSIVE, "f", h)
    requires IsSnapshotOf(h, s) && IsSnapshotOf(Restored(s), t)
    ensures IsState(h) && s != t
  {
    RecursiveIsState();
    NextIsState(RECURSIVE, RemoveFileOp("f"), h);
    hide IsState;
    LoopIsLeft(h);
    hide Restored, Count, RECURSIVE, Without, RemovedFrom, ListsSymbols, ListsMap, SortBy;
    NotAnchored(h, LOOP);
    KeyedStill(h);
    PersistsExactly(h, s, t);
  }

  lemma KeyedStill(h: GraphView)
    requires LinksLand(RECURSIVE) && FileRemoved(RECURSIVE, "f", h)
    ensures forall id :: id in h.symbols ==> h.symbols[id].id == id
  {
    RecursiveIsSound();
    assert WeightsAreKeys(RECURSIVE);
    hide Without, RemovedFrom, IndexIsInverse, InOrderEach, Lists, WellFormed, RECURSIVE;
  }

  lemma NotAnchored(h: GraphView, e: NamedEdge)
    requires LinksLand(h) && Count(h.nodes, h.links, e) > 0 && e.from !in h.symbols
    ensures !Anchored(RelationshipsOf(Names(h.nodes, h.links)), h.symbols)
  {
    var es := Names(h.nodes, h.links);
    var i :| 0 <= i < |es| && es[i] == e;
    assert RelationshipsOf(es)[i] in RelationshipsOf(es);
  }

  // ── what a snapshot says ────────────────────────────────────

  lemma SameTable(a: map<SymbolId, Symbol>, b: map<SymbolId, Symbol>, xs: seq<Symbol>)
    requires ListsSymbols(a, xs) && ListsSymbols(b, xs)
    requires (forall id :: id in a ==> a[id].id == id) && forall id :: id in b ==> b[id].id == id
    ensures a == b
  {
    ListedTableIsUnique(a, b, xs);
    ListedTableIsUnique(b, a, xs);
    forall id | id in a ensures a[id] == b[id] { assert a[id] in xs; }
  }

  lemma SameMap<V(!new)>(a: map<string, V>, b: map<string, V>, xs: seq<(string, V)>)
    requires ListsMap(a, xs) && ListsMap(b, xs)
    ensures a == b
  {
    FillsBack(a, xs);
    FillsBack(b, xs);
  }

  /** Graphs with one snapshot have the same symbols, the same edges as often, and the
      same side tables, alias and re-export lists in any order. */
  lemma SameSnapshotSameGraph(g: GraphView, h: GraphView, s: GraphSnapshot)
    requires IsSnapshotOf(g, s) && IsSnapshotOf(h, s)
    requires (forall id :: id in g.symbols ==> g.symbols[id].id == id) && forall id :: id in h.symbols ==> h.symbols[id].id == id
    ensures g.symbols == h.symbols && g.side == h.side
    ensures multiset(RelationshipsOf(Names(g.nodes, g.links))) == multiset(RelationshipsOf(Names(h.nodes, h.links)))
    ensures SortedAliases(g.aliasChains) == SortedAliases(h.aliasChains)
    ensures SortedReExports(g.fileReexports) == SortedReExports(h.fileReexports)
  {
    hide ListsSymbols, ListsMap, SortBy, Names, RelationshipsOf, SortedAliases, SortedReExports;
    SameTable(g.symbols, h.symbols, s.symbols);
    Sorts(RelationshipKey, RelationshipsOf(Names(g.nodes, g.links)));
    Sorts(RelationshipKey, RelationshipsOf(Names(h.nodes, h.links)));
    SameMap(SortedAliases(g.aliasChains), SortedAliases(h.aliasChains), s.aliasChains);
    SameMap(SortedReExports(g.fileReexports), SortedReExports(h.fileReexports), s.fileReexports);
    SameMap(g.side.assertions, h.side.assertions, s.assertions);
    SameMap(g.side.assertionsCounted, h.side.assertionsCounted, s.assertionsCounted);
    SameMap(g.side.unboundReferences, h.side.unboundReferences, s.unboundReferences);
    SameMap(g.side.unboundOutside, h.side.unboundOutside, s.unboundOutside);
  }

  lemma SymbolsAreKeyed(s: GraphSnapshot)
    requires DifferentIds(s.symbols)
    ensures forall id :: id in Restored(s).symbols ==> Restored(s).symbols[id].id == id
  {
    SymbolsRestored(s.symbols);
    RestoredKeeps(WithSymbols(EMPTY, s.symbols), s.relationships);
    hide WithSymbols, WithRelationships, Filled;
    assert Restored(s).symbols == Core(s).symbols;
  }
}
