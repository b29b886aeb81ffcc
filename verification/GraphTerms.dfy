/** What graphs gain, give to rules, and are stored as, told field by field (graph.rs,
    rule_eval.rs and sqlite.rs). */
module GraphTerms {
  import opened Wrappers
  import opened Ir
  import opened Ordering
  import opened GraphModel
  import opened Removal
  import RuleModel
  import RuleInput
  import RuleTerms
  import opened Persistence
  import opened Codec

  // ── adding an edge ──────────────────────────────────────────

  /** The node made for a package on its first mention. An id that begins as a
      package's does and does not end so is its own name. */
  ghost predicate IsPackageNode(id: SymbolId, s: Symbol) {
    && s.id == id && s.kind == ExternalPackage && s.language == TypeScript && s.file == ""
    && s.lineStart == 0 && s.lineEnd == 0 && s.signature == None
    && (forall name: string :: id == "ext::" + name + "::package" ==> s.name == name)
    && ((forall name: string :: id != "ext::" + name + "::package") ==> s.name == id)
  }

  /** This relationship as an edge between the nodes of its ends. */
  predicate Carries(nodes: seq<SymbolId>, l: Link, r: Relationship) {
    && l.source < |nodes| && nodes[l.source] == r.from && l.target < |nodes| && nodes[l.target] == r.to
    && l.meta.kind == r.kind && l.meta.resolution == r.resolution && l.meta.alias == r.alias
    && l.meta.properties == r.properties && l.meta.context == r.context
    && l.meta.file == r.file && l.meta.line == r.line
  }

  lemma PackageSymbolTells(id: SymbolId)
    ensures IsPackageNode(id, PackageSymbol(id))
  {
    forall name: string ensures Strip(id, "ext::", "::package") == Some(name) <==> id == "ext::" + name + "::package" {
      RuleTerms.PackageNameReads(id, name);
    }
    hide Strip;
    if Strip(id, "ext::", "::package").Some? {
      var name := Strip(id, "ext::", "::package").value;
      assert id == "ext::" + name + "::package";
    }
  }

  /** Between two stored ends. */
  lemma EdgeIsAdded(g: GraphView, r: Relationship)
    requires WellFormed(g) && r.from in g.symbols && r.to in g.symbols
    ensures var h := WithRelationship(g, r);
      h == g.(links := h.links) && exists l :: h.links == g.links + [l] && Carries(h.nodes, l, r)
  {
    hide IndexesAreExact, Lands;
    var l := Link(g.nodeIndex[r.from], g.nodeIndex[r.to], MetaOf(r));
    assert WithRelationship(g, r).links == g.links + [l] && Carries(g.nodes, l, r);
  }

  lemma TargetIsStored(g: GraphView, r: Relationship)
    requires WellFormed(g) && r.from in g.symbols && r.to !in g.symbols && "ext::" <= r.to
    ensures var h := WithSymbol(g, PackageSymbol(r.to));
      && WellFormed(h) && WithRelationship(g, r) == WithRelationship(h, r) && h.links == g.links
      && h.symbols == g.symbols[r.to := PackageSymbol(r.to)]
  {
    WithSymbolKeeps(g, PackageSymbol(r.to));
    NodeIsAdded(g, PackageSymbol(r.to));
    hide WithSymbol, IndexesAreExact, Lands;
  }

  /** An edge is added where its source is stored and its target is, or is written as a
      package's id; such a target is stored first. Nothing changes otherwise. */
  lemma RelationshipIsAdded(g: GraphView, r: Relationship)
    requires WellFormed(g)
    ensures var h := WithRelationship(g, r);
      if r.from in g.symbols && (r.to in g.symbols || "ext::" <= r.to) then
        && (exists l :: h.links == g.links + [l] && Carries(h.nodes, l, r))
        && (forall id :: id in h.symbols <==> id in g.symbols || id == r.to)
        && (forall id :: id in g.symbols ==> h.symbols[id] == g.symbols[id])
        && (r.to !in g.symbols ==> IsPackageNode(r.to, h.symbols[r.to]))
      else h == g
  {
    if r.from in g.symbols && r.to in g.symbols {
      EdgeIsAdded(g, r);
      hide WithRelationship, WellFormed, Carries;
    } else if r.from in g.symbols && "ext::" <= r.to {
      var h := WithSymbol(g, PackageSymbol(r.to));
      TargetIsStored(g, r);
      PackageSymbolTells(r.to);
      EdgeIsAdded(h, r);
      hide WithRelationship, WithSymbol, WellFormed, Carries, IsPackageNode;
    }
  }

  lemma NodeIsAdded(g: GraphView, s: Symbol)
    requires s.id !in g.nodeIndex
    ensures var h := WithSymbol(g, s); h.nodes == g.nodes + [s.id] && h.nodeIndex == g.nodeIndex[s.id := |g.nodes|]
  {
  }

  // ── removing a file's edges ─────────────────────────────────

  /** Where a file's edges stand. */
  function OwnPlaces(links: seq<Link>, file: string): set<nat> { set i: nat | i < |links| && links[i].meta.file == file }

  lemma {:induction false} AsMany(ps: seq<nat>, places: set<nat>)
    requires forall j, k :: 0 <= j < k < |ps| ==> ps[j] < ps[k]
    requires forall i: nat :: i in ps <==> i in places
    ensures |ps| == |places|
  {
    if |ps| == 0 {
      assert places == {};
    } else {
      var n := |ps| - 1;
      assert ps == ps[..n] + [ps[n]];
      AsMany(ps[..n], places - {ps[n]});
    }
  }

  lemma PositionsAreOwn(links: seq<Link>, file: string)
    ensures |Positions(links, file)| == |OwnPlaces(links, file)|
    ensures forall i: nat :: i in Positions(links, file) <==> i in OwnPlaces(links, file)
  {
    var ps := Positions(links, file);
    hide Positions;
    AsMany(ps, OwnPlaces(links, file));
  }

  /** Each place is far enough from the end exactly when the last is. */
  lemma LastIsFarthest(ps: seq<nat>, places: set<nat>, n: nat)
    requires forall j, k :: 0 <= j < k < |ps| ==> ps[j] < ps[k]
    requires |ps| == |places| && forall i: nat :: i in ps <==> i in places
    ensures |ps| == 0 || ps[|ps| - 1] + |ps| <= n <==> forall i :: i in places ==> i + |places| <= n
  {
    if |ps| > 0 {
      assert ps[|ps| - 1] in places;
      forall i | i in places ensures i <= ps[|ps| - 1] {
        var k :| 0 <= k < |ps| && ps[k] == i;
      }
    }
  }

  /** The edges of other files stay, each as often; of a file's own none is added, and none
      is left exactly when each stands, at the outset, as many places from the end as the
      file has edges. */
  lemma OwnEdgesGo(before: seq<Link>, file: string, after: seq<Link>)
    requires FileEdgesRemoved(before, file, after)
    ensures forall l: Link :: l.meta.file != file ==> multiset(after)[l] == multiset(before)[l]
    ensures forall l: Link :: l.meta.file == file ==> multiset(after)[l] <= multiset(before)[l]
    ensures (forall l :: l in after ==> l.meta.file != file)
      <==> forall i :: i in OwnPlaces(before, file) ==> i + |OwnPlaces(before, file)| <= |before|
  {
    OwnAreGoneExactly(before, file, after);
    hide OwnPlaces;
  }

  lemma OwnAreGoneExactly(before: seq<Link>, file: string, after: seq<Link>)
    requires FileEdgesRemoved(before, file, after)
    ensures (forall l :: l in after ==> l.meta.file != file)
      <==> forall i :: i in OwnPlaces(before, file) ==> i + |OwnPlaces(before, file)| <= |before|
  {
    EdgesGoneExactly(before, file, after);
    PositionsAreOwn(before, file);
    Ascending(before, file);
    hide FileEdgesRemoved, OwnPlaces, Positions;
    LastIsFarthest(Positions(before, file), OwnPlaces(before, file), |before|);
    assert NoneLeft(after, file) <==> forall l :: l in after ==> l.meta.file != file;
  }

  lemma Ascending(links: seq<Link>, file: string)
    ensures forall j, k :: 0 <= j < k < |Positions(links, file)| ==> Positions(links, file)[j] < Positions(links, file)[k]
  {
  }

  // ── what rules read ─────────────────────────────────────────

  predicate KindWord(kind: RelationshipKind, word: string) {
    || (kind == Imports && word == "imports") || (kind == Calls && word == "calls")
    || (kind == Extends && word == "extends") || (kind == Implements && word == "implements")
    || (kind == UsesType && word == "uses-type") || (kind == AccessesProperty && word == "accesses-property")
    || (kind == ReExports && word == "re-exports") || (kind == Instantiates && word == "instantiates")
    || (kind == Tests && word == "tests")
  }

  lemma KindWordTells(kind: RelationshipKind, word: string)
    ensures KindName(kind) == word <==> KindWord(kind, word)
  {
  }

  /** An edge of the graph, as rules see it: imports and re-exports are dependencies, and
      resolved edges count. */
  predicate IsReadAs(nodes: seq<SymbolId>, l: Link, e: RuleModel.Edge)
    requires l.source < |nodes| && l.target < |nodes|
  {
    && e.from == nodes[l.source] && e.to == nodes[l.target] && e.file == l.meta.file && e.line == l.meta.line
    && KindWord(l.meta.kind, e.kindName)
    && (e.isDependency <==> l.meta.kind == Imports || l.meta.kind == ReExports)
    && (e.gateSafe <==> l.meta.resolution == Resolved)
  }

  ghost function ReadFrom(g: GraphView, e: RuleModel.Edge): set<nat>
    requires LinksLand(g)
  {
    set i: nat | i < |g.links| && IsReadAs(g.nodes, g.links[i], e)
  }

  lemma EdgeOfTells(nodes: seq<SymbolId>, l: Link, e: RuleModel.Edge)
    requires l.source < |nodes| && l.target < |nodes|
    ensures RuleInput.EdgeOf(NameLink(nodes, l)) == e <==> IsReadAs(nodes, l, e)
  {
    KindWordTells(l.meta.kind, e.kindName);
    hide KindName, KindWord;
  }

  /** An element occurs as often as there are places that hold it. */
  lemma {:induction false} CountPlaces<T(!new)>(xs: seq<T>, x: T, places: set<nat>)
    requires forall i: nat :: i in places <==> i < |xs| && xs[i] == x
    ensures multiset(xs)[x] == |places|
  {
    if |xs| == 0 {
      assert places == {};
    } else {
      var n := |xs| - 1;
      CountPlaces(xs[..n], x, places - {n});
      assert xs == xs[..n] + [xs[n]];
    }
  }

  /** Rules read each edge of the graph, as often as it is there. */
  lemma EdgesAreRead(g: GraphView, e: RuleModel.Edge)
    requires LinksLand(g)
    ensures multiset(RuleInput.Edges(g))[e] == |ReadFrom(g, e)|
  {
    var names := Names(g.nodes, g.links);
    var flat := RuleInput.EdgesOf(names);
    Sorts(RuleInput.EdgeKey, flat);
    var places := ReadFrom(g, e);
    forall i: nat ensures i in places <==> i < |flat| && flat[i] == e {
      if i < |g.links| { EdgeOfTells(g.nodes, g.links[i], e); }
    }
    hide IsReadAs, Names, RuleInput.EdgesOf, ReadFrom, SortBy;
    CountPlaces(flat, e, places);
  }

  // ── what is stored ──────────────────────────────────────────

  ghost function StoredFrom(g: GraphView, r: Relationship): set<nat>
    requires LinksLand(g)
  {
    set i: nat | i < |g.links| && Carries(g.nodes, g.links[i], r)
  }

  lemma RelationshipOfTells(nodes: seq<SymbolId>, l: Link, r: Relationship)
    requires l.source < |nodes| && l.target < |nodes|
    ensures Persistence.RelationshipOf(NameLink(nodes, l)) == r <==> Carries(nodes, l, r)
  {
  }

  /** By file, line, source and target. */
  predicate StoredLe(a: Relationship, b: Relationship) {
    if a.file != b.file then CharsLe(a.file, b.file)
    else if a.line != b.line then a.line < b.line
    else if a.from != b.from then CharsLe(a.from, b.from)
    else CharsLe(a.to, b.to)
  }

  lemma StoredCompare(a: Relationship, b: Relationship)
    ensures Le(RelationshipKey(a), RelationshipKey(b)) <==> StoredLe(a, b)
  {
    var endA, endB := [Text(a.from)] + [Text(a.to)], [Text(b.from)] + [Text(b.to)];
    assert RelationshipKey(a) == [Text(a.file)] + ([Num(a.line)] + endA);
    assert RelationshipKey(b) == [Text(b.file)] + ([Num(b.line)] + endB);
    Lex(Text(a.file), Text(b.file), [Num(a.line)] + endA, [Num(b.line)] + endB);
    Lex(Num(a.line), Num(b.line), endA, endB);
    Lex(Text(a.from), Text(b.from), [Text(a.to)], [Text(b.to)]);
    LastCompares(a.to, b.to);
    hide CharsLe, Le, RelationshipKey;
  }

  lemma PairsCompare(a: string, b: string, c: string, d: string)
    ensures Le([Text(a), Text(b)], [Text(c), Text(d)]) <==> if a != c then CharsLe(a, c) else CharsLe(b, d)
  {
    assert [Text(a), Text(b)] == [Text(a)] + [Text(b)] && [Text(c), Text(d)] == [Text(c)] + [Text(d)];
    Lex(Text(a), Text(c), [Text(b)], [Text(d)]);
    LastCompares(b, d);
    hide CharsLe, Le;
  }

  lemma StoredCounts(g: GraphView, r: Relationship)
    requires LinksLand(g)
    ensures multiset(RelationshipsOf(Names(g.nodes, g.links)))[r] == |StoredFrom(g, r)|
  {
    var rs := RelationshipsOf(Names(g.nodes, g.links));
    var places := StoredFrom(g, r);
    forall i: nat ensures i in places <==> i < |rs| && rs[i] == r {
      if i < |g.links| { RelationshipOfTells(g.nodes, g.links[i], r); }
    }
    hide Carries, Names, RelationshipsOf, StoredFrom;
    CountPlaces(rs, r, places);
  }

  /** Every edge is stored as often as it is there, with all it carries, and the edges
      are stored in order. */
  lemma EdgesAreStored(g: GraphView, s: GraphSnapshot)
    requires IsSnapshotOf(g, s)
    ensures forall r :: multiset(s.relationships)[r] == |StoredFrom(g, r)|
    ensures forall i, j :: 0 <= i < j < |s.relationships| ==> StoredLe(s.relationships[i], s.relationships[j])
  {
    var rs := RelationshipsOf(Names(g.nodes, g.links));
    Sorts(RelationshipKey, rs);
    hide ListsMap, ListsSymbols, Names, RelationshipsOf, SortBy;
    forall r ensures multiset(s.relationships)[r] == |StoredFrom(g, r)| {
      StoredCounts(g, r);
    }
    hide StoredFrom;
    forall i, j | 0 <= i < j < |s.relationships| ensures StoredLe(s.relationships[i], s.relationships[j]) {
      StoredCompare(s.relationships[i], s.relationships[j]);
      hide StoredLe, RelationshipKey, Le;
    }
  }

  /** Keys in strictly rising order, each with what the map has for it. */
  ghost predicate IsMapInOrder<V(!new)>(m: map<string, V>, xs: seq<(string, V)>) {
    && (forall i, j :: 0 <= i < j < |xs| ==> xs[i].0 != xs[j].0 && CharsLe(xs[i].0, xs[j].0))
    && (forall p :: p in xs ==> p.0 in m && m[p.0] == p.1)
    && forall k :: k in m ==> (k, m[k]) in xs
  }

  lemma ListsMapTells<V(!new)>(m: map<string, V>, xs: seq<(string, V)>)
    requires ListsMap(m, xs)
    ensures IsMapInOrder(m, xs)
  {
    forall i, j | 0 <= i < j < |xs| ensures xs[i].0 != xs[j].0 && CharsLe(xs[i].0, xs[j].0) {
      assert Less(PairKey(xs[i]), PairKey(xs[j]));
      LastCompares(xs[i].0, xs[j].0);
    }
    hide CharsLe, Less;
    forall p | p in xs ensures p.0 in m && m[p.0] == p.1 { assert p == (p.0, p.1); }
  }

  /** The side tables are stored as they are, in key order; and symbols by id. */
  lemma TablesAreStored(g: GraphView, s: GraphSnapshot)
    requires IsSnapshotOf(g, s)
    ensures forall x :: x in s.symbols <==> x.id in g.symbols && g.symbols[x.id] == x
    ensures forall i, j :: 0 <= i < j < |s.symbols| ==>
      s.symbols[i].id != s.symbols[j].id && CharsLe(s.symbols[i].id, s.symbols[j].id)
    ensures IsMapInOrder(g.side.assertions, s.assertions)
    ensures IsMapInOrder(g.side.assertionsCounted, s.assertionsCounted)
    ensures IsMapInOrder(g.side.unboundReferences, s.unboundReferences)
    ensures IsMapInOrder(g.side.unboundOutside, s.unboundOutside)
  {
    ListsMapTells(g.side.assertions, s.assertions);
    ListsMapTells(g.side.assertionsCounted, s.assertionsCounted);
    ListsMapTells(g.side.unboundReferences, s.unboundReferences);
    ListsMapTells(g.side.unboundOutside, s.unboundOutside);
    hide IsMapInOrder, ListsMap, Names, SortBy;
    forall i, j | 0 <= i < j < |s.symbols|
      ensures s.symbols[i].id != s.symbols[j].id && CharsLe(s.symbols[i].id, s.symbols[j].id)
    {
      assert Less(SymbolKey(s.symbols[i]), SymbolKey(s.symbols[j]));
      LastCompares(s.symbols[i].id, s.symbols[j].id);
    }
  }

  predicate AliasLe(a: AliasEntry, b: AliasEntry) {
    if a.definedInFile != b.definedInFile then CharsLe(a.definedInFile, b.definedInFile)
    else CharsLe(a.aliasName, b.aliasName)
  }

  predicate ReExportLe(a: ReExportEntry, b: ReExportEntry) {
    if a.exportedName != b.exportedName then CharsLe(a.exportedName, b.exportedName)
    else CharsLe(a.sourceModule, b.sourceModule)
  }

  ghost predicate AliasesInOrder(from: seq<AliasEntry>, xs: seq<AliasEntry>) {
    multiset(xs) == multiset(from) && forall i, j :: 0 <= i < j < |xs| ==> AliasLe(xs[i], xs[j])
  }

  ghost predicate ReExportsInOrder(from: seq<ReExportEntry>, xs: seq<ReExportEntry>) {
    multiset(xs) == multiset(from) && forall i, j :: 0 <= i < j < |xs| ==> ReExportLe(xs[i], xs[j])
  }

  lemma AliasesSort(from: seq<AliasEntry>)
    ensures AliasesInOrder(from, SortBy(AliasKey, from))
  {
    var xs := SortBy(AliasKey, from);
    Sorts(AliasKey, from);
    hide CharsLe, Le, SortBy;
    forall i, j | 0 <= i < j < |xs| ensures AliasLe(xs[i], xs[j]) {
      PairsCompare(xs[i].definedInFile, xs[i].aliasName, xs[j].definedInFile, xs[j].aliasName);
    }
  }

  lemma ReExportsSort(from: seq<ReExportEntry>)
    ensures ReExportsInOrder(from, SortBy(ReExportKey, from))
  {
    var xs := SortBy(ReExportKey, from);
    Sorts(ReExportKey, from);
    hide CharsLe, Le, SortBy;
    forall i, j | 0 <= i < j < |xs| ensures ReExportLe(xs[i], xs[j]) {
      PairsCompare(xs[i].exportedName, xs[i].sourceModule, xs[j].exportedName, xs[j].sourceModule);
    }
  }

  /** Aliases are stored by file and then name, re-exports by name and then source, the
      lists by key. */
  lemma ListsAreStored(g: GraphView, s: GraphSnapshot)
    requires IsSnapshotOf(g, s)
    ensures forall i, j :: 0 <= i < j < |s.aliasChains| ==>
      s.aliasChains[i].0 != s.aliasChains[j].0 && CharsLe(s.aliasChains[i].0, s.aliasChains[j].0)
    ensures forall k, xs :: (k, xs) in s.aliasChains ==> k in g.aliasChains && AliasesInOrder(g.aliasChains[k], xs)
    ensures forall k :: k in g.aliasChains ==> exists xs :: (k, xs) in s.aliasChains
    ensures forall i, j :: 0 <= i < j < |s.fileReexports| ==>
      s.fileReexports[i].0 != s.fileReexports[j].0 && CharsLe(s.fileReexports[i].0, s.fileReexports[j].0)
    ensures forall k, xs :: (k, xs) in s.fileReexports ==> k in g.fileReexports && ReExportsInOrder(g.fileReexports[k], xs)
    ensures forall k :: k in g.fileReexports ==> exists xs :: (k, xs) in s.fileReexports
  {
    ListsMapTells(SortedAliases(g.aliasChains), s.aliasChains);
    ListsMapTells(SortedReExports(g.fileReexports), s.fileReexports);
    hide ListsMap, Names, RelationshipsOf, SortBy, CharsLe, AliasesInOrder, ReExportsInOrder;
    forall k | k in g.aliasChains ensures AliasesInOrder(g.aliasChains[k], SortedAliases(g.aliasChains)[k]) {
      AliasesSort(g.aliasChains[k]);
    }
    forall k | k in g.fileReexports ensures ReExportsInOrder(g.fileReexports[k], SortedReExports(g.fileReexports)[k]) {
      ReExportsSort(g.fileReexports[k]);
    }
  }
}
