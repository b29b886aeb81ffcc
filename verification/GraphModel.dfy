/** The graph as a value, and what adding to it means (graph.rs). Nodes and edges are
    held the way petgraph holds them: each in a vector, an edge naming its ends by
    position. */
module GraphModel {
  import opened Wrappers
  import opened Ir
  import opened Ordering

  datatype Meta = Meta(
    kind: RelationshipKind, resolution: Resolution, alias: Option<string>,
    properties: seq<string>, context: string, file: string, line: u32)

  datatype Link = Link(source: nat, target: nat, meta: Meta)

  /** An edge by the ids of its ends rather than their positions. */
  datatype NamedEdge = NamedEdge(from: SymbolId, to: SymbolId, meta: Meta)

  type Index = map<string, seq<SymbolId>>

  datatype GraphView = GraphView(
    nodes: seq<SymbolId>, links: seq<Link>,
    nodeIndex: map<SymbolId, nat>, nameIndex: Index, fileIndex: Index,
    symbols: map<SymbolId, Symbol>,
    aliasChains: map<SymbolId, seq<AliasEntry>>, fileReexports: map<string, seq<ReExportEntry>>,
    side: SideTables)

  /** What is carried beside the graph; nothing here adds to it or takes from it. */
  datatype SideTables = SideTables(
    assertions: map<SymbolId, u32>, assertionsCounted: map<string, bool>,
    unboundReferences: map<string, u32>, unboundOutside: map<string, u32>)

  const EMPTY := GraphView([], [], map[], map[], map[], map[], map[], map[], SideTables(map[], map[], map[], map[]))

  // ── indexes ─────────────────────────────────────────────────

  function At(index: Index, key: string): seq<SymbolId> { if key in index then index[key] else [] }

  predicate Lists(index: Index, key: string, id: SymbolId) { id in At(index, key) }

  /** Drops each element that equals the one before it. */
  function Dedup(xs: seq<SymbolId>): seq<SymbolId> {
    if |xs| <= 1 then xs
    else if xs[0] == xs[1] then Dedup(xs[1..])
    else [xs[0]] + Dedup(xs[1..])
  }

  function Indexed(index: Index, key: string, id: SymbolId): Index {
    index[key := if key in index then Dedup(SortBy(TextKey, index[key] + [id])) else [id]]
  }

  function Except(xs: seq<SymbolId>, id: SymbolId): seq<SymbolId> {
    if |xs| == 0 then []
    else Except(xs[..|xs| - 1], id) + if xs[|xs| - 1] == id then [] else [xs[|xs| - 1]]
  }

  function Unindexed(index: Index, key: string, id: SymbolId): Index {
    if key in index then index[key := Except(index[key], id)] else index
  }

  lemma {:induction false} DedupKeeps(xs: seq<SymbolId>)
    requires SortedBy(TextKey, xs)
    ensures StrictlySortedBy(TextKey, Dedup(xs))
    ensures forall x :: x in Dedup(xs) <==> x in xs
    ensures |xs| > 0 ==> |Dedup(xs)| > 0 && Dedup(xs)[0] == xs[0]
  {
    if |xs| > 1 {
      DedupKeeps(xs[1..]);
      assert xs == [xs[0]] + xs[1..];
      var rest := Dedup(xs[1..]);
      if xs[0] != xs[1] {
        FirstIsLess(xs[0], rest);
        PrependStrict(xs[0], rest);
      }
    }
  }

  lemma FirstIsLess(x: SymbolId, rest: seq<SymbolId>)
    requires |rest| > 0 && StrictlySortedBy(TextKey, rest) && Le(TextKey(x), TextKey(rest[0])) && x != rest[0]
    ensures forall y :: y in rest ==> Less(TextKey(x), TextKey(y))
  {
    assert TextKey(x)[0] != TextKey(rest[0])[0];
    forall y | y in rest ensures Less(TextKey(x), TextKey(y)) {
      var k :| 0 <= k < |rest| && rest[k] == y;
      if k > 0 { LessTransitive(TextKey(x), TextKey(rest[0]), TextKey(y)); }
    }
  }

  lemma PrependStrict(x: SymbolId, rest: seq<SymbolId>)
    requires StrictlySortedBy(TextKey, rest) && forall y :: y in rest ==> Less(TextKey(x), TextKey(y))
    ensures StrictlySortedBy(TextKey, [x] + rest)
  {
    var all := [x] + rest;
    forall i, j | 0 <= i < j < |all| ensures Less(TextKey(all[i]), TextKey(all[j])) {
      assert all[j] == rest[j - 1];
      if i > 0 { assert all[i] == rest[i - 1]; }
    }
  }

  lemma {:induction false} ExceptKeeps(xs: seq<SymbolId>, id: SymbolId)
    requires StrictlySortedBy(TextKey, xs)
    ensures StrictlySortedBy(TextKey, Except(xs, id))
    ensures forall x :: x in Except(xs, id) <==> x in xs && x != id
  {
    if |xs| > 0 {
      var n := |xs| - 1;
      ExceptKeeps(xs[..n], id);
      assert xs == xs[..n] + [xs[n]];
      var rest := Except(xs[..n], id);
      forall x | x in rest ensures Less(TextKey(x), TextKey(xs[n])) {
        var k :| 0 <= k < n && xs[k] == x;
      }
    }
  }

  /** Every list in order, nothing twice. */
  ghost predicate InOrderEach(index: Index) { forall k :: k in index ==> StrictlySortedBy(TextKey, index[k]) }

  lemma IndexedMembers(index: Index, key: string, id: SymbolId)
    requires InOrderEach(index)
    ensures InOrderEach(Indexed(index, key, id))
    ensures forall k, x :: Lists(Indexed(index, key, id), k, x) <==> Lists(index, k, x) || (k == key && x == id)
  {
    if key in index {
      Sorts(TextKey, index[key] + [id]);
      SortKeeps(TextKey, index[key] + [id]);
      DedupKeeps(SortBy(TextKey, index[key] + [id]));
    }
  }

  lemma UnindexedMembers(index: Index, key: string, id: SymbolId)
    requires InOrderEach(index)
    ensures InOrderEach(Unindexed(index, key, id))
    ensures forall k, x :: Lists(Unindexed(index, key, id), k, x) <==> Lists(index, k, x) && !(k == key && x == id)
  {
    if key in index { ExceptKeeps(index[key], id); }
  }

  // ── adding ──────────────────────────────────────────────────

  function Replaced(g: GraphView, s: Symbol): GraphView {
    if s.id !in g.symbols then g.(symbols := g.symbols[s.id := s])
    else
      var was := g.symbols[s.id];
      g.(symbols := g.symbols[s.id := s],
         nameIndex := if was.name == s.name then g.nameIndex
                      else Indexed(Unindexed(g.nameIndex, was.name, s.id), s.name, s.id),
         fileIndex := if was.file == s.file then g.fileIndex
                      else Indexed(Unindexed(g.fileIndex, was.file, s.id), s.file, s.id))
  }

  function WithSymbol(g: GraphView, s: Symbol): GraphView {
    if s.id in g.nodeIndex then Replaced(g, s)
    else
      g.(nodes := g.nodes + [s.id], nodeIndex := g.nodeIndex[s.id := |g.nodes|], symbols := g.symbols[s.id := s],
         nameIndex := Indexed(g.nameIndex, s.name, s.id), fileIndex := Indexed(g.fileIndex, s.file, s.id))
  }

  /** The node that stands for a package: it has no file. */
  function PackageSymbol(id: SymbolId): Symbol {
    Symbol(id, Strip(id, "ext::", "::package").GetOr(id), ExternalPackage, TypeScript, "", 0, 0, None)
  }

  function MetaOf(r: Relationship): Meta {
    Meta(r.kind, r.resolution, r.alias, r.properties, r.context, r.file, r.line)
  }

  function WithRelationship(g: GraphView, r: Relationship): GraphView {
    if r.from !in g.nodeIndex then g
    else
      var h := if r.to !in g.nodeIndex && "ext::" <= r.to then WithSymbol(g, PackageSymbol(r.to)) else g;
      if r.to !in h.nodeIndex then h
      else h.(links := h.links + [Link(g.nodeIndex[r.from], h.nodeIndex[r.to], MetaOf(r))])
  }

  // ── what adding keeps ───────────────────────────────────────

  /** The node index is the exact inverse of the node weights. */
  ghost predicate IndexIsInverse(g: GraphView) { AreInverse(g.nodes, g.nodeIndex) }

  ghost predicate AreInverse(nodes: seq<SymbolId>, at: map<SymbolId, nat>) {
    && (forall i :: 0 <= i < |nodes| ==> nodes[i] in at && at[nodes[i]] == i)
    && forall id :: id in at ==> at[id] < |nodes| && nodes[at[id]] == id
  }

  ghost predicate LinksLand(g: GraphView) {
    Lands(g.nodes, g.links)
  }

  /** Names and files are looked up exactly. */
  ghost predicate IndexesAreExact(g: GraphView) {
    && InOrderEach(g.nameIndex) && InOrderEach(g.fileIndex)
    && (forall n, id :: Lists(g.nameIndex, n, id) <==> id in g.symbols && g.symbols[id].name == n)
    && forall f, id :: Lists(g.fileIndex, f, id) <==> id in g.symbols && g.symbols[id].file == f
  }

  /** The node weights are the symbol keys, and symbols are kept under their own ids. */
  ghost predicate WeightsAreKeys(g: GraphView) {
    && (forall id :: id in g.nodeIndex <==> id in g.symbols)
    && forall id :: id in g.symbols ==> g.symbols[id].id == id
  }

  ghost predicate WellFormed(g: GraphView) {
    IndexIsInverse(g) && LinksLand(g) && IndexesAreExact(g) && WeightsAreKeys(g)
  }

  lemma EmptyIsWellFormed()
    ensures WellFormed(EMPTY)
  {
  }

  lemma ReplacedIndexes(g: GraphView, s: Symbol)
    requires IndexesAreExact(g) && s.id in g.symbols
    ensures IndexesAreExact(Replaced(g, s))
  {
    var was := g.symbols[s.id];
    UnindexedMembers(g.nameIndex, was.name, s.id);
    IndexedMembers(Unindexed(g.nameIndex, was.name, s.id), s.name, s.id);
    UnindexedMembers(g.fileIndex, was.file, s.id);
    IndexedMembers(Unindexed(g.fileIndex, was.file, s.id), s.file, s.id);
    hide Indexed, Unindexed, InOrderEach;
  }

  lemma AddedIndexes(g: GraphView, s: Symbol)
    requires IndexesAreExact(g) && WeightsAreKeys(g) && s.id !in g.nodeIndex
    ensures IndexesAreExact(WithSymbol(g, s))
  {
    IndexedMembers(g.nameIndex, s.name, s.id);
    IndexedMembers(g.fileIndex, s.file, s.id);
    hide Indexed, InOrderEach;
  }

  lemma WithSymbolKeeps(g: GraphView, s: Symbol)
    requires WellFormed(g)
    ensures WellFormed(WithSymbol(g, s))
    ensures WithSymbol(g, s).symbols == g.symbols[s.id := s] && WithSymbol(g, s).links == g.links
  {
    hide Indexed, Unindexed, IndexesAreExact, AreInverse, Lands;
    if s.id in g.nodeIndex {
      ReplacedIndexes(g, s);
    } else {
      AddedIndexes(g, s);
      AddedNode(g.nodes, g.nodeIndex, g.links, s.id);
    }
  }

  lemma AddedNode(nodes: seq<SymbolId>, at: map<SymbolId, nat>, links: seq<Link>, id: SymbolId)
    requires AreInverse(nodes, at) && Lands(nodes, links) && id !in at
    ensures AreInverse(nodes + [id], at[id := |nodes|]) && Lands(nodes + [id], links)
  {
  }

  lemma WithRelationshipKeeps(g: GraphView, r: Relationship)
    requires WellFormed(g)
    ensures WellFormed(WithRelationship(g, r))
  {
    if r.from in g.nodeIndex {
      var h := if r.to !in g.nodeIndex && "ext::" <= r.to then WithSymbol(g, PackageSymbol(r.to)) else g;
      if r.to !in g.nodeIndex && "ext::" <= r.to { WithSymbolKeeps(g, PackageSymbol(r.to)); }
      assert |g.nodes| <= |h.nodes|;
      hide WellFormed, WithSymbol;
      if r.to in h.nodeIndex {
        LinkKeeps(h, g.nodeIndex[r.from], h.nodeIndex[r.to], MetaOf(r));
      }
    }
  }

  lemma LinkKeeps(g: GraphView, source: nat, target: nat, meta: Meta)
    requires WellFormed(g) && source < |g.nodes| && target < |g.nodes|
    ensures WellFormed(g.(links := g.links + [Link(source, target, meta)]))
  {
    hide IndexIsInverse, IndexesAreExact;
    var h := g.(links := g.links + [Link(source, target, meta)]);
    IndexesIgnoreLinks(g, h);
  }

  lemma IndexesIgnoreLinks(g: GraphView, h: GraphView)
    requires h == g.(links := h.links)
    ensures IndexIsInverse(g) ==> IndexIsInverse(h)
    ensures IndexesAreExact(g) ==> IndexesAreExact(h)
  {
  }

  // ── edges by id ─────────────────────────────────────────────

  ghost predicate Lands(nodes: seq<SymbolId>, links: seq<Link>) {
    forall l :: l in links ==> l.source < |nodes| && l.target < |nodes|
  }

  function NameLink(nodes: seq<SymbolId>, l: Link): NamedEdge
    requires l.source < |nodes| && l.target < |nodes|
  {
    NamedEdge(nodes[l.source], nodes[l.target], l.meta)
  }

  /** Every edge with its ends named, in the order the edges are held. */
  function Names(nodes: seq<SymbolId>, links: seq<Link>): (es: seq<NamedEdge>)
    requires Lands(nodes, links)
    ensures |es| == |links| && forall i :: 0 <= i < |links| ==> es[i] == NameLink(nodes, links[i])
  {
    if |links| == 0 then []
    else Names(nodes, links[..|links| - 1]) + [NameLink(nodes, links[|links| - 1])]
  }
}
