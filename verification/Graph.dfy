/** The graph as it is kept and changed in place (graph.rs). */
module Graph {
  import opened Wrappers
  import opened Ir
  import opened Ordering
  import opened GraphModel
  import opened Petgraph
  import opened Removal

  /** What every reachable graph satisfies, removals and all: positions are right,
      edges land, and whatever an index lists is there to be found. */
  ghost predicate Sound(g: GraphView) {
    && IndexIsInverse(g) && LinksLand(g) && InOrderEach(g.nameIndex) && InOrderEach(g.fileIndex)
    && (forall n, id :: Lists(g.nameIndex, n, id) ==> id in g.symbols && g.symbols[id].name == n)
    && (forall f, id :: Lists(g.fileIndex, f, id) ==> id in g.symbols && g.symbols[id].file == f)
    && (forall id :: id in g.symbols ==> id in g.nodeIndex && g.symbols[id].id == id)
  }

  lemma WellFormedIsSound(g: GraphView)
    requires WellFormed(g)
    ensures Sound(g)
  {
  }

  lemma InverseIsDistinct(g: GraphView)
    requires IndexIsInverse(g)
    ensures Distinct(g.nodes)
    ensures forall id :: id in g.nodes <==> id in g.nodeIndex
  {
    forall i, j | 0 <= i < j < |g.nodes| ensures g.nodes[i] != g.nodes[j] {
      assert g.nodeIndex[g.nodes[i]] == i && g.nodeIndex[g.nodes[j]] == j;
    }
  }

  /** The nodes of a file that removing it takes out. */
  function RemovedFrom(g: GraphView, file: string): set<SymbolId> {
    Reached(At(g.fileIndex, file), g.nodeIndex, |g.nodes|)
  }

  /** What removing a file does. Only its own ids are touched: its symbols go, no
      index lists them any more, and of its nodes those go that were reached. Every
      other node stays, and every edge not at a removed node still joins what it
      joined. */
  ghost predicate FileRemoved(g: GraphView, file: string, h: GraphView)
    requires LinksLand(g)
  {
    var ids := At(g.fileIndex, file);
    && IndexIsInverse(h) && LinksLand(h)
    && (forall id :: id in h.nodes <==> id in g.nodes && id !in RemovedFrom(g, file))
    && Without(g.nodes, g.links, h.nodes, h.links, RemovedFrom(g, file))
    && h.symbols == g.symbols - Members(ids) && h.aliasChains == g.aliasChains - Members(ids)
    && h.fileIndex == g.fileIndex - {file} && h.fileReexports == g.fileReexports - {file}
    && h.side == g.side
    && InOrderEach(h.nameIndex)
    && forall n, id :: Lists(h.nameIndex, n, id) <==> Lists(g.nameIndex, n, id) && id !in Members(ids)
  }

  class InvarGraph {
    var nodes: seq<SymbolId>
    var links: seq<Link>
    var nodeIndex: map<SymbolId, nat>
    var nameIndex: Index
    var fileIndex: Index
    var symbols: map<SymbolId, Symbol>
    var aliasChains: map<SymbolId, seq<AliasEntry>>
    var fileReexports: map<string, seq<ReExportEntry>>
    var assertions: map<SymbolId, u32>
    var assertionsCounted: map<string, bool>
    var unboundReferences: map<string, u32>
    var unboundOutside: map<string, u32>

    function View(): GraphView
      reads this
    {
      GraphView(
        nodes, links, nodeIndex, nameIndex, fileIndex, symbols, aliasChains, fileReexports,
        SideTables(assertions, assertionsCounted, unboundReferences, unboundOutside))
    }

    constructor ()
      ensures View() == EMPTY
    {
      nodes, links, nodeIndex, nameIndex, fileIndex := [], [], map[], map[], map[];
      symbols, aliasChains, fileReexports := map[], map[], map[];
      assertions, assertionsCounted, unboundReferences, unboundOutside := map[], map[], map[], map[];
    }

    method AddSymbol(symbol: Symbol)
      modifies this
      ensures View() == WithSymbol(old(View()), symbol)
    {
      hide Indexed, Unindexed;
      if symbol.id in nodeIndex {
        ReplaceSymbol(symbol);
        return;
      }
      nodeIndex := nodeIndex[symbol.id := |nodes|];
      nodes := nodes + [symbol.id];
      symbols := symbols[symbol.id := symbol];
      nameIndex := Indexed(nameIndex, symbol.name, symbol.id);
      fileIndex := Indexed(fileIndex, symbol.file, symbol.id);
    }

    method ReplaceSymbol(symbol: Symbol)
      modifies this
      ensures View() == Replaced(old(View()), symbol)
    {
      hide Indexed, Unindexed;
      var id := symbol.id;
      if id in symbols {
        var existing := symbols[id];
        if existing.name != symbol.name {
          nameIndex := Unindexed(nameIndex, existing.name, id);
          nameIndex := Indexed(nameIndex, symbol.name, id);
        }
        if existing.file != symbol.file {
          fileIndex := Unindexed(fileIndex, existing.file, id);
          fileIndex := Indexed(fileIndex, symbol.file, id);
        }
      }
      symbols := symbols[id := symbol];
    }

    method AddRelationship(r: Relationship)
      modifies this
      ensures View() == WithRelationship(old(View()), r)
    {
      if r.from !in nodeIndex { return; }
      var from := nodeIndex[r.from];
      if r.to !in nodeIndex && "ext::" <= r.to {
        AddSymbol(PackageSymbol(r.to));
      }
      if r.to !in nodeIndex { return; }
      links := links + [Link(from, nodeIndex[r.to], MetaOf(r))];
    }

    /** Returns how many edges the file had, which need not be how many went. */
    method RemoveRelationshipsInFile(file: string) returns (removed: nat)
      modifies this`links
      ensures removed == |Positions(old(links), file)|
      ensures FileEdgesRemoved(old(links), file, links)
    {
      var edgeIds := Positions(links, file);
      removed := |edgeIds|;
      ghost var before := links;
      ghost var gone := multiset{};
      NoEdgesGone(links, edgeIds);
      hide EdgesPending, Positions, Reaching, SwapRemove;
      for j := 0 to |edgeIds|
        invariant EdgesPending(before, edgeIds, j, links, gone)
        invariant forall l :: l in gone ==> InFile(l, file)
      {
        NextEdge(before, edgeIds, j, links, gone);
        if edgeIds[j] < |links| {
          gone := gone + multiset{links[edgeIds[j]]};
          links := SwapRemove(links, edgeIds[j]);
        }
      }
      EdgesSettled(before, file, links, gone);
    }

    /** Sets the index to where each weight stands now. */
    method RebuildNodeIndex()
      requires Distinct(nodes)
      modifies this`nodeIndex
      ensures IndexIsInverse(View())
    {
      nodeIndex := map[];
      for i := 0 to |nodes|
        invariant forall k :: 0 <= k < i ==> nodes[k] in nodeIndex && nodeIndex[nodes[k]] == k
        invariant forall id :: id in nodeIndex ==> nodeIndex[id] < i && nodes[nodeIndex[id]] == id
      {
        nodeIndex := nodeIndex[nodes[i] := i];
      }
    }

    /** One symbol out of the tables. */
    method DropSymbol(ghost g: GraphView, ghost file: string, ghost ids: seq<SymbolId>, ghost j: nat, id: SymbolId)
      requires Sound(g) && ids == At(g.fileIndex, file) && Different(ids) && j < |ids| && id == ids[j]
      requires NamesDropped(g, ids, j, symbols, aliasChains, nameIndex)
      modifies this`symbols, this`aliasChains, this`nameIndex
      ensures NamesDropped(g, ids, j + 1, symbols, aliasChains, nameIndex)
    {
      NextDropped(g, file, ids, j, symbols, aliasChains, nameIndex);
      hide Sound, NamesDropped;
      if id in symbols {
        nameIndex := Unindexed(nameIndex, symbols[id].name, id);
        symbols := symbols - {id};
      }
      aliasChains := aliasChains - {id};
    }

    /** The node at an id's stored index, if the index still reaches one. */
    method DropNodeOf(ghost g: GraphView, ghost ids: seq<SymbolId>, ghost j: nat, id: SymbolId)
      requires LinksLand(g) && Different(ids) && j < |ids| && id == ids[j]
      requires NodesPending(g.nodes, g.links, ids, g.nodeIndex, j, nodes, links)
      requires nodeIndex == g.nodeIndex - Members(ids[..j])
      modifies this`nodes, this`links, this`nodeIndex
      ensures NodesPending(g.nodes, g.links, ids, g.nodeIndex, j + 1, nodes, links)
      ensures nodeIndex == g.nodeIndex - Members(ids[..j + 1])
    {
      IndexLess(g, ids, j);
      if id in nodeIndex {
        var node := nodeIndex[id];
        nodeIndex := nodeIndex - {id};
        if node < |nodes| {
          var left, kept := DropNode(nodes, links, node);
          NextNode(g.nodes, g.links, ids, g.nodeIndex, j, nodes, links, left, kept);
          nodes, links := left, kept;
          return;
        }
      }
      hide Reached, Without;
      NextMissing(g.nodes, g.links, ids, g.nodeIndex, j, nodes, links);
    }

    /** The removal loop, one symbol and then its node at a time. */
    method DropAll(ghost g: GraphView, ghost file: string, ids: seq<SymbolId>) returns (removed: seq<SymbolId>)
      requires Sound(g) && ids == At(g.fileIndex, file) && Different(ids)
      requires NamesDropped(g, ids, 0, symbols, aliasChains, nameIndex)
      requires nodeIndex == g.nodeIndex - Members(ids[..0])
      requires NodesPending(g.nodes, g.links, ids, g.nodeIndex, 0, nodes, links)
      modifies this`symbols, this`aliasChains, this`nameIndex, this`nodes, this`links, this`nodeIndex
      ensures NamesDropped(g, ids, |ids|, symbols, aliasChains, nameIndex)
      ensures NodesPending(g.nodes, g.links, ids, g.nodeIndex, |ids|, nodes, links)
      ensures removed == ids
    {
      assert LinksLand(g);
      hide Sound, NodesPending, NamesDropped;
      removed := [];
      for j := 0 to |ids|
        invariant removed == ids[..j]
        invariant NamesDropped(g, ids, j, symbols, aliasChains, nameIndex)
        invariant nodeIndex == g.nodeIndex - Members(ids[..j])
        invariant NodesPending(g.nodes, g.links, ids, g.nodeIndex, j, nodes, links)
      {
        DropSymbol(g, file, ids, j, ids[j]);
        DropNodeOf(g, ids, j, ids[j]);
        removed := removed + [ids[j]];
      }
    }

    method RemoveFile(file: string) returns (removed: seq<SymbolId>)
      requires Sound(View())
      modifies this
      ensures FileRemoved(old(View()), file, View())
      ensures removed == At(old(fileIndex), file)
    {
      hide Sound, NodesPending, NamesDropped, FileRemoved, Distinct, IndexIsInverse, LinksLand, At, Different, SortedBy;
      ghost var g := View();
      var ids := At(fileIndex, file);
      StartOfRemoval(g, file);
      fileIndex := fileIndex - {file};
      removed := DropAll(g, file, ids);
      fileReexports := fileReexports - {file};
      PendingIsDistinct(g, ids, nodes, links);
      RebuildNodeIndex();
      EndOfRemoval(g, file, View());
      SortIdempotent(TextKey, removed);
      removed := SortBy(TextKey, removed);
    }
  }

  lemma StartOfRemoval(g: GraphView, file: string)
    requires Sound(g)
    ensures var ids := At(g.fileIndex, file);
      && Different(ids) && SortedBy(TextKey, ids)
      && NamesDropped(g, ids, 0, g.symbols, g.aliasChains, g.nameIndex)
      && LinksLand(g) && NodesPending(g.nodes, g.links, ids, g.nodeIndex, 0, g.nodes, g.links)
      && g.nodeIndex == g.nodeIndex - Members(ids[..0])
  {
    InverseIsDistinct(g);
    StrictIsDifferent(At(g.fileIndex, file));
    NothingPending(g.nodes, g.links, At(g.fileIndex, file), g.nodeIndex);
    NothingDropped(g, At(g.fileIndex, file));
    hide NodesPending, NamesDropped;
  }

  lemma PendingIsDistinct(g: GraphView, ids: seq<SymbolId>, nodes: seq<SymbolId>, links: seq<Link>)
    requires LinksLand(g) && NodesPending(g.nodes, g.links, ids, g.nodeIndex, |ids|, nodes, links)
    ensures Distinct(nodes)
  {
  }

  lemma EndOfRemoval(g: GraphView, file: string, h: GraphView)
    requires LinksLand(g)
    requires var ids := At(g.fileIndex, file);
      && IndexIsInverse(h)
      && NamesDropped(g, ids, |ids|, h.symbols, h.aliasChains, h.nameIndex)
      && NodesPending(g.nodes, g.links, ids, g.nodeIndex, |ids|, h.nodes, h.links)
    requires h.fileIndex == g.fileIndex - {file} && h.fileReexports == g.fileReexports - {file} && h.side == g.side
    ensures FileRemoved(g, file, h)
  {
    hide Reached, Without, Lands;
    var ids := At(g.fileIndex, file);
    assert ids[..|ids|] == ids;
    NamesDroppedAll(g, ids, h.symbols, h.aliasChains, h.nameIndex);
    hide NamesDropped;
  }

  lemma NamesDroppedAll(
    g: GraphView, ids: seq<SymbolId>,
    symbols: map<SymbolId, Symbol>, aliasChains: map<SymbolId, seq<AliasEntry>>, nameIndex: Index)
    requires NamesDropped(g, ids, |ids|, symbols, aliasChains, nameIndex)
    ensures InOrderEach(nameIndex)
    ensures symbols == g.symbols - Members(ids) && aliasChains == g.aliasChains - Members(ids)
    ensures forall n, id :: Lists(nameIndex, n, id) <==> Lists(g.nameIndex, n, id) && id !in Members(ids)
  {
    assert ids[..|ids|] == ids;
  }

  lemma EdgesSettled(links0: seq<Link>, file: string, links: seq<Link>, gone: multiset<Link>)
    requires EdgesPending(links0, Positions(links0, file), |Positions(links0, file)|, links, gone)
    requires forall l :: l in gone ==> InFile(l, file)
    ensures FileEdgesRemoved(links0, file, links)
  {
    hide Positions, Reaching;
    var ps := Positions(links0, file);
    assert ps[..|ps|] == ps;
  }

  lemma StrictIsDifferent(ids: seq<SymbolId>)
    requires StrictlySortedBy(TextKey, ids)
    ensures Different(ids) && SortedBy(TextKey, ids)
  {
    forall i, j | 0 <= i < j < |ids| ensures ids[i] != ids[j] {
      assert Less(TextKey(ids[i]), TextKey(ids[j]));
    }
  }

  /** The tables after the first `j` of a file's ids were dropped from them. */
  ghost predicate NamesDropped(
    g: GraphView, ids: seq<SymbolId>, j: nat,
    symbols: map<SymbolId, Symbol>, aliasChains: map<SymbolId, seq<AliasEntry>>, nameIndex: Index)
    requires j <= |ids|
  {
    && symbols == g.symbols - Members(ids[..j]) && aliasChains == g.aliasChains - Members(ids[..j])
    && InOrderEach(nameIndex)
    && forall n, id :: Lists(nameIndex, n, id) <==> Lists(g.nameIndex, n, id) && id !in Members(ids[..j])
  }

  lemma NothingDropped(g: GraphView, ids: seq<SymbolId>)
    requires InOrderEach(g.nameIndex)
    ensures NamesDropped(g, ids, 0, g.symbols, g.aliasChains, g.nameIndex)
    ensures g.nodeIndex == g.nodeIndex - Members(ids[..0])
  {
    assert Members(ids[..0]) == {};
  }

  lemma IndexLess(g: GraphView, ids: seq<SymbolId>, j: nat)
    requires j < |ids| && Different(ids)
    ensures g.nodeIndex - Members(ids[..j + 1]) == g.nodeIndex - Members(ids[..j]) - {ids[j]}
    ensures ids[j] in g.nodeIndex <==> ids[j] in g.nodeIndex - Members(ids[..j])
  {
    assert Members(ids[..j + 1]) == Members(ids[..j]) + {ids[j]};
  }

  lemma NextDropped(
    g: GraphView, file: string, ids: seq<SymbolId>, j: nat,
    symbols: map<SymbolId, Symbol>, aliasChains: map<SymbolId, seq<AliasEntry>>, nameIndex: Index)
    requires Sound(g) && ids == At(g.fileIndex, file) && Different(ids) && j < |ids|
    requires NamesDropped(g, ids, j, symbols, aliasChains, nameIndex)
    ensures ids[j] in symbols
    ensures NamesDropped(g, ids, j + 1, symbols - {ids[j]}, aliasChains - {ids[j]},
      Unindexed(nameIndex, symbols[ids[j]].name, ids[j]))
  {
    var id := ids[j];
    assert Lists(g.fileIndex, file, id);
    assert ids[..j + 1] == ids[..j] + [id];
    assert Members(ids[..j + 1]) == Members(ids[..j]) + {id};
    assert id !in Members(ids[..j]);
    UnindexedMembers(nameIndex, symbols[id].name, id);
    forall n | Lists(g.nameIndex, n, id) ensures n == symbols[id].name { }
    hide Unindexed;
  }

  // ── every run ───────────────────────────────────────────────

  datatype Op =
    | AddSymbolOp(symbol: Symbol)
    | AddRelationshipOp(relationship: Relationship)
    | RemoveFileOp(file: string)
    | RemoveRelationshipsOp(file: string)

  /** What one call may do; the order petgraph drops a node's edges in is left open. */
  ghost predicate Steps(g: GraphView, op: Op, h: GraphView) {
    match op
    case AddSymbolOp(s) => h == WithSymbol(g, s)
    case AddRelationshipOp(r) => h == WithRelationship(g, r)
    case RemoveFileOp(file) => LinksLand(g) && FileRemoved(g, file, h)
    case RemoveRelationshipsOp(file) => h == g.(links := h.links) && FileEdgesRemoved(g.links, file, h.links)
  }

  ghost predicate IsRun(ops: seq<Op>, states: seq<GraphView>) {
    && |states| == |ops| + 1 && states[0] == EMPTY
    && forall i :: 0 <= i < |ops| ==> Steps(states[i], ops[i], states[i + 1])
  }

  /** An index lists only symbols that have the key they are listed under. */
  ghost predicate ListsTruly(index: Index, symbols: map<SymbolId, Symbol>, key: Symbol -> string) {
    InOrderEach(index) && forall k, id :: Lists(index, k, id) ==> id in symbols && key(symbols[id]) == k
  }

  function NameOf(s: Symbol): string { s.name }
  function FileOf(s: Symbol): string { s.file }

  lemma MovedListsTruly(index: Index, symbols: map<SymbolId, Symbol>, key: Symbol -> string, s: Symbol)
    requires ListsTruly(index, symbols, key)
    ensures s.id in symbols && key(symbols[s.id]) == key(s) ==> ListsTruly(index, symbols[s.id := s], key)
    ensures s.id in symbols ==>
      ListsTruly(Indexed(Unindexed(index, key(symbols[s.id]), s.id), key(s), s.id), symbols[s.id := s], key)
    ensures s.id !in symbols ==> ListsTruly(Indexed(index, key(s), s.id), symbols[s.id := s], key)
    ensures s.id !in symbols ==> ListsTruly(index, symbols[s.id := s], key)
  {
    if s.id in symbols {
      var was := key(symbols[s.id]);
      UnindexedMembers(index, was, s.id);
      IndexedMembers(Unindexed(index, was, s.id), key(s), s.id);
    } else {
      IndexedMembers(index, key(s), s.id);
    }
    hide Indexed, Unindexed, InOrderEach, Lists;
  }

  lemma SoundLists(g: GraphView)
    ensures Sound(g) <==>
      && IndexIsInverse(g) && LinksLand(g)
      && ListsTruly(g.nameIndex, g.symbols, NameOf) && ListsTruly(g.fileIndex, g.symbols, FileOf)
      && forall id :: id in g.symbols ==> id in g.nodeIndex && g.symbols[id].id == id
  {
    hide InOrderEach, Lists, IndexIsInverse, LinksLand;
    forall id | id in g.symbols ensures NameOf(g.symbols[id]) == g.symbols[id].name { }
    forall id | id in g.symbols ensures FileOf(g.symbols[id]) == g.symbols[id].file { }
  }

  lemma ReplacedStaysSound(g: GraphView, s: Symbol)
    requires Sound(g) && s.id in g.nodeIndex
    ensures Sound(Replaced(g, s))
  {
    hide Indexed, Unindexed, ListsTruly, Sound, Lands, AreInverse;
    SoundLists(g);
    SoundLists(Replaced(g, s));
    MovedListsTruly(g.nameIndex, g.symbols, NameOf, s);
    MovedListsTruly(g.fileIndex, g.symbols, FileOf, s);
  }

  lemma WithSymbolStaysSound(g: GraphView, s: Symbol)
    requires Sound(g)
    ensures Sound(WithSymbol(g, s))
  {
    if s.id in g.nodeIndex {
      ReplacedStaysSound(g, s);
    } else {
      SoundLists(g);
      SoundLists(WithSymbol(g, s));
      MovedListsTruly(g.nameIndex, g.symbols, NameOf, s);
      MovedListsTruly(g.fileIndex, g.symbols, FileOf, s);
    }
    hide Replaced, Indexed, ListsTruly, Sound;
  }

  lemma LinksStaySound(g: GraphView, links: seq<Link>)
    requires Sound(g) && Lands(g.nodes, links)
    ensures Sound(g.(links := links))
  {
    hide InOrderEach, Lists;
    var h := g.(links := links);
    IndexesIgnoreLinks(g, h);
    hide IndexIsInverse;
  }

  lemma WithRelationshipStaysSound(g: GraphView, r: Relationship)
    requires Sound(g)
    ensures Sound(WithRelationship(g, r))
  {
    hide Sound, WithSymbol, Lands;
    if r.from in g.nodeIndex {
      var h := if r.to !in g.nodeIndex && "ext::" <= r.to then WithSymbol(g, PackageSymbol(r.to)) else g;
      WithSymbolStaysSound(g, PackageSymbol(r.to));
      MoreNodes(g, PackageSymbol(r.to));
      if r.to in h.nodeIndex {
        var link := Link(g.nodeIndex[r.from], h.nodeIndex[r.to], MetaOf(r));
        OneMoreLink(h, link.source, link.target, link.meta);
        assert WithRelationship(g, r) == h.(links := h.links + [link]);
      } else {
        assert WithRelationship(g, r) == h;
      }
    } else {
      assert WithRelationship(g, r) == g;
    }
  }

  lemma MoreNodes(g: GraphView, s: Symbol)
    requires Sound(g)
    ensures |g.nodes| <= |WithSymbol(g, s).nodes|
    ensures forall id :: id in g.nodeIndex ==> g.nodeIndex[id] < |g.nodes|
  {
    assert IndexIsInverse(g);
    hide Indexed, Unindexed, Sound, Lands;
  }

  lemma OneMoreLink(g: GraphView, source: nat, target: nat, meta: Meta)
    requires Sound(g) && source < |g.nodes| && target in g.nodeIndex.Values
    ensures Sound(g.(links := g.links + [Link(source, target, meta)]))
  {
    LinksStaySound(g, g.links + [Link(source, target, meta)]);
  }

  lemma FileRemovedStaysSound(g: GraphView, file: string, h: GraphView)
    requires Sound(g) && FileRemoved(g, file, h)
    ensures Sound(h)
  {
    hide Without, Reached, Lands;
    var ids := At(g.fileIndex, file);
    InverseIsDistinct(g);
    InverseIsDistinct(h);
    SoundLists(g);
    SoundLists(h);
    RemovedListTruly(g, file, h);
    hide Sound, ListsTruly, RemovedFrom;
    assert RemovedFrom(g, file) <= Members(ids) by { RemovedAreMembers(g, file); }
    forall id | id in h.symbols ensures id in h.nodeIndex && h.symbols[id].id == id {
      assert id in g.symbols && id !in Members(ids);
      assert id in g.nodes;
      assert id in h.nodes;
    }
  }

  lemma RemovedAreMembers(g: GraphView, file: string)
    ensures RemovedFrom(g, file) <= Members(At(g.fileIndex, file))
  {
  }

  lemma RemovedListTruly(g: GraphView, file: string, h: GraphView)
    requires LinksLand(g) && FileRemoved(g, file, h)
    requires ListsTruly(g.nameIndex, g.symbols, NameOf) && ListsTruly(g.fileIndex, g.symbols, FileOf)
    ensures ListsTruly(h.nameIndex, h.symbols, NameOf) && ListsTruly(h.fileIndex, h.symbols, FileOf)
  {
    hide Without, Reached, RemovedFrom, Lands, IndexIsInverse;
    var ids := At(g.fileIndex, file);
    forall f, id | Lists(h.fileIndex, f, id) ensures id in h.symbols && FileOf(h.symbols[id]) == f {
      assert Lists(g.fileIndex, f, id);
      assert id in Members(ids) ==> Lists(g.fileIndex, file, id);
    }
  }

  lemma EdgesRemovedStaysSound(g: GraphView, file: string, h: GraphView)
    requires Sound(g) && h == g.(links := h.links) && FileEdgesRemoved(g.links, file, h.links)
    ensures Sound(h)
  {
    forall l | l in h.links ensures l in g.links {
      assert multiset(h.links)[l] <= multiset(g.links)[l];
    }
    LinksStaySound(g, h.links);
    hide *;
  }

  /** Whatever is added and removed, in whatever order, the graph stays sound: the
      node index is exact, no edge dangles, and no index names what is not there. */
  lemma {:induction false} RunsStaySound(ops: seq<Op>, states: seq<GraphView>, k: nat)
    requires IsRun(ops, states) && k < |states|
    ensures Sound(states[k])
  {
    if k == 0 {
      EmptyIsWellFormed();
      WellFormedIsSound(EMPTY);
    } else {
      RunsStaySound(ops, states, k - 1);
      var g, h := states[k - 1], states[k];
      hide Sound, WithSymbol, WithRelationship, FileRemoved, FileEdgesRemoved;
      assert Steps(states[k - 1], ops[k - 1], states[k - 1 + 1]);
      match ops[k - 1]
      case AddSymbolOp(s) => WithSymbolStaysSound(g, s);
      case AddRelationshipOp(r) => WithRelationshipStaysSound(g, r);
      case RemoveFileOp(file) => FileRemovedStaysSound(g, file, h);
      case RemoveRelationshipsOp(file) => EdgesRemovedStaysSound(g, file, h);
    }
  }

  /** While nothing has been removed, every index is exact as well. */
  lemma {:induction false} AddingRunsAreExact(ops: seq<Op>, states: seq<GraphView>, k: nat)
    requires IsRun(ops, states) && k < |states|
    requires forall op :: op in ops ==> op.AddSymbolOp? || op.AddRelationshipOp?
    ensures WellFormed(states[k])
  {
    if k == 0 {
      EmptyIsWellFormed();
    } else {
      AddingRunsAreExact(ops, states, k - 1);
      var g, op := states[k - 1], ops[k - 1];
      assert op in ops;
      hide WellFormed, WithSymbol, WithRelationship, FileRemoved, FileEdgesRemoved;
      assert Steps(states[k - 1], ops[k - 1], states[k - 1 + 1]);
      if op.AddSymbolOp? {
        WithSymbolKeeps(g, op.symbol);
      } else {
        WithRelationshipKeeps(g, op.relationship);
      }
    }
  }

  /** A graph that some run arrives at. */
  ghost predicate IsState(g: GraphView) { exists ops, states :: IsRun(ops, states) && g == states[|ops|] }

  lemma EmptyIsState()
    ensures IsState(EMPTY)
  {
    assert IsRun([], [EMPTY]);
  }

  lemma NextIsState(g: GraphView, op: Op, h: GraphView)
    requires IsState(g) && Steps(g, op, h)
    ensures IsState(h)
  {
    hide Steps;
    var ops, states :| IsRun(ops, states) && g == states[|ops|];
    assert IsRun(ops + [op], states + [h]);
  }

  lemma StateIsSound(g: GraphView)
    requires IsState(g)
    ensures Sound(g)
  {
    var ops, states :| IsRun(ops, states) && g == states[|ops|];
    RunsStaySound(ops, states, |ops|);
    hide *;
  }

  // ── what removing a file leaves ─────────────────────────────

  /** Nothing of any other file is removed: not a node, not a symbol, and not an
      edge between them. */
  lemma OtherFilesStay(g: GraphView, file: string, h: GraphView, id: SymbolId)
    requires Sound(g) && FileRemoved(g, file, h)
    requires id in g.symbols && g.symbols[id].file != file
    ensures id in h.nodes && id in h.nodeIndex && id in h.symbols && h.symbols[id] == g.symbols[id]
    ensures forall e: NamedEdge :: e.from == id && e.to in g.symbols && g.symbols[e.to].file != file ==>
      Count(h.nodes, h.links, e) == Count(g.nodes, g.links, e)
  {
    hide Count, Reached;
    InverseIsDistinct(g);
    InverseIsDistinct(h);
    forall x | x in Members(At(g.fileIndex, file)) ensures x in g.symbols && g.symbols[x].file == file {
      assert Lists(g.fileIndex, file, x);
    }
  }

  lemma LeftoverNodes(g: GraphView, file: string, h: GraphView)
    requires WellFormed(g) && FileRemoved(g, file, h)
    ensures WeightsAreKeys(h) <==> RemovedFrom(g, file) == Members(At(g.fileIndex, file))
  {
    hide Without, Lands;
    var ids := Members(At(g.fileIndex, file));
    InverseIsDistinct(g);
    InverseIsDistinct(h);
    assert RemovedFrom(g, file) <= ids;
    hide Reached, RemovedFrom, InOrderEach;
    forall id | id in ids ensures id in g.nodes { assert Lists(g.fileIndex, file, id); }
    if id :| id in ids && id !in RemovedFrom(g, file) {
      assert id in h.nodeIndex && id !in h.symbols;
    } else {
      assert RemovedFrom(g, file) == ids;
    }
  }

  lemma RemovedIndexesStayExact(g: GraphView, file: string, h: GraphView)
    requires WellFormed(g) && FileRemoved(g, file, h)
    ensures IndexesAreExact(h)
  {
    hide Without, Lands, RemovedFrom, IndexIsInverse;
    var ids := At(g.fileIndex, file);
    forall id ensures id in Members(ids) <==> id in g.symbols && g.symbols[id].file == file {
      assert Lists(g.fileIndex, file, id) <==> id in Members(ids);
    }
    forall f, id ensures Lists(h.fileIndex, f, id) <==> Lists(g.fileIndex, f, id) && f != file { }
  }

  /** Removing a file leaves a well-formed graph exactly when each of its nodes, in
      id order, stood far enough from the end of the node vector for its turn. The
      last of its nodes to be indexed are otherwise left behind. */
  lemma RemovalIsCompleteExactly(g: GraphView, file: string, h: GraphView)
    requires WellFormed(g) && FileRemoved(g, file, h)
    ensures WellFormed(h) <==> FarEnough(At(g.fileIndex, file), g.nodeIndex, |g.nodes|)
  {
    var ids := At(g.fileIndex, file);
    StrictIsDifferent(ids);
    AllReachedExactly(ids, g.nodeIndex, |g.nodes|);
    LeftoverNodes(g, file, h);
    RemovedIndexesStayExact(g, file, h);
    hide WeightsAreKeys, IndexesAreExact, Without, FarEnough;
  }

  /** The cost of a node left behind: when its symbol is added again, the graph takes
      it for a replacement, and the file it is in is listed without it. */
  lemma ReaddedIsListedExactly(g: GraphView, file: string, h: GraphView, s: Symbol)
    requires WellFormed(g) && FileRemoved(g, file, h)
    requires s.id in g.symbols && g.symbols[s.id].file == file
    ensures Lists(WithSymbol(h, s).fileIndex, s.file, s.id) <==> s.id in RemovedFrom(g, file)
    ensures Lists(WithSymbol(h, s).nameIndex, s.name, s.id) <==> s.id in RemovedFrom(g, file)
  {
    LeftBehindExactly(g, file, h, s.id);
    RemovedIndexesStayExact(g, file, h);
    hide FileRemoved, WellFormed, RemovedFrom, InOrderEach, Indexed;
    IndexedMembers(h.nameIndex, s.name, s.id);
    IndexedMembers(h.fileIndex, s.file, s.id);
  }

  lemma LeftBehindExactly(g: GraphView, file: string, h: GraphView, id: SymbolId)
    requires WellFormed(g) && FileRemoved(g, file, h) && id in g.symbols && g.symbols[id].file == file
    ensures id !in h.symbols
    ensures id in h.nodeIndex <==> id !in RemovedFrom(g, file)
  {
    hide Without, Reached, RemovedFrom, Lands;
    InverseIsDistinct(g);
    InverseIsDistinct(h);
    assert Lists(g.fileIndex, file, id) && id in Members(At(g.fileIndex, file));
  }

  /** Of a file whose `k` symbols were the last to be indexed, and in id order, the
      second half of the nodes is left behind. */
  lemma LastFileIsHalfRemoved(g: GraphView, file: string)
    requires var ids := At(g.fileIndex, file);
      && |ids| <= |g.nodes|
      && forall j :: 0 <= j < |ids| ==> ids[j] in g.nodeIndex && g.nodeIndex[ids[j]] == |g.nodes| - |ids| + j
    requires Different(At(g.fileIndex, file))
    ensures var ids := At(g.fileIndex, file); RemovedFrom(g, file) == Members(ids[..(|ids| + 1) / 2])
  {
    var ids := At(g.fileIndex, file);
    HalfReached(ids, g.nodeIndex, |g.nodes|, |ids|);
    assert ids[..|ids|] == ids;
  }

  lemma {:induction false} HalfReached(ids: seq<SymbolId>, at: map<SymbolId, nat>, n: nat, m: nat)
    requires m <= |ids| <= n && Different(ids)
    requires forall j :: 0 <= j < |ids| ==> ids[j] in at && at[ids[j]] == n - |ids| + j
    ensures var half := (|ids| + 1) / 2; Reached(ids[..m], at, n) == Members(ids[..if m <= half then m else half])
  {
    hide Reached, Different;
    if m == 0 {
      NothingReached(at, n);
      assert ids[..0] == [];
    } else {
      HalfReached(ids, at, n, m - 1);
      HalfStep(ids, at, n, m);
    }
  }

  lemma NothingReached(at: map<SymbolId, nat>, n: nat)
    ensures Reached([], at, n) == Members([]) == {}
  {
  }

  lemma HalfStep(ids: seq<SymbolId>, at: map<SymbolId, nat>, n: nat, m: nat)
    requires 0 < m <= |ids| <= n && Different(ids)
    requires ids[m - 1] in at && at[ids[m - 1]] == n - |ids| + m - 1
    requires var half := (|ids| + 1) / 2;
      Reached(ids[..m - 1], at, n) == Members(ids[..if m - 1 <= half then m - 1 else half])
    ensures var half := (|ids| + 1) / 2; Reached(ids[..m], at, n) == Members(ids[..if m <= half then m else half])
  {
    hide Reached, Members, Different;
    var half := (|ids| + 1) / 2;
    ReachedStep(ids, at, n, m);
    if m - 1 < half {
      PrefixCounts(ids, m - 1);
      OneMoreMember(ids, m - 1);
    } else {
      PrefixCounts(ids, half);
    }
  }

  lemma PrefixCounts(ids: seq<SymbolId>, m: nat)
    requires m <= |ids| && Different(ids)
    ensures |Members(ids[..m])| == m
  {
    MembersCount(ids[..m]);
  }

  lemma OneMoreMember(ids: seq<SymbolId>, m: nat)
    requires m < |ids|
    ensures Members(ids[..m + 1]) == Members(ids[..m]) + {ids[m]}
  {
    assert ids[..m + 1] == ids[..m] + [ids[m]];
  }

  lemma ReachedStep(ids: seq<SymbolId>, at: map<SymbolId, nat>, n: nat, m: nat)
    requires 0 < m <= |ids| && ids[m - 1] in at
    ensures var before := Reached(ids[..m - 1], at, n);
      Reached(ids[..m], at, n) == if at[ids[m - 1]] + |before| < n then before + {ids[m - 1]} else before
  {
    assert ids[..m][..m - 1] == ids[..m - 1];
  }

  function Sample(id: SymbolId): Symbol { Symbol(id, id, Function, Rust, "f", 1, 1, None) }

  const SAMPLE: GraphView := WithSymbol(WithSymbol(EMPTY, Sample("a")), Sample("b"))

  lemma SampleIsWellFormed()
    ensures WellFormed(SAMPLE)
  {
    hide WellFormed, WithSymbol;
    EmptyIsWellFormed();
    WithSymbolKeeps(EMPTY, Sample("a"));
    WithSymbolKeeps(WithSymbol(EMPTY, Sample("a")), Sample("b"));
  }

  lemma SampleIsState()
    ensures IsState(SAMPLE)
  {
    hide WithSymbol, IsState;
    EmptyIsState();
    NextIsState(EMPTY, AddSymbolOp(Sample("a")), WithSymbol(EMPTY, Sample("a")));
    NextIsState(WithSymbol(EMPTY, Sample("a")), AddSymbolOp(Sample("b")), SAMPLE);
  }

  lemma SampleOrder()
    ensures Dedup(SortBy(TextKey, ["a"] + ["b"])) == ["a", "b"]
  {
    var xs := ["a"] + ["b"];
    assert xs[1..] == ["b"];
    assert CharsLe("a", "b");
    assert SortBy(TextKey, ["b"]) == ["b"];
    assert SortBy(TextKey, xs) == ["a", "b"];
    assert ["a", "b"][1..] == ["b"];
  }

  lemma SampleIds()
    ensures WellFormed(SAMPLE) && At(SAMPLE.fileIndex, "f") == ["a", "b"]
    ensures SAMPLE.nodeIndex == map["a" := 0, "b" := 1] && |SAMPLE.nodes| == 2
  {
    hide WellFormed, SortBy, Dedup;
    SampleIsWellFormed();
    SampleOrder();
    assert WithSymbol(EMPTY, Sample("a")).fileIndex == map["f" := ["a"]];
  }

  lemma SampleRemovedIsState(h: GraphView)
    requires LinksLand(SAMPLE) && FileRemoved(SAMPLE, "f", h)
    ensures IsState(SAMPLE) && IsState(h)
  {
    hide IsState, FileRemoved, SAMPLE;
    SampleIsState();
    NextIsState(SAMPLE, RemoveFileOp("f"), h);
  }

  lemma SampleHalf()
    ensures RemovedFrom(SAMPLE, "f") == Members(["a", "b"][..1])
  {
    SampleIds();
    hide RemovedFrom, WellFormed, SAMPLE;
    LastFileIsHalfRemoved(SAMPLE, "f");
  }

  /** Two symbols in one file are enough: removing the file leaves the second one's
      node behind, and adding its symbol again does not bring it back to the file. */
  lemma TwoSymbolsAreEnough(h: GraphView)
    requires LinksLand(SAMPLE) && FileRemoved(SAMPLE, "f", h)
    ensures IsState(SAMPLE) && IsState(h)
    ensures "b" in h.nodes && "b" !in h.symbols
    ensures !Lists(WithSymbol(h, Sample("b")).fileIndex, "f", "b")
  {
    hide IsState;
    SampleRemovedIsState(h);
    SampleHalf();
    SampleIds();
    ReaddedIsListedExactly(SAMPLE, "f", h, Sample("b"));
  }

  /** The same holds of edges: of two edges in one file, one stays. */
  lemma TwoEdgesAreEnough(a: Link, b: Link, file: string, links: seq<Link>)
    requires InFile(a, file) && InFile(b, file) && FileEdgesRemoved([a, b], file, links)
    ensures !NoneLeft(links, file)
  {
    EdgesGoneExactly([a, b], file, links);
    TwoPositions(a, b, file);
    hide *;
  }

  lemma TwoPositions(a: Link, b: Link, file: string)
    requires InFile(a, file) && InFile(b, file)
    ensures Positions([a, b], file) == [0, 1]
  {
    assert [a, b][..1] == [a] && [a][..0] == [];
    assert Positions([a], file) == [0];
  }
}
