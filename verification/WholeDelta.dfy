/** The two halves of a comparison joined on graphs (delta.rs, `compute`). */
module WholeDelta {
  import opened Ordering
  import opened GraphModel
  import Continuity
  import Delta
  import EdgeDelta

  datatype GraphDelta = GraphDelta(
    symbols: Delta.SymbolDelta, addedEdges: seq<EdgeDelta.EdgeRef>, removedEdges: seq<EdgeDelta.EdgeRef>)

  function RefOf(e: NamedEdge): EdgeDelta.EdgeRef {
    EdgeDelta.EdgeRef(e.from, e.to, e.meta.kind, e.meta.file, e.meta.line, e.meta.resolution)
  }

  /** A graph's edges, alias, properties and context left aside, each once. */
  function EdgeSet(g: GraphView): set<EdgeDelta.EdgeRef>
    requires LinksLand(g)
  {
    set e | e in Names(g.nodes, g.links) :: RefOf(e)
  }

  predicate Keyed(g: GraphView) { forall id :: id in g.symbols ==> g.symbols[id].id == id }

  function ChangeOf(cc: Continuity.CharClass, before: GraphView, after: GraphView): Delta.Change {
    Delta.Change(cc, before.symbols, after.symbols)
  }

  ghost predicate IsDelta(cc: Continuity.CharClass, before: GraphView, after: GraphView, d: GraphDelta)
    requires LinksLand(before) && LinksLand(after)
  {
    && Delta.IsSymbolDelta(ChangeOf(cc, before, after), d.symbols)
    && EdgeDelta.IsEdgeDelta(EdgeSet(before), EdgeSet(after), d.addedEdges, d.removedEdges)
  }

  method Compute(cc: Continuity.CharClass, before: GraphView, after: GraphView) returns (d: GraphDelta)
    requires LinksLand(before) && LinksLand(after) && Keyed(before) && Keyed(after)
    ensures IsDelta(cc, before, after, d)
  {
    hide Delta.IsSymbolDelta, EdgeDelta.IsEdgeDelta;
    var symbols := Delta.CompareSymbols(ChangeOf(cc, before, after));
    var added, removed := EdgeDelta.CompareEdges(EdgeSet(before), EdgeSet(after));
    d := GraphDelta(symbols, added, removed);
  }

  predicate IsEmpty(d: GraphDelta) { Delta.IsEmpty(d.symbols) && d.addedEdges == [] && d.removedEdges == [] }

  /** How often a graph has an edge of an identity, told by its distinct lines. */
  function Held(g: GraphView, id: EdgeDelta.EdgeIdentity): nat
    requires LinksLand(g)
  {
    |EdgeDelta.Share(EdgeSet(g), id)|
  }

  /** What the comparison can tell apart: ids, signatures, and how often each edge is
      held. */
  ghost predicate Alike(g: GraphView, h: GraphView)
    requires LinksLand(g) && LinksLand(h)
  {
    && g.symbols.Keys == h.symbols.Keys
    && (forall id :: id in g.symbols && id in h.symbols ==> g.symbols[id].signature == h.symbols[id].signature)
    && forall id :: Held(g, id) == Held(h, id)
  }

  /** A delta is empty exactly when the comparison cannot tell the graphs apart. */
  lemma EmptyExactly(cc: Continuity.CharClass, before: GraphView, after: GraphView, d: GraphDelta)
    requires LinksLand(before) && LinksLand(after) && Keyed(before) && Keyed(after)
    requires IsDelta(cc, before, after, d)
    ensures IsEmpty(d) <==> Alike(before, after)
  {
    hide Delta.IsSymbolDelta, EdgeDelta.IsEdgeDelta, Delta.IsEmpty, EdgeDelta.Share, EdgeSet;
    Delta.EmptyMeansSame(ChangeOf(cc, before, after), d.symbols);
    EdgeDelta.NothingReported(EdgeSet(before), EdgeSet(after), d.addedEdges, d.removedEdges);
    assert (forall id :: Held(before, id) == Held(after, id)) <==>
      forall id :: |EdgeDelta.Share(EdgeSet(before), id)| == |EdgeDelta.Share(EdgeSet(after), id)| by {
      forall id ensures Held(before, id) == |EdgeDelta.Share(EdgeSet(before), id)| { }
      forall id ensures Held(after, id) == |EdgeDelta.Share(EdgeSet(after), id)| { }
    }
  }

  /** Two graphs have one delta, and it turns on their symbols and the set of their edges
      alone: not on the order either was built in. */
  lemma DeltaIsDetermined(
    cc: Continuity.CharClass, before: GraphView, after: GraphView, d: GraphDelta,
    before': GraphView, after': GraphView, e: GraphDelta)
    requires LinksLand(before) && LinksLand(after) && LinksLand(before') && LinksLand(after')
    requires before.symbols == before'.symbols && EdgeSet(before) == EdgeSet(before')
    requires after.symbols == after'.symbols && EdgeSet(after) == EdgeSet(after')
    requires IsDelta(cc, before, after, d) && IsDelta(cc, before', after', e)
    ensures d == e
  {
    hide EdgeSet, EdgeDelta.Survives;
    StrictOrderIsUnique(EdgeDelta.EdgeKey, d.addedEdges, e.addedEdges);
    StrictOrderIsUnique(EdgeDelta.EdgeKey, d.removedEdges, e.removedEdges);
    hide Delta.IsSymbolDelta, EdgeDelta.IsEdgeDelta;
    Delta.DeltaIsDetermined(ChangeOf(cc, before, after), d.symbols, e.symbols);
  }

  /** A graph compared with itself shows nothing. */
  lemma SameGraphIsEmpty(cc: Continuity.CharClass, g: GraphView, d: GraphDelta)
    requires LinksLand(g) && Keyed(g) && IsDelta(cc, g, g, d)
    ensures IsEmpty(d)
  {
    hide IsDelta, Held;
    EmptyExactly(cc, g, g, d);
  }
}
