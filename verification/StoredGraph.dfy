/** A graph put into the store and read back: to a snapshot, to bytes, and the whole way
    home (sqlite.rs). */
module StoredGraph {
  import opened Wrappers
  import opened GraphModel
  import opened Graph
  import opened Codec
  import opened CodecLaws
  import opened SnapshotIo
  import opened Persistence
  import opened Revisions

  /** One graph holds what the other does: the same symbols, the same edges as often,
      the same side tables, and each symbol's aliases and each file's re-exports. */
  ghost predicate SameContent(g: GraphView, h: GraphView) {
    && LinksLand(g) && LinksLand(h) && g.symbols == h.symbols && g.side == h.side
    && multiset(RelationshipsOf(Names(g.nodes, g.links))) == multiset(RelationshipsOf(Names(h.nodes, h.links)))
    && SortedAliases(g.aliasChains) == SortedAliases(h.aliasChains)
    && SortedReExports(g.fileReexports) == SortedReExports(h.fileReexports)
  }

  lemma RestoredHasContent(g: GraphView, s: GraphSnapshot)
    requires WellFormed(g) && IsSnapshotOf(g, s)
    ensures SameContent(g, Restored(s)) && IsSnapshotOf(Restored(s), s)
  {
    AddedComesBack(g, s);
    RestoredIsWellFormed(s);
    SameSnapshotSameGraph(g, Restored(s), s);
    hide Restored, ListsSymbols, ListsMap, InOrderEach, Lists, SortedAliases, SortedReExports;
  }

  /** What is stored comes back. A graph built by additions, each of whose strings and
      lists has a 32-bit length, is restored from its own bytes with the same content
      and the same snapshot. */
  method StoreAndRestore(store: GraphStore, graph: InvarGraph) returns (r: Result<InvarGraph, StoreError>, ghost s: GraphSnapshot)
    requires WellFormed(graph.View())
    modifies store`graph
    ensures IsSnapshotOf(graph.View(), s)
    ensures Fits(SNAPSHOT_VERSION, s) ==>
      && r.Ok? && fresh(r.value) && WellFormed(r.value.View())
      && IsSnapshotOf(r.value.View(), s) && SameContent(graph.View(), r.value.View())
    ensures !SpellsSnapshot(s) ==> r.Err? && store.graph == old(store.graph)
  {
    hide IndexIsInverse, IndexesAreExact, ReadSnapshot, BytesOf, Fits, IsSnapshotOf, SpellsSnapshot, Restored, SameContent;
    var snapshot := FromGraph(graph.View());
    s := snapshot;
    if Fits(SNAPSHOT_VERSION, s) { FitsSpells(s); }
    r := Err(SnapshotNotFound);
    var saved := store.SaveSnapshot(snapshot);
    if saved.Err? { return Err(saved.error), s; }
    var loaded := store.LoadSnapshot();
    if Fits(SNAPSHOT_VERSION, s) { ReadsBack(s, loaded); }
    if loaded.Err? { return Err(loaded.error), s; }
    var back := IntoGraph(loaded.value);
    RestoredIsWellFormed(loaded.value);
    if Fits(SNAPSHOT_VERSION, s) { RestoredHasContent(graph.View(), s); }
    r := Ok(back);
  }

  lemma ReadsBack(s: GraphSnapshot, r: Result<GraphSnapshot, StoreError>)
    requires Fits(SNAPSHOT_VERSION, s) && Reads([BytesOf(s)], r)
    ensures r == Ok(s)
  {
    LosslessExactly(s);
    hide Fits, ReadSnapshot;
  }
}
