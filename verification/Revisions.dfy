/** The two tables of the store (sqlite.rs): one optional graph, and the revisions,
    kept in the order they were last written. */
module Revisions {
  import opened Wrappers
  import opened Bytes
  import opened Codec
  import opened CodecLaws
  import opened SnapshotIo
  import opened Recency

  datatype RevisionEntry = RevisionEntry(revision: string, sequence: nat)

  type Rows = Entries<seq<byte>>

  /** The revision names, newest first, with their sequence numbers. */
  ghost predicate Enumerates(rows: Rows, order: seq<Entry<seq<byte>>>, entries: seq<RevisionEntry>) {
    && |entries| == |order|
    && (forall i :: 0 <= i < |order| ==> order[i].key in rows)
    && (forall i :: 0 <= i < |order| ==> entries[i] == RevisionEntry(order[i].key, rows[order[i].key].stamp))
  }

  /** The row that sorts first. No two share a sequence, so names break no ties. */
  method Foremost(rows: Rows, rest: set<string>) returns (best: string)
    requires rest != {} && rest <= rows.Keys
    ensures best in rest && forall k :: k in rest ==> rows[k].stamp <= rows[best].stamp
  {
    best :| best in rest;
    var left := rest - {best};
    while left != {}
      invariant left <= rest && best in rest
      invariant forall k :: k in rest - left ==> rows[k].stamp <= rows[best].stamp
      decreases left
    {
      var k :| k in left;
      left := left - {k};
      if rows[k].stamp > rows[best].stamp { best := k; }
    }
  }

  lemma {:induction false} FrontIsNewest(rows: Rows, order: seq<Entry<seq<byte>>>, key: string)
    requires Lists(rows, order) && key in rows
    requires forall k :: k in rows ==> rows[k].stamp <= rows[key].stamp
    ensures |order| > 0 && order[0].key == key
  {
  }

  function Only(rows: Rows, names: set<string>): Rows { map k | k in rows && k in names :: rows[k] }

  /** The rows listed so far are the front of the order, and `rest` is behind them. */
  ghost predicate Listing(rows: Rows, rest: set<string>, order: seq<Entry<seq<byte>>>, entries: seq<RevisionEntry>) {
    && |entries| <= |order| && rest <= rows.Keys
    && Lists(Only(rows, rest), order[|entries|..])
    && Enumerates(rows, order[..|entries|], entries)
  }

  lemma StartListing(rows: Rows, order: seq<Entry<seq<byte>>>)
    requires Lists(rows, order)
    ensures Listing(rows, rows.Keys, order, [])
  {
    assert Only(rows, rows.Keys) == rows && order[0..] == order && order[..0] == [];
  }

  lemma NextListing(rows: Rows, rest: set<string>, order: seq<Entry<seq<byte>>>, entries: seq<RevisionEntry>, best: string)
    requires Listing(rows, rest, order, entries) && best in rest
    requires forall k :: k in rest ==> rows[k].stamp <= rows[best].stamp
    ensures Listing(rows, rest - {best}, order, entries + [RevisionEntry(best, rows[best].stamp)])
  {
    var n := |entries|;
    var left := Only(rows, rest);
    FrontIsNewest(left, order[n..], best);
    SplitOrder(order, n);
    assert left - {best} == Only(rows, rest - {best});
    hide Lists, Only;
    assert order[n].key == best;
  }

  lemma SplitOrder(order: seq<Entry<seq<byte>>>, n: nat)
    requires n < |order|
    ensures order[n..][0] == order[n] && order[n..][1..] == order[n + 1..]
    ensures order[..n + 1] == order[..n] + [order[n]]
  {
  }

  lemma DoneListing(rows: Rows, order: seq<Entry<seq<byte>>>, entries: seq<RevisionEntry>)
    requires Listing(rows, {}, order, entries)
    ensures Enumerates(rows, order, entries)
  {
    ListsCounts(Only(rows, {}), order[|entries|..]);
    assert Only(rows, {}) == map[];
    assert order[..|entries|] == order;
  }

  method Enumerate(rows: Rows, ghost order: seq<Entry<seq<byte>>>) returns (entries: seq<RevisionEntry>)
    requires Lists(rows, order)
    ensures Enumerates(rows, order, entries)
  {
    entries := [];
    var rest := rows.Keys;
    StartListing(rows, order);
    hide Listing, Lists, Enumerates;
    while rest != {}
      invariant rest <= rows.Keys && Listing(rows, rest, order, entries)
      decreases rest
    {
      var best := Foremost(rows, rest);
      NextListing(rows, rest, order, entries, best);
      rest := rest - {best};
      entries := entries + [RevisionEntry(best, rows[best].stamp)];
    }
    DoneListing(rows, order, entries);
  }

  /** Sequence numbers strictly fall from the front. */
  lemma {:induction false} SequencesFall(rows: Rows, order: seq<Entry<seq<byte>>>, i: nat, j: nat)
    requires Lists(rows, order) && i < j < |order|
    ensures order[i].key in rows && order[j].key in rows
    ensures order[i].key != order[j].key && rows[order[i].key].stamp > rows[order[j].key].stamp
  {
    var top := order[0].key;
    ListedIsPresent(rows - {top}, order[1..], j - 1);
    if i > 0 { SequencesFall(rows - {top}, order[1..], i - 1, j - 1); }
  }

  lemma {:induction false} ListedIsPresent(rows: Rows, order: seq<Entry<seq<byte>>>, i: nat)
    requires Lists(rows, order) && i < |order|
    ensures order[i].key in rows && rows[order[i].key].value == order[i].value
  {
    if i > 0 { ListedIsPresent(rows - {order[0].key}, order[1..], i - 1); }
  }

  // ── the store ───────────────────────────────────────────────

  function BytesOf(x: GraphSnapshot): seq<byte> { WriteSnapshot(SNAPSHOT_VERSION, x) }

  /** What reading a stored blob, or finding none, answers. */
  predicate Reads(stored: seq<seq<byte>>, r: Result<GraphSnapshot, StoreError>) {
    if stored == [] then r == Err(SnapshotNotFound)
    else match ReadSnapshot(stored[0])
      case None => r.Err?
      case Some(x) => r == Ok(x)
  }

  class GraphStore {
    var graph: Option<seq<byte>>
    var revisions: Rows
    ghost var order: seq<Entry<seq<byte>>>

    ghost predicate Valid()
      reads this
    {
      Lists(revisions, order)
    }

    constructor ()
      ensures Valid() && graph == None && order == []
    {
      graph, revisions, order := None, map[], [];
    }

    method SaveSnapshot(snapshot: GraphSnapshot) returns (r: Result<(), StoreError>)
      modifies this`graph
      ensures r.Ok? <==> SpellsSnapshot(snapshot)
      ensures graph == if r.Ok? then Some(BytesOf(snapshot)) else old(graph)
    {
      hide SpellsSnapshot, BytesOf, WriteSnapshot;
      var bytes :- ToBytes(snapshot);
      BytesAre(snapshot, bytes);
      graph := Some(bytes);
      r := Ok(());
    }

    method LoadSnapshot() returns (r: Result<GraphSnapshot, StoreError>)
      ensures Reads(if graph.Some? then [graph.value] else [], r)
    {
      hide ReadSnapshot;
      if graph.None? {
        return Err(SnapshotNotFound);
      }
      r := FromBytes(graph.value);
    }

    /** One more than the highest sequence present. */
    method NextSequence() returns (next: nat)
      ensures forall k :: k in revisions ==> revisions[k].stamp < next
      ensures next == 1 || exists k :: k in revisions && revisions[k].stamp == next - 1
    {
      var current := 0;
      var rest := revisions.Keys;
      while rest != {}
        invariant rest <= revisions.Keys
        invariant forall k :: k in revisions && k !in rest ==> revisions[k].stamp <= current
        invariant current == 0 || exists k :: k in revisions && revisions[k].stamp == current
        decreases rest
      {
        var k :| k in rest;
        rest := rest - {k};
        if revisions[k].stamp > current { current := revisions[k].stamp; }
      }
      next := current + 1;
    }

    /** The revision becomes the most recent, whether it is new or rewritten; one
        that does not encode changes nothing. */
    method SaveRevision(revision: string, snapshot: GraphSnapshot) returns (r: Result<(), StoreError>)
      requires Valid()
      modifies this`revisions, this`order
      ensures Valid() && (r.Ok? <==> SpellsSnapshot(snapshot))
      ensures order == if r.Ok? then Put(old(order), revision, BytesOf(snapshot)) else old(order)
    {
      hide Put, SpellsSnapshot, BytesOf, Lists;
      var sequence := NextSequence();
      var bytes :- ToBytes(snapshot);
      BytesAre(snapshot, bytes);
      PutLists(revisions, order, revision, bytes, sequence);
      revisions := revisions[revision := Stamped(bytes, sequence)];
      order := Put(order, revision, bytes);
      r := Ok(());
    }

    method LoadRevision(revision: string) returns (r: Result<GraphSnapshot, StoreError>)
      requires Valid()
      ensures Reads(Lookup(order, revision), r)
    {
      hide ReadSnapshot;
      LookupAgrees(revisions, order, revision);
      if revision !in revisions {
        return Err(SnapshotNotFound);
      }
      r := FromBytes(revisions[revision].value);
    }

    method ListRevisions() returns (entries: seq<RevisionEntry>)
      requires Valid()
      ensures Enumerates(revisions, order, entries)
    {
      entries := Enumerate(revisions, order);
    }

    method DeleteRevision(revision: string)
      requires Valid()
      modifies this`revisions, this`order
      ensures Valid() && order == Without(old(order), revision)
    {
      RemoveLists(revisions, order, revision);
      revisions := revisions - {revision};
      order := Without(order, revision);
    }

    /** Keeps the `keep` newest, and names the rest in the order they went. */
    method PruneRevisions(keep: nat) returns (stale: seq<string>)
      requires Valid()
      modifies this`revisions, this`order
      ensures Valid() && order == Newest(old(order), keep)
      ensures |stale| == |old(order)| - |order|
      ensures forall i :: 0 <= i < |stale| ==> stale[i] == old(order)[keep + i].key
    {
      hide Lists, Without;
      ghost var before := order;
      var entries := ListRevisions();
      var kept := if keep <= |entries| then keep else |entries|;
      stale := [];
      for i := kept to |entries|
        invariant |stale| == i - kept && forall j :: 0 <= j < |stale| ==> stale[j] == before[kept + j].key
      {
        stale := stale + [entries[i].revision];
      }
      assert before == before[..kept] + before[kept..];
      for i := 0 to |stale|
        invariant Valid() && order == before[..kept] + before[kept + i..]
      {
        NextStale(revisions, order, before, kept, i);
        DeleteRevision(stale[i]);
      }
      assert before[kept + |stale|..] == [];
    }
  }

  lemma {:induction false} WithoutAt(rows: Rows, order: seq<Entry<seq<byte>>>, i: nat)
    requires Lists(rows, order) && i < |order|
    ensures Without(order, order[i].key) == order[..i] + order[i + 1..]
  {
    var top := order[0].key;
    if i == 0 {
      WithoutMissing(rows - {top}, order[1..], top);
    } else {
      SequencesFall(rows, order, 0, i);
      WithoutAt(rows - {top}, order[1..], i - 1);
      assert order[..i] == [order[0]] + order[1..][..i - 1];
    }
  }

  lemma NextStale(
    rows: Rows, order: seq<Entry<seq<byte>>>, before: seq<Entry<seq<byte>>>, kept: nat, i: nat)
    requires kept + i < |before| && Lists(rows, order) && order == before[..kept] + before[kept + i..]
    ensures Without(order, before[kept + i].key) == before[..kept] + before[kept + i + 1..]
  {
    hide Lists, Without;
    WithoutAt(rows, order, kept);
    assert order[kept] == before[kept + i];
    assert order[..kept] == before[..kept] && order[kept + 1..] == before[kept + i + 1..];
  }

  lemma BytesAre(x: GraphSnapshot, bytes: seq<byte>)
    requires bytes == WriteSnapshot(SNAPSHOT_VERSION, x)
    ensures bytes == BytesOf(x)
  {
  }

  /** A revision that was saved and fits the format is what loading it returns, and
      pruning to one or more revisions right after does not change that. */
  method SaveThenPrune(store: GraphStore, revision: string, snapshot: GraphSnapshot, keep: nat)
    returns (r: Result<GraphSnapshot, StoreError>)
    requires store.Valid() && keep >= 1
    modifies store
    ensures store.Valid() && (Fits(SNAPSHOT_VERSION, snapshot) ==> r == Ok(snapshot))
    ensures r.Ok? ==> store.order == Newest(Put(old(store.order), revision, BytesOf(snapshot)), keep)
  {
    hide SpellsSnapshot, BytesOf, Lists;
    var saved := store.SaveRevision(revision, snapshot);
    if saved.Err? {
      UnsavedDoesNotFit(snapshot);
      return Err(saved.error);
    }
    SavedComesFirst(store.order, revision, BytesOf(snapshot), keep);
    var _ := store.PruneRevisions(keep);
    r := store.LoadRevision(revision);
    ReadsBack(snapshot, r);
  }

  lemma UnsavedDoesNotFit(x: GraphSnapshot)
    requires !SpellsSnapshot(x)
    ensures !Fits(SNAPSHOT_VERSION, x)
  {
    hide Fits, SpellsSnapshot;
    if Fits(SNAPSHOT_VERSION, x) { FitsSpells(x); }
  }

  lemma SavedComesFirst(order: seq<Entry<seq<byte>>>, revision: string, bytes: seq<byte>, keep: nat)
    requires |order| > 0 && order[0] == Entry(revision, bytes) && keep >= 1
    ensures Lookup(order, revision) == [bytes] && Lookup(Newest(order, keep), revision) == [bytes]
  {
  }

  lemma ReadsBack(x: GraphSnapshot, r: Result<GraphSnapshot, StoreError>)
    requires Reads([BytesOf(x)], r)
    ensures Fits(SNAPSHOT_VERSION, x) ==> r == Ok(x)
  {
    LosslessExactly(x);
    hide Fits, ReadSnapshot, WriteSnapshot;
  }

  // ── whole runs ──────────────────────────────────────────────

  datatype Op = SaveOp(revision: string, snapshot: GraphSnapshot) | DeleteOp(revision: string) | PruneOp(keep: nat)

  function Apply(order: seq<Entry<seq<byte>>>, op: Op): seq<Entry<seq<byte>>> {
    match op
    case SaveOp(revision, x) => if SpellsSnapshot(x) then Put(order, revision, BytesOf(x)) else order
    case DeleteOp(revision) => Without(order, revision)
    case PruneOp(keep) => Newest(order, keep)
  }

  function Run(ops: seq<Op>): seq<Entry<seq<byte>>> {
    if |ops| == 0 then [] else Apply(Run(ops[..|ops| - 1]), ops[|ops| - 1])
  }

  predicate Writes(op: Op, revision: string) {
    op.SaveOp? && op.revision == revision && SpellsSnapshot(op.snapshot)
  }

  /** Which operation last wrote a revision, counting from one. */
  function LastWrite(ops: seq<Op>, revision: string): (n: nat)
    ensures n <= |ops| && (n > 0 ==> Writes(ops[n - 1], revision))
  {
    if |ops| == 0 then 0
    else if Writes(ops[|ops| - 1], revision) then |ops|
    else LastWrite(ops[..|ops| - 1], revision)
  }

  /** Each revision once, the last written first, holding what was last written. */
  ghost predicate InWriteOrder(ops: seq<Op>, order: seq<Entry<seq<byte>>>) {
    && (forall i :: 0 <= i < |order| ==> IsLastWritten(ops, order[i]))
    && forall i, j :: 0 <= i < j < |order| ==> LastWrite(ops, order[i].key) > LastWrite(ops, order[j].key)
  }

  predicate IsLastWritten(ops: seq<Op>, e: Entry<seq<byte>>) {
    var n := LastWrite(ops, e.key);
    n > 0 && e.value == BytesOf(ops[n - 1].snapshot)
  }

  lemma OrderWithout(ops: seq<Op>, order: seq<Entry<seq<byte>>>, key: string)
    requires InWriteOrder(ops, order)
    ensures InWriteOrder(ops, Without(order, key)) && forall e :: e in Without(order, key) ==> e.key != key
  {
    hide LastWrite, IsLastWritten, Without;
    var at := WithoutKeeps(order, key);
  }

  /** An operation that writes none of these revisions leaves them in order. */
  lemma OrderExtends(ops: seq<Op>, order: seq<Entry<seq<byte>>>)
    requires |ops| > 0 && InWriteOrder(ops[..|ops| - 1], order)
    requires forall e :: e in order ==> !Writes(ops[|ops| - 1], e.key)
    ensures InWriteOrder(ops, order)
  {
    hide SpellsSnapshot, BytesOf;
    forall i | 0 <= i < |order| ensures LastWrite(ops, order[i].key) == LastWrite(ops[..|ops| - 1], order[i].key) {
      assert order[i] in order;
    }
  }

  lemma WrittenFirst(ops: seq<Op>, order: seq<Entry<seq<byte>>>)
    requires |ops| > 0 && InWriteOrder(ops[..|ops| - 1], order)
    requires ops[|ops| - 1].SaveOp? && Writes(ops[|ops| - 1], ops[|ops| - 1].revision)
    ensures InWriteOrder(ops, Put(order, ops[|ops| - 1].revision, BytesOf(ops[|ops| - 1].snapshot)))
  {
    hide SpellsSnapshot, BytesOf, Without;
    var key := ops[|ops| - 1].revision;
    OrderWithout(ops[..|ops| - 1], order, key);
    OrderExtends(ops, Without(order, key));
    forall i | 0 <= i < |Without(order, key)| ensures LastWrite(ops, Without(order, key)[i].key) < |ops| {
      assert Without(order, key)[i] in Without(order, key);
    }
  }

  /** After any run of saves, deletes and prunes the revisions are listed by when
      each was last written, though pruning lowers the number the next one gets. */
  lemma {:induction false} RunOrder(ops: seq<Op>)
    ensures InWriteOrder(ops, Run(ops))
  {
    if |ops| > 0 {
      var n := |ops| - 1;
      var before := Run(ops[..n]);
      RunOrder(ops[..n]);
      hide InWriteOrder, BytesOf, SpellsSnapshot, Without;
      match ops[n]
      case SaveOp(revision, x) =>
        if SpellsSnapshot(x) { WrittenFirst(ops, before); } else { OrderExtends(ops, before); }
      case DeleteOp(revision) =>
        OrderWithout(ops[..n], before, revision);
        OrderExtends(ops, Without(before, revision));
      case PruneOp(keep) =>
        OrderExtends(ops, before);
        NewestInOrder(ops, before, keep);
    }
  }

  lemma NewestInOrder(ops: seq<Op>, order: seq<Entry<seq<byte>>>, keep: nat)
    requires InWriteOrder(ops, order)
    ensures InWriteOrder(ops, Newest(order, keep))
  {
    hide LastWrite, IsLastWritten;
  }

  method Perform(store: GraphStore, op: Op)
    requires store.Valid()
    modifies store
    ensures store.Valid() && store.order == Apply(old(store.order), op)
  {
    hide BytesOf, SpellsSnapshot, Without, Lists;
    match op {
      case SaveOp(revision, x) => var _ := store.SaveRevision(revision, x);
      case DeleteOp(revision) => store.DeleteRevision(revision);
      case PruneOp(keep) => var _ := store.PruneRevisions(keep);
    }
  }

  /** Any run, played on a fresh store: what is listed at the end is what is present,
      the last written first, under strictly falling sequence numbers. */
  method Replay(ops: seq<Op>) returns (entries: seq<RevisionEntry>)
    ensures |entries| == |Run(ops)|
    ensures forall i :: 0 <= i < |entries| ==> entries[i].revision == Run(ops)[i].key && LastWrite(ops, entries[i].revision) > 0
    ensures forall i, j :: 0 <= i < j < |entries| ==>
      entries[i].sequence > entries[j].sequence
      && LastWrite(ops, entries[i].revision) > LastWrite(ops, entries[j].revision)
  {
    hide Lists, Apply, LastWrite, IsLastWritten;
    var store := new GraphStore();
    for i := 0 to |ops|
      invariant fresh(store) && store.Valid() && store.order == Run(ops[..i])
    {
      assert ops[..i + 1][..i] == ops[..i];
      Perform(store, ops[i]);
    }
    assert ops[..|ops|] == ops;
    entries := store.ListRevisions();
    RunOrder(ops);
    forall i, j | 0 <= i < j < |entries| ensures entries[i].sequence > entries[j].sequence {
      SequencesFall(store.revisions, store.order, i, j);
    }
    forall i | 0 <= i < |entries| ensures LastWrite(ops, entries[i].revision) > 0 {
      LastWritten(ops, Run(ops)[i]);
    }
  }

  lemma LastWritten(ops: seq<Op>, e: Entry<seq<byte>>)
    requires IsLastWritten(ops, e)
    ensures LastWrite(ops, e.key) > 0
  {
  }
}
