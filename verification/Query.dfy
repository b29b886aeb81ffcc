/** Bounded, filtered breadth-first search, and the rows it reports (query.rs). */
module Query {
  import opened Ir
  import opened GraphModel

  const DEFAULT_DEPTH: nat := 3
  const MAX_DEPTH: nat := 10

  datatype Direction = Incoming | Outgoing

  /** Which edges a question follows: the kinds it asks about, and the weakest
      resolution it trusts. */
  datatype Filter = Filter(kinds: set<RelationshipKind>, floor: Resolution) {
    predicate Admits(e: NamedEdge) { e.meta.kind in kinds && e.meta.resolution.Meets(floor) }
  }

  datatype Walk = Walk(root: SymbolId, dir: Direction, filter: Filter) {
    /** The end a step leaves from, and the end it arrives at. */
    function Near(e: NamedEdge): SymbolId { if dir.Incoming? then e.to else e.from }
    function Far(e: NamedEdge): SymbolId { if dir.Incoming? then e.from else e.to }
  }

  datatype QueryEdge = QueryEdge(edge: NamedEdge, hop: nat)

  datatype QueryError = SymbolNotFound(id: SymbolId) | InvalidDepth(depth: nat, max: nat)

  // ── distance ────────────────────────────────────────────────

  /** The nodes within `d` admitted steps of the root. */
  function Within(es: seq<NamedEdge>, w: Walk, d: nat): set<SymbolId> {
    if d == 0 then {w.root} else Within(es, w, d - 1) + Onward(es, w, Within(es, w, d - 1))
  }

  function Onward(es: seq<NamedEdge>, w: Walk, ids: set<SymbolId>): set<SymbolId> {
    set e | e in es && w.filter.Admits(e) && w.Near(e) in ids :: w.Far(e)
  }

  /** The least number of steps, of a node within `max` of the root. */
  function DepthOf(es: seq<NamedEdge>, w: Walk, max: nat, id: SymbolId): (d: nat)
    requires id in Within(es, w, max)
    ensures d <= max && id in Within(es, w, d) && (d > 0 ==> id !in Within(es, w, d - 1))
  {
    if max == 0 then 0 else if id in Within(es, w, max - 1) then DepthOf(es, w, max - 1, id) else max
  }

  lemma {:induction false} WithinGrows(es: seq<NamedEdge>, w: Walk, c: nat, d: nat)
    requires c <= d
    ensures Within(es, w, c) <= Within(es, w, d)
    decreases d
  {
    if c < d { WithinGrows(es, w, c, d - 1); }
  }

  /** A node has one distance. */
  lemma DistanceIsUnique(es: seq<NamedEdge>, w: Walk, id: SymbolId, c: nat, d: nat)
    requires id in Within(es, w, c) && (c > 0 ==> id !in Within(es, w, c - 1))
    requires id in Within(es, w, d) && (d > 0 ==> id !in Within(es, w, d - 1))
    ensures c == d
  {
    if c < d { WithinGrows(es, w, c, d - 1); } else if d < c { WithinGrows(es, w, d, c - 1); }
  }

  /** Every node within reach, at its distance. */
  function Depths(es: seq<NamedEdge>, w: Walk, max: nat): map<SymbolId, nat> {
    map id | id in Within(es, w, max) :: DepthOf(es, w, max, id)
  }

  /** A row for each admitted edge that leaves one of these nodes short of the limit,
      in the order the edges are held. */
  function Rows(es: seq<NamedEdge>, w: Walk, depths: map<SymbolId, nat>, max: nat): seq<QueryEdge> {
    if |es| == 0 then []
    else
      Rows(es[..|es| - 1], w, depths, max) + RowOf(es[|es| - 1], w, depths, max)
  }

  function RowOf(e: NamedEdge, w: Walk, depths: map<SymbolId, nat>, max: nat): seq<QueryEdge> {
    if w.filter.Admits(e) && w.Near(e) in depths && depths[w.Near(e)] < max then [QueryEdge(e, depths[w.Near(e)] + 1)] else []
  }

  /** One more node off the queue adds its own rows and no others. */
  lemma {:induction false} RowsOfMore(
    es: seq<NamedEdge>, w: Walk, depths: map<SymbolId, nat>, max: nat, id: SymbolId, d: nat)
    requires id !in depths
    ensures multiset(Rows(es, w, depths[id := d], max))
         == multiset(Rows(es, w, depths, max)) + multiset(Rows(es, w, map[id := d], max))
  {
    if |es| > 0 {
      var e := es[|es| - 1];
      RowsOfMore(es[..|es| - 1], w, depths, max, id, d);
      RowOfMore(e, w, depths, max, id, d);
      hide RowOf;
    }
  }

  lemma RowOfMore(e: NamedEdge, w: Walk, depths: map<SymbolId, nat>, max: nat, id: SymbolId, d: nat)
    requires id !in depths
    ensures multiset(RowOf(e, w, depths[id := d], max)) == multiset(RowOf(e, w, depths, max)) + multiset(RowOf(e, w, map[id := d], max))
  {
  }

  lemma {:induction false} RowsAtLimit(es: seq<NamedEdge>, w: Walk, depths: map<SymbolId, nat>, max: nat, id: SymbolId, d: nat)
    requires id !in depths && d >= max
    ensures Rows(es, w, depths[id := d], max) == Rows(es, w, depths, max)
  {
    if |es| > 0 {
      RowsAtLimit(es[..|es| - 1], w, depths, max, id, d);
      assert RowOf(es[|es| - 1], w, depths[id := d], max) == RowOf(es[|es| - 1], w, depths, max);
    }
  }

  // ── the search ──────────────────────────────────────────────

  datatype Pending = Pending(node: SymbolId, depth: nat)

  function QueueNodes(queue: seq<Pending>): set<SymbolId> { set p | p in queue :: p.node }

  /** Every depth found is the node's distance. */
  ghost predicate Exact(es: seq<NamedEdge>, w: Walk, depths: map<SymbolId, nat>) {
    forall id :: id in depths ==> IsDistance(es, w, id, depths[id])
  }

  ghost predicate IsDistance(es: seq<NamedEdge>, w: Walk, id: SymbolId, d: nat) {
    id in Within(es, w, d) && (d > 0 ==> id !in Within(es, w, d - 1))
  }

  /** Nearest first, each node once, and never two levels apart. */
  ghost predicate QueueInOrder(queue: seq<Pending>, depths: map<SymbolId, nat>) {
    && (forall i :: 0 <= i < |queue| ==> queue[i].node in depths && depths[queue[i].node] == queue[i].depth)
    && (forall i, j :: 0 <= i < j < |queue| ==> queue[i].node != queue[j].node)
    && (forall i, j :: 0 <= i < j < |queue| ==> queue[i].depth <= queue[j].depth <= queue[0].depth + 1)
  }

  ghost predicate Stepped(w: Walk, e: NamedEdge, depths: map<SymbolId, nat>) {
    w.Near(e) in depths && w.Far(e) in depths && depths[w.Far(e)] <= depths[w.Near(e)] + 1
  }

  /** A node off the queue and short of the limit has had its steps taken. */
  ghost predicate Expanded(es: seq<NamedEdge>, w: Walk, waiting: set<SymbolId>, depths: map<SymbolId, nat>, max: nat) {
    forall e :: e in es && w.filter.Admits(e) && IsDone(w.Near(e), waiting, depths, max) ==> Stepped(w, e, depths)
  }

  ghost predicate IsDone(id: SymbolId, waiting: set<SymbolId>, depths: map<SymbolId, nat>, max: nat) {
    id in depths && id !in waiting && depths[id] < max
  }

  ghost predicate Searching(es: seq<NamedEdge>, w: Walk, max: nat, queue: seq<Pending>, depths: map<SymbolId, nat>) {
    && w.root in depths && (forall id :: id in depths ==> depths[id] <= max)
    && Exact(es, w, depths) && QueueInOrder(queue, depths)
    && Expanded(es, w, QueueNodes(queue), depths, max)
  }

  /** Everything within the depth at the head of the queue has been found. */
  lemma {:induction false} FrontierFound(
    es: seq<NamedEdge>, w: Walk, max: nat, waiting: set<SymbolId>, depths: map<SymbolId, nat>, d: nat, k: nat)
    requires k <= d <= max && w.root in depths && Exact(es, w, depths) && Expanded(es, w, waiting, depths, max)
    requires forall id :: id in waiting && id in depths ==> depths[id] >= d
    ensures Within(es, w, k) <= depths.Keys
  {
    if k > 0 {
      FrontierFound(es, w, max, waiting, depths, d, k - 1);
      WithinStep(es, w, k);
      hide Within, Expanded;
      forall id | id in Onward(es, w, Within(es, w, k - 1)) ensures id in depths {
        FoundNext(es, w, max, waiting, depths, d, k, id);
      }
    }
  }

  lemma WithinStep(es: seq<NamedEdge>, w: Walk, k: nat)
    requires k > 0
    ensures Within(es, w, k) == Within(es, w, k - 1) + Onward(es, w, Within(es, w, k - 1))
  {
  }

  lemma FoundNext(
    es: seq<NamedEdge>, w: Walk, max: nat, waiting: set<SymbolId>, depths: map<SymbolId, nat>, d: nat, k: nat, id: SymbolId)
    requires 0 < k <= d <= max && Exact(es, w, depths) && Expanded(es, w, waiting, depths, max)
    requires forall id :: id in waiting && id in depths ==> depths[id] >= d
    requires Within(es, w, k - 1) <= depths.Keys && id in Onward(es, w, Within(es, w, k - 1))
    ensures id in depths
  {
    var e :| e in es && w.filter.Admits(e) && w.Near(e) in Within(es, w, k - 1) && w.Far(e) == id;
    NoDeeper(es, w, depths, w.Near(e), k - 1);
    hide Within, Exact;
    assert IsDone(w.Near(e), waiting, depths, max);
    assert Stepped(w, e, depths);
  }

  lemma NoDeeper(es: seq<NamedEdge>, w: Walk, depths: map<SymbolId, nat>, id: SymbolId, k: nat)
    requires Exact(es, w, depths) && id in depths && id in Within(es, w, k)
    ensures depths[id] <= k
  {
    assert IsDistance(es, w, id, depths[id]);
    if depths[id] > k { WithinGrows(es, w, k, depths[id] - 1); }
  }

  /** Midway through the edges of `n`, which is off the queue: the first `j` edges
      held have been looked at. */
  ghost predicate Expanding(
    es: seq<NamedEdge>, w: Walk, max: nat, queue: seq<Pending>, depths: map<SymbolId, nat>, n: Pending, j: nat)
    requires j <= |es|
  {
    && w.root in depths && (forall id :: id in depths ==> depths[id] <= max)
    && n.node in depths && depths[n.node] == n.depth < max && n.node !in QueueNodes(queue)
    && Exact(es, w, depths) && QueueInOrder(queue, depths)
    && Between(queue, n.depth)
    && Within(es, w, n.depth) <= depths.Keys
    && Expanded(es, w, QueueNodes(queue) + {n.node}, depths, max)
    && Taken(es[..j], w, depths, n.node)
  }

  ghost predicate Between(queue: seq<Pending>, d: nat) { forall p :: p in queue ==> d <= p.depth <= d + 1 }

  ghost predicate Taken(es: seq<NamedEdge>, w: Walk, depths: map<SymbolId, nat>, id: SymbolId) {
    forall e :: e in es && w.filter.Admits(e) && w.Near(e) == id ==> Stepped(w, e, depths)
  }

  lemma QueueTail(queue: seq<Pending>, depths: map<SymbolId, nat>)
    requires |queue| > 0 && QueueInOrder(queue, depths)
    ensures QueueInOrder(queue[1..], depths) && queue[0].node !in QueueNodes(queue[1..])
    ensures QueueNodes(queue) == QueueNodes(queue[1..]) + {queue[0].node}
    ensures forall p :: p in queue[1..] ==> queue[0].depth <= p.depth <= queue[0].depth + 1
  {
    assert queue == [queue[0]] + queue[1..];
    forall p | p in queue[1..] ensures queue[0].depth <= p.depth <= queue[0].depth + 1 && p.node != queue[0].node {
      var i :| 0 <= i < |queue[1..]| && queue[1..][i] == p;
      assert queue[i + 1] == p;
    }
  }

  lemma StartExpanding(es: seq<NamedEdge>, w: Walk, max: nat, queue: seq<Pending>, depths: map<SymbolId, nat>)
    requires |queue| > 0 && Searching(es, w, max, queue, depths) && queue[0].depth < max
    ensures Expanding(es, w, max, queue[1..], depths, queue[0], 0)
  {
    QueueTail(queue, depths);
    var waiting := QueueNodes(queue);
    forall id | id in waiting && id in depths ensures depths[id] >= queue[0].depth {
      var p :| p in queue && p.node == id;
      var i :| 0 <= i < |queue| && queue[i] == p;
    }
    FrontierFound(es, w, max, waiting, depths, queue[0].depth, queue[0].depth);
    hide Exact, Expanded, QueueInOrder, Within, QueueNodes;
  }

  lemma SkipAtLimit(es: seq<NamedEdge>, w: Walk, max: nat, queue: seq<Pending>, depths: map<SymbolId, nat>)
    requires |queue| > 0 && Searching(es, w, max, queue, depths) && queue[0].depth >= max
    ensures Searching(es, w, max, queue[1..], depths)
  {
    QueueTail(queue, depths);
    hide Exact, QueueNodes, Stepped, Within;
  }

  lemma DoneExpanding(es: seq<NamedEdge>, w: Walk, max: nat, queue: seq<Pending>, depths: map<SymbolId, nat>, n: Pending)
    requires Expanding(es, w, max, queue, depths, n, |es|)
    ensures Searching(es, w, max, queue, depths)
  {
    assert es[..|es|] == es;
    hide Exact, QueueInOrder, Stepped, Within;
    forall e | e in es && w.filter.Admits(e) && IsDone(w.Near(e), QueueNodes(queue), depths, max)
      ensures Stepped(w, e, depths)
    {
      if w.Near(e) != n.node {
        assert IsDone(w.Near(e), QueueNodes(queue) + {n.node}, depths, max);
      } else {
        assert e in es[..|es|];
      }
    }
  }

  /** An edge that leaves another node, or is not admitted, calls for nothing. */
  lemma PassEdge(
    es: seq<NamedEdge>, w: Walk, max: nat, queue: seq<Pending>, depths: map<SymbolId, nat>, n: Pending, j: nat)
    requires j < |es| && Expanding(es, w, max, queue, depths, n, j)
    requires !(w.filter.Admits(es[j]) && w.Near(es[j]) == n.node)
    ensures Expanding(es, w, max, queue, depths, n, j + 1)
  {
    hide Exact, QueueInOrder, Stepped, Within, Expanded, QueueNodes, Between;
    TakeOne(es, w, depths, n.node, j);
  }

  lemma TakeOne(es: seq<NamedEdge>, w: Walk, depths: map<SymbolId, nat>, id: SymbolId, j: nat)
    requires j < |es| && Taken(es[..j], w, depths, id)
    requires w.filter.Admits(es[j]) && w.Near(es[j]) == id ==> Stepped(w, es[j], depths)
    ensures Taken(es[..j + 1], w, depths, id)
  {
    assert es[..j + 1] == es[..j] + [es[j]];
  }

  /** A node met before is at most one step further. */
  lemma OldNode(
    es: seq<NamedEdge>, w: Walk, max: nat, queue: seq<Pending>, depths: map<SymbolId, nat>, n: Pending, j: nat)
    requires j < |es| && Expanding(es, w, max, queue, depths, n, j)
    requires w.filter.Admits(es[j]) && w.Near(es[j]) == n.node && w.Far(es[j]) in depths
    ensures Expanding(es, w, max, queue, depths, n, j + 1)
  {
    MetIsNear(es, w, depths, n, es[j]);
    hide Exact, QueueInOrder, Stepped, Within, Expanded, QueueNodes, Between;
    TakeOne(es, w, depths, n.node, j);
  }

  lemma MetIsNear(es: seq<NamedEdge>, w: Walk, depths: map<SymbolId, nat>, n: Pending, e: NamedEdge)
    requires Exact(es, w, depths) && n.node in depths && depths[n.node] == n.depth
    requires e in es && w.filter.Admits(e) && w.Near(e) == n.node && w.Far(e) in depths
    ensures Stepped(w, e, depths)
  {
    assert IsDistance(es, w, n.node, n.depth);
    assert w.Far(e) in Onward(es, w, Within(es, w, n.depth));
    NoDeeper(es, w, depths, w.Far(e), n.depth + 1);
  }

  lemma AppendToQueue(queue: seq<Pending>, depths: map<SymbolId, nat>, id: SymbolId, d: nat)
    requires QueueInOrder(queue, depths) && id !in depths
    requires d > 0 && Between(queue, d - 1)
    ensures QueueInOrder(queue + [Pending(id, d)], depths[id := d]) && Between(queue + [Pending(id, d)], d - 1)
    ensures QueueNodes(queue + [Pending(id, d)]) == QueueNodes(queue) + {id}
  {
    forall i | 0 <= i < |queue| ensures queue[i].node in depths { assert queue[i] in queue; }
  }

  lemma MoreStepped(w: Walk, e: NamedEdge, depths: map<SymbolId, nat>, id: SymbolId, d: nat)
    requires Stepped(w, e, depths) && id !in depths
    ensures Stepped(w, e, depths[id := d])
  {
  }

  /** A node met for the first time lies exactly one step further. */
  lemma NewNode(
    es: seq<NamedEdge>, w: Walk, max: nat, queue: seq<Pending>, depths: map<SymbolId, nat>, n: Pending, j: nat, p: Pending)
    requires j < |es| && Expanding(es, w, max, queue, depths, n, j)
    requires w.filter.Admits(es[j]) && w.Near(es[j]) == n.node && w.Far(es[j]) !in depths
    requires p == Pending(w.Far(es[j]), n.depth + 1)
    ensures Expanding(es, w, max, queue + [p], depths[p.node := p.depth], n, j + 1)
  {
    hide QueueInOrder, Within, QueueNodes, Exact, Expanded, Stepped, Between, Taken;
    var e := es[j];
    NewDistance(es, w, depths, n, e);
    AppendToQueue(queue, depths, p.node, p.depth);
    StillExpanded(es, w, max, QueueNodes(queue) + {n.node}, depths, p.node, p.depth);
    assert QueueNodes(queue + [p]) + {n.node} == QueueNodes(queue) + {n.node} + {p.node};
    StillTaken(es[..j], w, depths, n.node, p.node, p.depth);
    NewIsStepped(w, e, depths, p.node, p.depth);
    TakeOne(es, w, depths[p.node := p.depth], n.node, j);
  }

  lemma NewIsStepped(w: Walk, e: NamedEdge, depths: map<SymbolId, nat>, id: SymbolId, d: nat)
    requires w.Near(e) in depths && w.Far(e) == id && id !in depths && d <= depths[w.Near(e)] + 1
    ensures Stepped(w, e, depths[id := d])
  {
  }

  lemma StillTaken(es: seq<NamedEdge>, w: Walk, depths: map<SymbolId, nat>, n: SymbolId, id: SymbolId, d: nat)
    requires Taken(es, w, depths, n) && id !in depths
    ensures Taken(es, w, depths[id := d], n)
  {
    forall e | e in es && w.filter.Admits(e) && w.Near(e) == n ensures Stepped(w, e, depths[id := d]) {
      MoreStepped(w, e, depths, id, d);
    }
  }

  lemma StillExpanded(
    es: seq<NamedEdge>, w: Walk, max: nat, waiting: set<SymbolId>, depths: map<SymbolId, nat>, id: SymbolId, d: nat)
    requires Expanded(es, w, waiting, depths, max) && id !in depths
    ensures Expanded(es, w, waiting + {id}, depths[id := d], max)
  {
    forall e | e in es && w.filter.Admits(e) && IsDone(w.Near(e), waiting + {id}, depths[id := d], max)
      ensures Stepped(w, e, depths[id := d])
    {
      assert IsDone(w.Near(e), waiting, depths, max);
      MoreStepped(w, e, depths, id, d);
    }
  }

  lemma NewDistance(es: seq<NamedEdge>, w: Walk, depths: map<SymbolId, nat>, n: Pending, e: NamedEdge)
    requires Exact(es, w, depths) && Within(es, w, n.depth) <= depths.Keys
    requires n.node in depths && depths[n.node] == n.depth
    requires e in es && w.filter.Admits(e) && w.Near(e) == n.node && w.Far(e) !in depths
    ensures Exact(es, w, depths[w.Far(e) := n.depth + 1])
  {
    assert IsDistance(es, w, n.node, n.depth);
    assert w.Far(e) in Onward(es, w, Within(es, w, n.depth));
    assert IsDistance(es, w, w.Far(e), n.depth + 1);
    hide IsDistance;
  }

  /** One node's edges: a row for each that is admitted, and a place on the queue for
      each node met for the first time. */
  method Expand(
    es: seq<NamedEdge>, w: Walk, ghost max: nat, n: Pending, queue: seq<Pending>, visited: set<SymbolId>,
    ghost depths: map<SymbolId, nat>)
    returns (rows: seq<QueryEdge>, queue': seq<Pending>, visited': set<SymbolId>, ghost depths': map<SymbolId, nat>)
    requires Expanding(es, w, max, queue, depths, n, 0) && visited == depths.Keys
    ensures Searching(es, w, max, queue', depths') && visited' == depths'.Keys
    ensures rows == Rows(es, w, map[n.node := n.depth], max)
    ensures Grew(Ends(es, w), |queue|, visited, |queue'|, visited') && Off(queue', depths') == Off(queue, depths)
  {
    hide *;
    rows, queue', visited', depths' := [], queue, visited, depths;
    NoRowsYet(w, map[n.node := n.depth], max);
    NotGrown(Ends(es, w), |queue|, visited);
    assert es[..0] == [];
    for j := 0 to |es|
      invariant Expanding(es, w, max, queue', depths', n, j) && visited' == depths'.Keys
      invariant rows == Rows(es[..j], w, map[n.node := n.depth], max)
      invariant Grew(Ends(es, w), |queue|, visited, |queue'|, visited') && Off(queue', depths') == Off(queue, depths)
    {
      var edge := es[j];
      ShortOfLimit(es, w, max, queue', depths', n, j);
      NextRow(es, w, max, n, j);
      if w.Near(edge) != n.node || !w.filter.Admits(edge) {
        PassEdge(es, w, max, queue', depths', n, j);
        continue;
      }
      rows := rows + [QueryEdge(edge, n.depth + 1)];
      var neighbor := w.Far(edge);
      if neighbor in visited' {
        OldNode(es, w, max, queue', depths', n, j);
      } else {
        var p := Pending(neighbor, n.depth + 1);
        NewNode(es, w, max, queue', depths', n, j, p);
        GrewByOne(es, w, |queue|, visited, |queue'|, visited', edge);
        OneMoreOff(queue', depths', p);
        visited', queue', depths' := visited' + {neighbor}, queue' + [p], depths'[p.node := p.depth];
      }
    }
    assert es[..|es|] == es;
    DoneExpanding(es, w, max, queue', depths', n);
  }

  lemma NoRowsYet(w: Walk, depths: map<SymbolId, nat>, max: nat)
    ensures Rows([], w, depths, max) == []
  {
  }

  lemma NextRow(es: seq<NamedEdge>, w: Walk, max: nat, n: Pending, j: nat)
    requires j < |es| && n.depth < max
    ensures var depths := map[n.node := n.depth];
      Rows(es[..j + 1], w, depths, max) == Rows(es[..j], w, depths, max)
        + if w.Near(es[j]) == n.node && w.filter.Admits(es[j]) then [QueryEdge(es[j], n.depth + 1)] else []
  {
    assert es[..j + 1][..j] == es[..j];
  }

  function Ends(es: seq<NamedEdge>, w: Walk): set<SymbolId> { set e | e in es :: w.Far(e) }

  lemma ShortOfLimit(
    es: seq<NamedEdge>, w: Walk, max: nat, queue: seq<Pending>, depths: map<SymbolId, nat>, n: Pending, j: nat)
    requires j <= |es| && Expanding(es, w, max, queue, depths, n, j)
    ensures n.depth < max
  {
  }

  /** The nodes met and off the queue. */
  function Off(queue: seq<Pending>, depths: map<SymbolId, nat>): map<SymbolId, nat> { depths - QueueNodes(queue) }

  /** What has been met since: each new node took a place on the queue. */
  ghost predicate Grew(ends: set<SymbolId>, n: nat, met: set<SymbolId>, n': nat, met': set<SymbolId>) {
    met <= met' <= met + ends && n' == n + |met' - met|
  }

  lemma NotGrown(ends: set<SymbolId>, n: nat, met: set<SymbolId>)
    ensures Grew(ends, n, met, n, met)
  {
    assert met - met == {};
  }

  lemma GrewByOne(
    es: seq<NamedEdge>, w: Walk, n: nat, met: set<SymbolId>, n': nat, met': set<SymbolId>, e: NamedEdge)
    requires Grew(Ends(es, w), n, met, n', met') && e in es && w.Far(e) !in met'
    ensures Grew(Ends(es, w), n, met, n' + 1, met' + {w.Far(e)})
  {
    assert w.Far(e) in Ends(es, w);
    OneMoreMet(met, met', w.Far(e));
    hide Ends;
  }

  lemma OneMoreOff(queue: seq<Pending>, depths: map<SymbolId, nat>, p: Pending)
    requires p.node !in depths
    ensures Off(queue + [p], depths[p.node := p.depth]) == Off(queue, depths)
  {
    assert QueueNodes(queue + [p]) == QueueNodes(queue) + {p.node};
    hide QueueNodes;
  }

  lemma OneMoreMet(before: set<SymbolId>, met: set<SymbolId>, id: SymbolId)
    requires before <= met && id !in met
    ensures |met + {id} - before| == |met - before| + 1
  {
    assert met + {id} - before == (met - before) + {id};
  }

  /** The search: every admitted edge incident, in the walk's direction, to a node at
      distance `d` short of the limit, as often as it is held, with hop `d + 1`. */
  method Search(es: seq<NamedEdge>, w: Walk, max: nat) returns (rows: seq<QueryEdge>)
    ensures multiset(rows) == multiset(Rows(es, w, Depths(es, w, max), max))
  {
    hide *;
    var queue, visited := [Pending(w.root, 0)], {w.root};
    ghost var depths: map<SymbolId, nat> := map[w.root := 0];
    rows := [];
    StartSearching(es, w, max);
    while |queue| > 0
      invariant Searching(es, w, max, queue, depths) && visited == depths.Keys
      invariant multiset(rows) == multiset(Rows(es, w, Off(queue, depths), max))
      invariant visited <= {w.root} + Ends(es, w)
      decreases |{w.root} + Ends(es, w) - visited| + |queue|
    {
      var n := queue[0];
      PopOne(es, w, max, queue, depths);
      if n.depth >= max {
        SkipAtLimit(es, w, max, queue, depths);
        RowsAtLimit(es, w, Off(queue, depths), max, n.node, n.depth);
        queue := queue[1..];
        continue;
      }
      StartExpanding(es, w, max, queue, depths);
      RowsOfMore(es, w, Off(queue, depths), max, n.node, n.depth);
      ghost var waiting, known := |queue| - 1, visited;
      var found;
      found, queue, visited, depths := Expand(es, w, max, n, queue[1..], visited, depths);
      rows := rows + found;
      FewerUnknown(Ends(es, w), {w.root} + Ends(es, w), waiting, known, |queue|, visited);
    }
    SearchedAll(es, w, max, depths);
    assert Off(queue, depths) == depths;
  }

  lemma StartSearching(es: seq<NamedEdge>, w: Walk, max: nat)
    ensures Searching(es, w, max, [Pending(w.root, 0)], map[w.root := 0])
    ensures Off([Pending(w.root, 0)], map[w.root := 0]) == map[]
    ensures Rows(es, w, map[], max) == []
  {
    assert Pending(w.root, 0) in [Pending(w.root, 0)];
    NoRows(es, w, max);
  }

  lemma {:induction false} NoRows(es: seq<NamedEdge>, w: Walk, max: nat)
    ensures Rows(es, w, map[], max) == []
  {
    if |es| > 0 { NoRows(es[..|es| - 1], w, max); }
  }

  lemma PopOne(es: seq<NamedEdge>, w: Walk, max: nat, queue: seq<Pending>, depths: map<SymbolId, nat>)
    requires |queue| > 0 && Searching(es, w, max, queue, depths)
    ensures queue[0].node !in Off(queue, depths)
    ensures Off(queue[1..], depths) == Off(queue, depths)[queue[0].node := queue[0].depth]
  {
    QueueTail(queue, depths);
    hide QueueNodes, Exact, Expanded;
  }

  lemma FewerUnknown(
    ends: set<SymbolId>, all: set<SymbolId>, n: nat, met: set<SymbolId>, n': nat, met': set<SymbolId>)
    requires Grew(ends, n, met, n', met') && met <= all && ends <= all
    ensures met' <= all && |all - met'| + n' == |all - met| + n
  {
    assert all - met == (all - met') + (met' - met);
  }

  lemma SearchedAll(es: seq<NamedEdge>, w: Walk, max: nat, depths: map<SymbolId, nat>)
    requires Searching(es, w, max, [], depths)
    ensures Off([], depths) == depths == Depths(es, w, max)
  {
    assert QueueNodes([]) == {};
    FrontierFound(es, w, max, {}, depths, max, max);
    forall id | id in depths ensures id in Within(es, w, max) && depths[id] == DepthOf(es, w, max, id) {
      DepthFound(es, w, max, depths, id);
    }
    hide Within, Expanded, Exact, DepthOf;
  }

  lemma DepthFound(es: seq<NamedEdge>, w: Walk, max: nat, depths: map<SymbolId, nat>, id: SymbolId)
    requires Exact(es, w, depths) && id in depths && depths[id] <= max
    ensures id in Within(es, w, max) && depths[id] == DepthOf(es, w, max, id)
  {
    assert IsDistance(es, w, id, depths[id]);
    hide Within, DepthOf;
    WithinGrows(es, w, depths[id], max);
    DistanceIsUnique(es, w, id, depths[id], DepthOf(es, w, max, id));
  }
}
