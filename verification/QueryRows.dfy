/** From the edges a search met to the rows a query returns (query.rs). */
module QueryRows {
  import opened Wrappers
  import opened Ir
  import opened Ordering
  import opened GraphModel
  import opened Query

  // ── what the search met ─────────────────────────────────────

  /** An admitted edge, leaving a node at a distance short of the limit, one hop on. */
  ghost predicate IsRow(es: seq<NamedEdge>, w: Walk, max: nat, q: QueryEdge) {
    && w.filter.Admits(q.edge) && 1 <= q.hop <= max
    && IsDistance(es, w, w.Near(q.edge), q.hop - 1)
  }

  lemma DepthTells(es: seq<NamedEdge>, w: Walk, max: nat, id: SymbolId, d: nat)
    requires d <= max
    ensures IsDistance(es, w, id, d) <==> id in Depths(es, w, max) && Depths(es, w, max)[id] == d
  {
    hide Within, DepthOf;
    if IsDistance(es, w, id, d) {
      WithinGrows(es, w, d, max);
      DistanceIsUnique(es, w, id, d, DepthOf(es, w, max, id));
    }
  }

  lemma RowTells(es: seq<NamedEdge>, w: Walk, max: nat, e: NamedEdge, q: QueryEdge)
    ensures RowOf(e, w, Depths(es, w, max), max) == [q] <==> q.edge == e && IsRow(es, w, max, q)
  {
    if q.edge == e && 1 <= q.hop <= max { DepthTells(es, w, max, w.Near(e), q.hop - 1); }
    if w.Near(e) in Depths(es, w, max) {
      DepthTells(es, w, max, w.Near(e), Depths(es, w, max)[w.Near(e)]);
    }
    hide Depths;
  }

  lemma {:induction false} RowsCounted(all: seq<NamedEdge>, es: seq<NamedEdge>, w: Walk, max: nat, q: QueryEdge)
    ensures multiset(Rows(es, w, Depths(all, w, max), max))[q]
         == if IsRow(all, w, max, q) then multiset(es)[q.edge] else 0
  {
    if |es| > 0 {
      var n := |es| - 1;
      RowsCounted(all, es[..n], w, max, q);
      RowTells(all, w, max, es[n], q);
      assert es == es[..n] + [es[n]];
      hide IsRow, Depths;
    }
  }

  /** A search reports exactly the admitted edges within its reach, each as often as
      it is held. */
  lemma SearchMeans(es: seq<NamedEdge>, w: Walk, max: nat, rows: seq<QueryEdge>, q: QueryEdge)
    requires multiset(rows) == multiset(Rows(es, w, Depths(es, w, max), max))
    ensures multiset(rows)[q] == if IsRow(es, w, max, q) then multiset(es)[q.edge] else 0
    ensures q in rows <==> IsRow(es, w, max, q) && q.edge in es
  {
    RowsCounted(es, es, w, max, q);
    assert q in rows <==> q in multiset(rows);
    assert q.edge in es <==> q.edge in multiset(es);
    hide IsRow, Rows, Depths;
  }

  /** Asking for more depth adds rows and changes none. */
  lemma DeeperOnlyAdds(es: seq<NamedEdge>, w: Walk, max: nat, deeper: nat, q: QueryEdge)
    requires max <= deeper
    ensures IsRow(es, w, max, q) <==> IsRow(es, w, deeper, q) && q.hop <= max
  {
  }

  // ── narrowing the question ──────────────────────────────────

  /** Fewer kinds, or a higher floor. */
  predicate Narrower(g: Filter, f: Filter) {
    g.kinds <= f.kinds && f.floor.Rank() <= g.floor.Rank()
  }

  lemma AdmitsMore(e: NamedEdge, g: Filter, f: Filter)
    requires Narrower(g, f) && g.Admits(e)
    ensures f.Admits(e)
  {
  }

  lemma {:induction false} NarrowerReach(es: seq<NamedEdge>, w: Walk, g: Filter, d: nat)
    requires Narrower(g, w.filter)
    ensures Within(es, w.(filter := g), d) <= Within(es, w, d)
  {
    if d > 0 { NarrowerReach(es, w, g, d - 1); }
  }

  lemma {:induction false} DistanceOf(es: seq<NamedEdge>, w: Walk, id: SymbolId, d: nat) returns (c: nat)
    requires id in Within(es, w, d)
    ensures c <= d && IsDistance(es, w, id, c)
  {
    c := DepthOf(es, w, d, id);
  }

  /** A narrower question never meets an edge the wider one does not, nor meets it
      sooner. */
  lemma NarrowingNeverAdds(es: seq<NamedEdge>, w: Walk, g: Filter, max: nat, q: QueryEdge) returns (p: QueryEdge)
    requires Narrower(g, w.filter) && IsRow(es, w.(filter := g), max, q)
    ensures p.edge == q.edge && p.hop <= q.hop && IsRow(es, w, max, p)
  {
    hide Within;
    NarrowerReach(es, w, g, q.hop - 1);
    assert w.(filter := g).Near(q.edge) == w.Near(q.edge);
    assert w.Near(q.edge) in Within(es, w.(filter := g), q.hop - 1);
    AdmitsMore(q.edge, g, w.filter);
    var d := DistanceOf(es, w, w.Near(q.edge), q.hop - 1);
    p := QueryEdge(q.edge, d + 1);
  }

  // ── one row per fact ────────────────────────────────────────

  /** What a reader can act on: which symbol, where, under what name, by what kind of
      reference. Who refers is not part of it. */
  datatype RowIdentity = RowIdentity(to: SymbolId, file: string, line: u32, alias: Option<string>, kindName: string)

  function IdentityOf(q: QueryEdge): RowIdentity {
    var m := q.edge.meta;
    RowIdentity(q.edge.to, m.file, m.line, m.alias, KindName(m.kind))
  }

  function AliasAtom(alias: Option<string>): Atom { if alias.None? then Absent else Text(alias.value) }

  function RowKey(q: QueryEdge): SortKey {
    var m := q.edge.meta;
    [Num(q.hop), Text(m.file), Num(m.line), Text(q.edge.to), Text(KindName(m.kind)), AliasAtom(m.alias), Text(q.edge.from)]
  }

  /** Among the rows of one identity the order is by hop, and then by who refers. */
  lemma OrderWithinIdentity(a: QueryEdge, b: QueryEdge)
    requires IdentityOf(a) == IdentityOf(b)
    ensures Le(RowKey(a), RowKey(b)) <==> a.hop < b.hop || (a.hop == b.hop && CharsLe(a.edge.from, b.edge.from))
  {
    var k, l := RowKey(a), RowKey(b);
    if a.hop == b.hop {
      assert k[1..6] == l[1..6];
      assert k == k[..6] + [Text(a.edge.from)] && l == k[..6] + [Text(b.edge.from)];
      SamePrefix(k[..6], [Text(a.edge.from)], [Text(b.edge.from)]);
      CharsTotal(a.edge.from, a.edge.from);
    }
  }

  lemma {:induction false} SamePrefix(p: SortKey, a: SortKey, b: SortKey)
    ensures Le(p + a, p + b) <==> Le(a, b)
  {
    if |p| == 0 {
      assert p + a == a && p + b == b;
    } else {
      SamePrefix(p[1..], a, b);
      assert (p + a)[1..] == p[1..] + a && (p + b)[1..] == p[1..] + b;
    }
  }

  ghost predicate Represents(kept: seq<QueryEdge>, q: QueryEdge) {
    exists k :: k in kept && IdentityOf(k) == IdentityOf(q) && Le(RowKey(k), RowKey(q))
  }

  /** Exactly one row for each identity that occurs, and that one the first of its
      identity in row order. */
  ghost predicate IsDeduped(rows: seq<QueryEdge>, kept: seq<QueryEdge>) {
    && SortedBy(RowKey, kept)
    && (forall k :: k in kept ==> k in rows)
    && (forall i, j :: 0 <= i < j < |kept| ==> IdentityOf(kept[i]) != IdentityOf(kept[j]))
    && (forall q :: q in rows ==> Represents(kept, q))
  }

  /** The retaining pass over the sorted rows so far. */
  ghost predicate Retained(sorted: seq<QueryEdge>, n: nat, kept: seq<QueryEdge>, seen: set<RowIdentity>)
    requires n <= |sorted|
  {
    && seen == (set k | k in kept :: IdentityOf(k))
    && SortedBy(RowKey, kept)
    && (forall k :: k in kept ==> k in sorted[..n])
    && (forall i, j :: 0 <= i < j < |kept| ==> IdentityOf(kept[i]) != IdentityOf(kept[j]))
    && (forall q :: q in sorted[..n] ==> Represents(kept, q))
  }

  lemma Earlier(sorted: seq<QueryEdge>, n: nat)
    requires n < |sorted| && SortedBy(RowKey, sorted)
    ensures sorted[..n + 1] == sorted[..n] + [sorted[n]]
    ensures forall q :: q in sorted[..n] ==> Le(RowKey(q), RowKey(sorted[n]))
  {
    forall q | q in sorted[..n] ensures Le(RowKey(q), RowKey(sorted[n])) {
      var k :| 0 <= k < n && sorted[k] == q;
    }
  }

  lemma SeenAgain(sorted: seq<QueryEdge>, n: nat, kept: seq<QueryEdge>, seen: set<RowIdentity>)
    requires n < |sorted| && SortedBy(RowKey, sorted) && Retained(sorted, n, kept, seen)
    requires IdentityOf(sorted[n]) in seen
    ensures Retained(sorted, n + 1, kept, seen)
  {
    Earlier(sorted, n);
    hide RowKey, IdentityOf;
    var k :| k in kept && IdentityOf(k) == IdentityOf(sorted[n]);
    assert Represents(kept, sorted[n]);
  }

  lemma StillRepresented(kept: seq<QueryEdge>, more: QueryEdge, q: QueryEdge)
    requires Represents(kept, q)
    ensures Represents(kept + [more], q)
  {
    hide RowKey, IdentityOf;
    var k :| k in kept && IdentityOf(k) == IdentityOf(q) && Le(RowKey(k), RowKey(q));
    assert k in kept + [more];
  }

  lemma SeenFirst(sorted: seq<QueryEdge>, n: nat, kept: seq<QueryEdge>, seen: set<RowIdentity>)
    requires n < |sorted| && SortedBy(RowKey, sorted) && Retained(sorted, n, kept, seen)
    requires IdentityOf(sorted[n]) !in seen
    ensures Retained(sorted, n + 1, kept + [sorted[n]], seen + {IdentityOf(sorted[n])})
  {
    var q := sorted[n];
    Earlier(sorted, n);
    hide RowKey, IdentityOf;
    forall x | x in sorted[..n] ensures Represents(kept + [q], x) { StillRepresented(kept, q, x); }
    Reflexive(RowKey(q));
    assert q in kept + [q];
    assert Represents(kept + [q], q);
    forall i | 0 <= i < |kept| ensures IdentityOf(kept[i]) != IdentityOf(q) { assert kept[i] in kept; }
    hide Represents;
  }

  /** Sorts, then keeps the first row of each identity. */
  method DedupeEdges(rows: seq<QueryEdge>) returns (kept: seq<QueryEdge>)
    ensures IsDeduped(rows, kept)
  {
    hide RowKey, IdentityOf, Represents;
    var sorted := SortBy(RowKey, rows);
    Sorts(RowKey, rows);
    SortKeeps(RowKey, rows);
    kept := [];
    var seen := {};
    for i := 0 to |sorted|
      invariant Retained(sorted, i, kept, seen)
    {
      var edge := sorted[i];
      if IdentityOf(edge) in seen {
        SeenAgain(sorted, i, kept, seen);
      } else {
        SeenFirst(sorted, i, kept, seen);
        kept, seen := kept + [edge], seen + {IdentityOf(edge)};
      }
    }
    assert sorted[..|sorted|] == sorted;
  }

  /** The row that survives is the nearest of its identity, and of the nearest the
      one whose referrer sorts first. */
  lemma SurvivorIsNearest(rows: seq<QueryEdge>, kept: seq<QueryEdge>, k: QueryEdge, q: QueryEdge)
    requires IsDeduped(rows, kept) && k in kept && q in rows && IdentityOf(k) == IdentityOf(q)
    ensures k.hop < q.hop || (k.hop == q.hop && CharsLe(k.edge.from, q.edge.from))
  {
    assert Represents(kept, q);
    var r :| r in kept && IdentityOf(r) == IdentityOf(q) && Le(RowKey(r), RowKey(q));
    OnlyOne(kept, r, k);
    OrderWithinIdentity(k, q);
  }

  lemma OnlyOne(kept: seq<QueryEdge>, a: QueryEdge, b: QueryEdge)
    requires forall i, j :: 0 <= i < j < |kept| ==> IdentityOf(kept[i]) != IdentityOf(kept[j])
    requires a in kept && b in kept && IdentityOf(a) == IdentityOf(b)
    ensures a == b
  {
    hide IdentityOf;
    var i :| 0 <= i < |kept| && kept[i] == a;
    var j :| 0 <= j < |kept| && kept[j] == b;
  }

  // ── the query ───────────────────────────────────────────────

  method Traverse(g: GraphView, root: SymbolId, max: nat, dir: Direction, filter: Filter)
    returns (r: Result<seq<QueryEdge>, QueryError>)
    requires IndexIsInverse(g) && LinksLand(g)
    ensures r.Err? <==> root !in g.nodeIndex
    ensures r.Err? ==> r.error == SymbolNotFound(root)
    ensures r.Ok? ==> Answers(Names(g.nodes, g.links), Walk(root, dir, filter), max, r.value)
  {
    hide Answers, IndexIsInverse, Rows, Depths, IsDeduped;
    if root !in g.nodeIndex {
      return Err(SymbolNotFound(root));
    }
    var es := Names(g.nodes, g.links);
    var rows := Search(es, Walk(root, dir, filter), max);
    var kept := DedupeEdges(rows);
    AnswersFound(es, Walk(root, dir, filter), max, rows, kept);
    r := Ok(kept);
  }

  /** The answer, told without the search: one row for each identity met, the nearest
      of its identity. */
  ghost predicate Answers(es: seq<NamedEdge>, w: Walk, max: nat, kept: seq<QueryEdge>) {
    && SortedBy(RowKey, kept)
    && (forall k :: k in kept ==> k.edge in es && IsRow(es, w, max, k))
    && (forall i, j :: 0 <= i < j < |kept| ==> IdentityOf(kept[i]) != IdentityOf(kept[j]))
    && forall q: QueryEdge :: q.edge in es && IsRow(es, w, max, q) ==> Represents(kept, q)
  }

  lemma AnswersFound(es: seq<NamedEdge>, w: Walk, max: nat, rows: seq<QueryEdge>, kept: seq<QueryEdge>)
    requires multiset(rows) == multiset(Rows(es, w, Depths(es, w, max), max)) && IsDeduped(rows, kept)
    ensures Answers(es, w, max, kept)
  {
    hide IsRow, Rows, Depths, IdentityOf, RowKey, Represents;
    forall q ensures q in rows <==> IsRow(es, w, max, q) && q.edge in es { SearchMeans(es, w, max, rows, q); }
  }

  /** Narrowing the mask or raising the floor never adds a fact to the answer, and
      never brings one nearer. */
  lemma NarrowerAnswers(
    es: seq<NamedEdge>, w: Walk, g: Filter, max: nat, narrow: seq<QueryEdge>, wide: seq<QueryEdge>, q: QueryEdge)
    requires Narrower(g, w.filter) && q in narrow
    requires Answers(es, w.(filter := g), max, narrow) && Answers(es, w, max, wide)
    ensures exists p :: p in wide && IdentityOf(p) == IdentityOf(q) && p.hop <= q.hop
  {
    var p := NarrowingNeverAdds(es, w, g, max, q);
    assert Represents(wide, p);
    var k :| k in wide && IdentityOf(k) == IdentityOf(p) && Le(RowKey(k), RowKey(p));
    OrderWithinIdentity(k, p);
  }

  method QueryFrom(g: GraphView, root: SymbolId, depth: Option<nat>, dir: Direction, filter: Filter)
    returns (r: Result<seq<QueryEdge>, QueryError>)
    requires IndexIsInverse(g) && LinksLand(g)
    ensures var effective := depth.GetOr(DEFAULT_DEPTH);
      && (r.Err? <==> effective > MAX_DEPTH || root !in g.nodeIndex)
      && (effective > MAX_DEPTH ==> r == Err(InvalidDepth(effective, MAX_DEPTH)))
      && (effective <= MAX_DEPTH && r.Err? ==> r == Err(SymbolNotFound(root)))
      && (r.Ok? ==> Answers(Names(g.nodes, g.links), Walk(root, dir, filter), effective, r.value))
  {
    hide Answers, IndexIsInverse;
    var effective := depth.GetOr(DEFAULT_DEPTH);
    if effective > MAX_DEPTH {
      return Err(InvalidDepth(effective, MAX_DEPTH));
    }
    r := Traverse(g, root, effective, dir, filter);
  }
}
