/** What the impact of a file tells and what it leaves out (query.rs, `file_impact`). Its
    fields promise every edge that reaches into the file, every file it comes from, and
    whether all of it is resolved; here is exactly when each promise is met. */
module ImpactLaws {
  import opened Ir
  import opened Ordering
  import opened GraphModel
  import opened Query
  import opened FileImpact

  function Roots(g: GraphView, file: string): seq<SymbolId> { SortBy(TextKey, At(g.fileIndex, file)) }

  /** An admitted edge from outside the file, whose target is within reach of one of the
      file's symbols. */
  ghost predicate Reaching(g: GraphView, file: string, filter: Filter, max: nat, e: NamedEdge)
    requires LinksLand(g)
  {
    Outside(Names(g.nodes, g.links), file, filter, e) && Attained(g, Roots(g, file), filter, max, e.to)
  }

  /** One no other referrer of its fact sorts before. */
  ghost predicate Heads(g: GraphView, file: string, filter: Filter, max: nat, e: NamedEdge)
    requires LinksLand(g)
  {
    Reaching(g, file, filter, max, e) && Leads(Names(g.nodes, g.links), filter, e)
  }

  /** One that gives the first fact of its reference as well. */
  ghost predicate Foremost(g: GraphView, file: string, filter: Filter, max: nat, e: NamedEdge)
    requires LinksLand(g)
  {
    Reaching(g, file, filter, max, e) && IsFirst(Names(g.nodes, g.links), file, filter, e)
  }

  lemma RowsReach(g: GraphView, file: string, roots: seq<SymbolId>, filter: Filter, max: nat, q: QueryEdge)
    requires LinksLand(g) && ReachesIn(g, file, roots, filter, max, q)
    ensures Outside(Names(g.nodes, g.links), file, filter, q.edge) && Attained(g, roots, filter, max, q.edge.to)
  {
    hide Names, IsDistance;
    var root :| root in roots && FromRoot(g, root, filter, max, q);
    assert AttainedFrom(g, root, filter, max, q.edge.to);
  }

  lemma ReachHasRow(g: GraphView, file: string, roots: seq<SymbolId>, filter: Filter, max: nat, e: NamedEdge)
    returns (q: QueryEdge)
    requires LinksLand(g) && Outside(Names(g.nodes, g.links), file, filter, e) && Attained(g, roots, filter, max, e.to)
    ensures q.edge == e && ReachesIn(g, file, roots, filter, max, q)
  {
    hide Names, IsDistance;
    var root :| root in roots && AttainedFrom(g, root, filter, max, e.to);
    var d: nat :| d < max && IsDistance(Names(g.nodes, g.links), Walk(root, Incoming, filter), e.to, d);
    q := QueryEdge(e, d + 1);
    assert FromRoot(g, root, filter, max, q);
  }

  /** What an impact says, told of edges. */
  lemma ImpactTells(g: GraphView, file: string, filter: Filter, max: nat, i: Impact)
    requires LinksLand(g) && IsImpact(g, file, filter, max, i)
    ensures Apart(i.edges)
    ensures forall q :: q in i.edges ==> Foremost(g, file, filter, max, q.edge) && Heads(g, file, filter, max, q.edge)
    ensures forall e :: Heads(g, file, filter, max, e) ==> Refers(i.edges, e)
  {
    hide Names, ReachesIn, Attained, Leads, Outside, Refers, Apart, SortBy, Tallies;
    forall q | q in i.edges ensures Foremost(g, file, filter, max, q.edge) && Heads(g, file, filter, max, q.edge) {
      RowsReach(g, file, Roots(g, file), filter, max, q);
    }
  }

  // ── which references are listed ─────────────────────────────

  predicate Mentions(i: Impact, r: Reference) { HasReference(i.edges, r) }

  /** A reference is listed exactly when an edge that makes it reaches in and has the
      first referrer of its fact. */
  lemma ListedExactly(g: GraphView, file: string, filter: Filter, max: nat, i: Impact, r: Reference)
    requires LinksLand(g) && IsImpact(g, file, filter, max, i)
    ensures Mentions(i, r) <==> exists e :: Heads(g, file, filter, max, e) && ReferenceOf(e) == r
  {
    ImpactTells(g, file, filter, max, i);
    hide IsImpact, Heads, Foremost, ReferenceOf, Apart;
    if e :| Heads(g, file, filter, max, e) && ReferenceOf(e) == r { assert Refers(i.edges, e); }
  }

  /** Every reference that reaches in is listed exactly when each is made by an edge with
      the first referrer of its fact. */
  lemma AllReferencesListedExactly(g: GraphView, file: string, filter: Filter, max: nat, i: Impact)
    requires LinksLand(g) && IsImpact(g, file, filter, max, i)
    ensures (forall e :: Reaching(g, file, filter, max, e) ==> Mentions(i, ReferenceOf(e)))
      <==> forall e :: Reaching(g, file, filter, max, e) ==>
        exists o :: Heads(g, file, filter, max, o) && ReferenceOf(o) == ReferenceOf(e)
  {
    hide Reaching, Heads, IsImpact, Mentions, ReferenceOf;
    forall e ensures Mentions(i, ReferenceOf(e)) <==> exists o :: Heads(g, file, filter, max, o) && ReferenceOf(o) == ReferenceOf(e) {
      ListedExactly(g, file, filter, max, i, ReferenceOf(e));
    }
  }

  predicate HasRow(i: Impact, e: NamedEdge) { exists q :: q in i.edges && q.edge == e }

  /** No other edge that reaches in makes the same reference, by another kind or under
      another alias, and no referrer of the same fact sorts before. */
  ghost predicate StandsAlone(g: GraphView, file: string, filter: Filter, max: nat, e: NamedEdge)
    requires LinksLand(g)
  {
    && Leads(Names(g.nodes, g.links), filter, e)
    && forall o :: Reaching(g, file, filter, max, o) && ReferenceOf(o) == ReferenceOf(e) ==> o == e
  }

  /** Every edge that reaches in has its row, as promised, exactly when each of them
      stands alone. */
  lemma EveryEdgeListedExactly(g: GraphView, file: string, filter: Filter, max: nat, i: Impact)
    requires LinksLand(g) && IsImpact(g, file, filter, max, i)
    ensures (forall e :: Reaching(g, file, filter, max, e) ==> HasRow(i, e))
      <==> forall e :: Reaching(g, file, filter, max, e) ==> StandsAlone(g, file, filter, max, e)
  {
    ImpactTells(g, file, filter, max, i);
    hide IsImpact, Reaching, IsFirst, Leads, ReferenceOf, Names;
    if forall e :: Reaching(g, file, filter, max, e) ==> HasRow(i, e) {
      forall e | Reaching(g, file, filter, max, e) ensures StandsAlone(g, file, filter, max, e) {
        var q :| q in i.edges && q.edge == e;
        forall o | Reaching(g, file, filter, max, o) && ReferenceOf(o) == ReferenceOf(e) ensures o == e {
          var p :| p in i.edges && p.edge == o;
          OneRow(i.edges, p, q);
        }
      }
    }
    if forall e :: Reaching(g, file, filter, max, e) ==> StandsAlone(g, file, filter, max, e) {
      forall e | Reaching(g, file, filter, max, e) ensures HasRow(i, e) {
        assert Heads(g, file, filter, max, e);
        var q :| q in i.edges && ReferenceOf(q.edge) == ReferenceOf(e);
        assert Heads(g, file, filter, max, q.edge);
      }
    }
  }

  lemma OneRow(edges: seq<QueryEdge>, p: QueryEdge, q: QueryEdge)
    requires Apart(edges) && p in edges && q in edges && ReferenceOf(p.edge) == ReferenceOf(q.edge)
    ensures p == q
  {
    hide ReferenceOf;
    var i :| 0 <= i < |edges| && edges[i] == p;
    var j :| 0 <= j < |edges| && edges[j] == q;
  }

  // ── the first of a finite choice ────────────────────────────

  lemma {:induction false} LeastOf(key: NamedEdge -> SortKey, items: set<NamedEdge>) returns (least: NamedEdge)
    requires items != {}
    ensures least in items && forall o :: o in items ==> Le(key(least), key(o))
    decreases items
  {
    var x :| x in items;
    Reflexive(key(x));
    if items == {x} {
      least := x;
    } else {
      var rest := LeastOf(key, items - {x});
      Total(key(x), key(rest));
      if Le(key(x), key(rest)) {
        least := x;
        forall o | o in items ensures Le(key(x), key(o)) {
          if o != x { Transitive(key(x), key(rest), key(o)); }
        }
      } else {
        least := rest;
      }
    }
  }

  function FromKey(e: NamedEdge): SortKey { TextKey(e.from) }

  lemma FromKeyTells(a: NamedEdge, b: NamedEdge)
    ensures Le(FromKey(a), FromKey(b)) <==> CharsLe(a.from, b.from)
  {
    CharsTotal(a.from, a.from);
  }

  /** Some edge leads each fact. */
  lemma LeaderOf(es: seq<NamedEdge>, filter: Filter, e: NamedEdge) returns (l: NamedEdge)
    requires e in es && filter.Admits(e)
    ensures l in es && filter.Admits(l) && FactOf(l) == FactOf(e) && Leads(es, filter, l)
  {
    var items := set o | o in es && filter.Admits(o) && FactOf(o) == FactOf(e);
    assert e in items;
    hide FactOf;
    l := LeastOf(FromKey, items);
    forall o | o in es && filter.Admits(o) && FactOf(o) == FactOf(l) ensures CharsLe(l.from, o.from) {
      assert o in items;
      FromKeyTells(l, o);
    }
  }

  /** And one of the leading edges of each reference is first. */
  lemma FirstOf(es: seq<NamedEdge>, file: string, filter: Filter, e: NamedEdge) returns (l: NamedEdge)
    requires Outside(es, file, filter, e) && Leads(es, filter, e)
    ensures IsFirst(es, file, filter, l) && ReferenceOf(l) == ReferenceOf(e)
  {
    hide Leads, ReferenceOf, FactKey;
    var items := set o | o in es && Outside(es, file, filter, o) && Leads(es, filter, o) && ReferenceOf(o) == ReferenceOf(e);
    assert e in items;
    l := LeastOf(FactKey, items);
  }

  // ── which files are named ───────────────────────────────────

  lemma {:induction false} CountsRows(edges: seq<QueryEdge>, f: string)
    ensures CountFrom(edges, f) > 0 <==> exists q :: q in edges && q.edge.meta.file == f
  {
    if |edges| > 0 {
      var n := |edges| - 1;
      CountsRows(edges[..n], f);
      assert edges == edges[..n] + [edges[n]];
    }
  }

  /** A file is named exactly when the first fact of some reference comes from it. */
  lemma DependentExactly(g: GraphView, file: string, filter: Filter, max: nat, i: Impact, f: string)
    requires LinksLand(g) && IsImpact(g, file, filter, max, i)
    ensures f in i.dependents <==> exists e :: Foremost(g, file, filter, max, e) && e.meta.file == f
  {
    ImpactTells(g, file, filter, max, i);
    CountsRows(i.edges, f);
    assert Tallies(i.edges, i.dependents);
    hide CountFrom, Gathered, Leads, FactKey, Names, Attained, Apart, SortBy;
    if e :| Foremost(g, file, filter, max, e) && e.meta.file == f {
      assert Heads(g, file, filter, max, e);
      var q :| q in i.edges && ReferenceOf(q.edge) == ReferenceOf(e);
      SameFirst(g, file, filter, max, q.edge, e);
    }
  }

  lemma SameFirst(g: GraphView, file: string, filter: Filter, max: nat, a: NamedEdge, b: NamedEdge)
    requires LinksLand(g) && Foremost(g, file, filter, max, a) && Foremost(g, file, filter, max, b)
    requires ReferenceOf(a) == ReferenceOf(b)
    ensures FactKey(a) == FactKey(b) && a.meta.file == b.meta.file
  {
    hide Leads, Names, Attained;
    assert Le(FactKey(a), FactKey(b)) && Le(FactKey(b), FactKey(a));
    Total(FactKey(a), FactKey(b));
    assert FactKey(a)[0] == FactKey(b)[0];
  }

  /** Every file that reaches in is named exactly when each of them gives the first fact
      of some reference. */
  lemma AllDependentsExactly(g: GraphView, file: string, filter: Filter, max: nat, i: Impact)
    requires LinksLand(g) && IsImpact(g, file, filter, max, i)
    ensures (forall e :: Reaching(g, file, filter, max, e) ==> e.meta.file in i.dependents)
      <==> forall e :: Reaching(g, file, filter, max, e) ==>
        exists o :: Foremost(g, file, filter, max, o) && o.meta.file == e.meta.file
  {
    hide IsImpact, Reaching, Foremost;
    forall f ensures f in i.dependents <==> exists o :: Foremost(g, file, filter, max, o) && o.meta.file == f {
      DependentExactly(g, file, filter, max, i, f);
    }
  }

  /** A symbol refers from one file only. */
  ghost predicate SourcesStayInFile(es: seq<NamedEdge>) {
    forall e, o :: e in es && o in es && e.from == o.from ==> e.meta.file == o.meta.file
  }

  /** So it is where a symbol's references lie in one file, as they do when it is the file
      that declares it. */
  lemma OneFileEachIsEnough(g: GraphView, file: string, filter: Filter, max: nat, i: Impact, e: NamedEdge)
    requires LinksLand(g) && IsImpact(g, file, filter, max, i) && Reaching(g, file, filter, max, e)
    requires SourcesStayInFile(Names(g.nodes, g.links))
    ensures e.meta.file in i.dependents
  {
    var es := Names(g.nodes, g.links);
    hide IsImpact, Names, Attained, Leads;
    var l := LeaderOf(es, filter, e);
    SameFactSameKey(l, e);
    var o := FirstOf(es, file, filter, l);
    assert o in es && Foremost(g, file, filter, max, o);
    DependentExactly(g, file, filter, max, i, e.meta.file);
  }

  /** The references whose first fact comes from a file. */
  ghost function ReferencesFrom(g: GraphView, file: string, filter: Filter, max: nat, f: string): set<Reference>
    requires LinksLand(g)
  {
    set e | e in Names(g.nodes, g.links) && Foremost(g, file, filter, max, e) && e.meta.file == f :: ReferenceOf(e)
  }

  function Stated(edges: seq<QueryEdge>, f: string): set<Reference> {
    set q | q in edges && q.edge.meta.file == f :: ReferenceOf(q.edge)
  }

  lemma StatedOfMore(edges: seq<QueryEdge>, f: string)
    requires |edges| > 0 && Apart(edges)
    ensures var n := |edges| - 1; var r := ReferenceOf(edges[n].edge);
      && Apart(edges[..n]) && r !in Stated(edges[..n], f)
      && Stated(edges, f) == Stated(edges[..n], f) + if edges[n].edge.meta.file == f then {r} else {}
  {
    hide ReferenceOf;
    var n := |edges| - 1;
    assert edges == edges[..n] + [edges[n]];
    forall q | q in edges[..n] ensures ReferenceOf(q.edge) != ReferenceOf(edges[n].edge) {
      var i :| 0 <= i < n && edges[i] == q;
    }
  }

  lemma {:induction false} ApartCounts(edges: seq<QueryEdge>, f: string)
    requires Apart(edges)
    ensures CountFrom(edges, f) == |Stated(edges, f)|
  {
    hide ReferenceOf, Apart;
    if |edges| > 0 {
      StatedOfMore(edges, f);
      hide Stated;
      ApartCounts(edges[..|edges| - 1], f);
    }
  }

  lemma StatedExactly(g: GraphView, file: string, filter: Filter, max: nat, i: Impact, f: string)
    requires LinksLand(g) && IsImpact(g, file, filter, max, i)
    ensures Stated(i.edges, f) == ReferencesFrom(g, file, filter, max, f)
  {
    ImpactTells(g, file, filter, max, i);
    hide IsImpact, Foremost, Names, Apart, ReferenceOf;
    var es := Names(g.nodes, g.links);
    forall r | r in ReferencesFrom(g, file, filter, max, f) ensures r in Stated(i.edges, f) {
      var e :| e in es && Foremost(g, file, filter, max, e) && e.meta.file == f && ReferenceOf(e) == r;
      FirstHeads(g, file, filter, max, e);
      var q :| q in i.edges && ReferenceOf(q.edge) == ReferenceOf(e);
      SameFirst(g, file, filter, max, q.edge, e);
    }
    forall r | r in Stated(i.edges, f) ensures r in ReferencesFrom(g, file, filter, max, f) {
      var q :| q in i.edges && q.edge.meta.file == f && ReferenceOf(q.edge) == r;
      ForemostIsHeld(g, file, filter, max, q.edge);
    }
  }

  lemma ForemostIsHeld(g: GraphView, file: string, filter: Filter, max: nat, e: NamedEdge)
    requires LinksLand(g) && Foremost(g, file, filter, max, e)
    ensures e in Names(g.nodes, g.links)
  {
    hide Leads, Names, Attained;
  }

  /** And it is named with the number of them. */
  lemma DependentCounts(g: GraphView, file: string, filter: Filter, max: nat, i: Impact, f: string)
    requires LinksLand(g) && IsImpact(g, file, filter, max, i)
    ensures (if f in i.dependents then i.dependents[f] else 0) == |ReferencesFrom(g, file, filter, max, f)|
  {
    StatedExactly(g, file, filter, max, i, f);
    assert Tallies(i.edges, i.dependents) && Apart(i.edges);
    ApartCounts(i.edges, f);
    hide IsImpact, CountFrom, Stated, ReferencesFrom, Apart;
  }

  // ── whether all of it is resolved ───────────────────────────

  ghost predicate AllSafe(g: GraphView, file: string, filter: Filter, max: nat)
    requires LinksLand(g)
  {
    forall e :: Reaching(g, file, filter, max, e) ==> e.meta.resolution.GateSafe()
  }

  /** An edge that may stand for a reference, and that is resolved. */
  ghost predicate SafelyStood(g: GraphView, file: string, filter: Filter, max: nat, r: Reference, e: NamedEdge)
    requires LinksLand(g)
  {
    Foremost(g, file, filter, max, e) && ReferenceOf(e) == r && e.meta.resolution.GateSafe()
  }

  /** Some listed reference has no resolved edge to stand for it. */
  ghost predicate WeakIsListed(g: GraphView, file: string, filter: Filter, max: nat)
    requires LinksLand(g)
  {
    exists e :: Foremost(g, file, filter, max, e) && forall o :: !SafelyStood(g, file, filter, max, ReferenceOf(e), o)
  }

  /** The flag is never lowered without cause. */
  lemma SafeIsReported(g: GraphView, file: string, filter: Filter, max: nat, i: Impact)
    requires LinksLand(g) && IsImpact(g, file, filter, max, i)
    ensures AllSafe(g, file, filter, max) ==> i.gateSafe
    ensures WeakIsListed(g, file, filter, max) ==> !i.gateSafe
  {
    ImpactTells(g, file, filter, max, i);
    hide Gathered, IsFirst, Leads, Names, Reaching, Apart, SortBy, ReferenceOf, Tallies, BlindSpots;
    if e :| Foremost(g, file, filter, max, e) && forall o :: !SafelyStood(g, file, filter, max, ReferenceOf(e), o) {
      assert Heads(g, file, filter, max, e) by { FirstHeads(g, file, filter, max, e); }
      var q :| q in i.edges && ReferenceOf(q.edge) == ReferenceOf(e);
      assert !SafelyStood(g, file, filter, max, ReferenceOf(e), q.edge);
    }
  }

  lemma FirstHeads(g: GraphView, file: string, filter: Filter, max: nat, e: NamedEdge)
    requires LinksLand(g) && Foremost(g, file, filter, max, e)
    ensures Heads(g, file, filter, max, e)
  {
    hide Leads, Names;
  }

  /** A row for each of these references, resolved wherever it can be. */
  ghost predicate SafestRows(
    g: GraphView, file: string, filter: Filter, max: nat, refs: set<Reference>, edges: seq<QueryEdge>)
    requires LinksLand(g)
  {
    && Apart(edges)
    && (forall q :: q in edges ==>
        && ReachesIn(g, file, Roots(g, file), filter, max, q) && Foremost(g, file, filter, max, q.edge)
        && ReferenceOf(q.edge) in refs && IsSafest(g, file, filter, max, q.edge))
    && forall r :: r in refs ==> HasReference(edges, r)
  }

  predicate HasReference(edges: seq<QueryEdge>, r: Reference) { exists q :: q in edges && ReferenceOf(q.edge) == r }

  ghost predicate IsSafest(g: GraphView, file: string, filter: Filter, max: nat, e: NamedEdge)
    requires LinksLand(g)
  {
    e.meta.resolution.GateSafe() || forall o :: !SafelyStood(g, file, filter, max, ReferenceOf(e), o)
  }

  lemma SafestRow(g: GraphView, file: string, filter: Filter, max: nat, r: Reference) returns (q: QueryEdge)
    requires LinksLand(g) && exists e :: Foremost(g, file, filter, max, e) && ReferenceOf(e) == r
    ensures ReachesIn(g, file, Roots(g, file), filter, max, q) && Foremost(g, file, filter, max, q.edge)
    ensures ReferenceOf(q.edge) == r && IsSafest(g, file, filter, max, q.edge)
  {
    hide IsFirst, Names, Attained, Outside, ReferenceOf;
    var e :| Foremost(g, file, filter, max, e) && ReferenceOf(e) == r;
    if o :| SafelyStood(g, file, filter, max, r, o) { e := o; }
    q := ReachHasRow(g, file, Roots(g, file), filter, max, e);
  }

  lemma {:induction false} SafestChoice(g: GraphView, file: string, filter: Filter, max: nat, refs: set<Reference>)
    returns (edges: seq<QueryEdge>)
    requires LinksLand(g)
    requires forall r :: r in refs ==> exists e :: Foremost(g, file, filter, max, e) && ReferenceOf(e) == r
    ensures SafestRows(g, file, filter, max, refs, edges)
    decreases refs
  {
    hide Foremost, ReachesIn, ReferenceOf, IsSafest;
    if refs == {} {
      edges := [];
    } else {
      var r :| r in refs;
      var rest := SafestChoice(g, file, filter, max, refs - {r});
      var q := SafestRow(g, file, filter, max, r);
      OneMoreApart(rest, q);
      edges := rest + [q];
      forall x | x in refs ensures HasReference(edges, x) {
        if x == r {
          assert q in edges;
        } else {
          assert x in refs - {r};
          var k :| k in rest && ReferenceOf(k.edge) == x;
          assert k in edges;
        }
      }
    }
  }

  lemma OneMoreApart(rest: seq<QueryEdge>, q: QueryEdge)
    requires Apart(rest) && forall k :: k in rest ==> ReferenceOf(k.edge) != ReferenceOf(q.edge)
    ensures Apart(rest + [q])
  {
    hide ReferenceOf;
  }

  lemma SafestSorted(g: GraphView, file: string, filter: Filter, max: nat, edges: seq<QueryEdge>, refs: set<Reference>)
    requires LinksLand(g) && SafestRows(g, file, filter, max, refs, edges)
    requires refs == set e | e in Names(g.nodes, g.links) && Foremost(g, file, filter, max, e) :: ReferenceOf(e)
    ensures var sorted := SortBy(ImpactKey, edges);
      && Gathered(g, file, Roots(g, file), filter, max, sorted) && SortedBy(ImpactKey, sorted)
      && forall q :: q in sorted ==> IsSafest(g, file, filter, max, q.edge) && Foremost(g, file, filter, max, q.edge)
  {
    SafestGathered(g, file, filter, max, refs, edges);
    SortKeeps(ImpactKey, edges);
    hide Foremost, IsSafest, Gathered, Names, ReferenceOf, Apart, SortBy, ImpactKey, SortedBy, ReachesIn, HasReference;
    SortedGathered(g, file, Roots(g, file), filter, max, edges);
  }

  /** An impact as resolved as it can be; which of two edges with one key comes first is
      left to the order a node's edges are walked in. */
  lemma SafestImpact(g: GraphView, file: string, filter: Filter, max: nat) returns (i: Impact)
    requires LinksLand(g)
    ensures IsImpact(g, file, filter, max, i)
    ensures forall q :: q in i.edges ==> IsSafest(g, file, filter, max, q.edge) && Foremost(g, file, filter, max, q.edge)
  {
    var refs := set e | e in Names(g.nodes, g.links) && Foremost(g, file, filter, max, e) :: ReferenceOf(e);
    hide Foremost, IsSafest, Gathered, Names, ReferenceOf, SortBy, SafestRows, Tallies, SortedBy, BlindSpots;
    var edges := SafestChoice(g, file, filter, max, refs);
    SafestSorted(g, file, filter, max, edges, refs);
    var sorted := SortBy(ImpactKey, edges);
    var dependents := TallyOf(sorted);
    var safe := forall q :: q in sorted ==> q.edge.meta.resolution.GateSafe();
    i := Impact(Roots(g, file), sorted, dependents, safe, BlindSpots(Names(g.nodes, g.links)));
  }

  lemma TallyOf(edges: seq<QueryEdge>) returns (dependents: map<string, nat>)
    ensures Tallies(edges, dependents)
  {
    var files := set q | q in edges :: q.edge.meta.file;
    dependents := map f | f in files :: CountFrom(edges, f);
    forall f ensures CountFrom(edges, f) > 0 <==> f in files { CountsRows(edges, f); }
    hide CountFrom;
  }

  lemma SafestGathered(
    g: GraphView, file: string, filter: Filter, max: nat, refs: set<Reference>, edges: seq<QueryEdge>)
    requires LinksLand(g) && SafestRows(g, file, filter, max, refs, edges)
    requires refs == set e | e in Names(g.nodes, g.links) && Foremost(g, file, filter, max, e) :: ReferenceOf(e)
    ensures Gathered(g, file, Roots(g, file), filter, max, edges)
  {
    var es := Names(g.nodes, g.links);
    hide IsFirst, Leads, Attained, ReachesIn, Names, ReferenceOf, IsSafest, Apart;
    forall e | Outside(es, file, filter, e) && Leads(es, filter, e) && Attained(g, Roots(g, file), filter, max, e.to)
      ensures Refers(edges, e)
    {
      var l := FirstOf(es, file, filter, e);
      FirstIsReached(g, file, filter, max, e, l);
      assert ReferenceOf(l) in refs;
    }
  }

  lemma FirstIsReached(g: GraphView, file: string, filter: Filter, max: nat, e: NamedEdge, l: NamedEdge)
    requires LinksLand(g) && Attained(g, Roots(g, file), filter, max, e.to)
    requires IsFirst(Names(g.nodes, g.links), file, filter, l) && ReferenceOf(l) == ReferenceOf(e)
    ensures Foremost(g, file, filter, max, l) && l in Names(g.nodes, g.links)
  {
    hide Leads, Attained, Names;
  }

  /** The flag tells whether everything that reaches in is resolved, in whatever order
      edges are walked, exactly when all of it is or a reference that is listed has only
      unresolved edges to stand for it. */
  lemma FlagIsRightExactly(g: GraphView, file: string, filter: Filter, max: nat)
    requires LinksLand(g)
    ensures (forall i :: IsImpact(g, file, filter, max, i) ==> (i.gateSafe <==> AllSafe(g, file, filter, max)))
      <==> AllSafe(g, file, filter, max) || WeakIsListed(g, file, filter, max)
  {
    forall i | IsImpact(g, file, filter, max, i)
      ensures AllSafe(g, file, filter, max) ==> i.gateSafe
      ensures WeakIsListed(g, file, filter, max) ==> !i.gateSafe
    {
      SafeIsReported(g, file, filter, max, i);
    }
    var i := SafestImpact(g, file, filter, max);
    hide Gathered, Foremost, AllSafe, SafelyStood, ReferenceOf;
    if !WeakIsListed(g, file, filter, max) {
      forall q | q in i.edges ensures q.edge.meta.resolution.GateSafe() {
        assert IsSafest(g, file, filter, max, q.edge) && Foremost(g, file, filter, max, q.edge);
      }
    }
  }

  // ── the rest of an impact ───────────────────────────────────

  /** By file, line, source and target. */
  predicate RowLe(a: NamedEdge, b: NamedEdge) {
    if a.meta.file != b.meta.file then CharsLe(a.meta.file, b.meta.file)
    else if a.meta.line != b.meta.line then a.meta.line < b.meta.line
    else if a.from != b.from then CharsLe(a.from, b.from)
    else CharsLe(a.to, b.to)
  }

  lemma RowsCompare(a: QueryEdge, b: QueryEdge)
    ensures Le(ImpactKey(a), ImpactKey(b)) <==> RowLe(a.edge, b.edge)
  {
    var x, y := a.edge, b.edge;
    var endX, endY := [Text(x.from)] + [Text(x.to)], [Text(y.from)] + [Text(y.to)];
    assert ImpactKey(a) == [Text(x.meta.file)] + ([Num(x.meta.line)] + endX);
    assert ImpactKey(b) == [Text(y.meta.file)] + ([Num(y.meta.line)] + endY);
    Lex(Text(x.meta.file), Text(y.meta.file), [Num(x.meta.line)] + endX, [Num(y.meta.line)] + endY);
    Lex(Num(x.meta.line), Num(y.meta.line), endX, endY);
    Lex(Text(x.from), Text(y.from), [Text(x.to)], [Text(y.to)]);
    LastCompares(x.to, y.to);
    hide CharsLe, Le, ImpactKey;
  }

  /** The rows come in order, the flag is raised when all of them are resolved, and the
      blind spots are the files with an unresolved edge, anywhere in the graph. */
  lemma RowsInOrder(g: GraphView, file: string, filter: Filter, max: nat, i: Impact)
    requires LinksLand(g) && IsImpact(g, file, filter, max, i)
    ensures forall m, n :: 0 <= m < n < |i.edges| ==> RowLe(i.edges[m].edge, i.edges[n].edge)
    ensures i.gateSafe <==> forall q :: q in i.edges ==> q.edge.meta.resolution == Resolved
    ensures forall f :: f in i.blindSpots <==> IsBlind(g, f)
  {
    hide Gathered, Tallies, RowLe, ImpactKey, Le;
    forall m, n | 0 <= m < n < |i.edges| ensures RowLe(i.edges[m].edge, i.edges[n].edge) {
      RowsCompare(i.edges[m], i.edges[n]);
    }
    BlindFiles(g);
    hide BlindSpots, Names, SortBy;
  }

  ghost predicate IsBlind(g: GraphView, f: string) {
    exists l :: l in g.links && l.meta.resolution == Structural && l.meta.file == f
  }

  lemma BlindFiles(g: GraphView)
    requires LinksLand(g)
    ensures forall f :: f in BlindSpots(Names(g.nodes, g.links)) <==> IsBlind(g, f)
  {
    var es := Names(g.nodes, g.links);
    hide Names;
    forall f ensures f in BlindSpots(es) <==> IsBlind(g, f) {
      if f in BlindSpots(es) {
        var e :| e in es && !e.meta.resolution.GateSafe() && e.meta.file == f;
        var k :| 0 <= k < |es| && es[k] == e;
        assert g.links[k] in g.links;
      }
      if IsBlind(g, f) { BlindIsSpotted(g, f); }
    }
  }

  lemma BlindIsSpotted(g: GraphView, f: string)
    requires LinksLand(g) && IsBlind(g, f)
    ensures f in BlindSpots(Names(g.nodes, g.links))
  {
    var es := Names(g.nodes, g.links);
    hide Names;
    var l :| l in g.links && l.meta.resolution == Structural && l.meta.file == f;
    var k :| 0 <= k < |g.links| && g.links[k] == l;
    assert es[k] in es;
  }
}
