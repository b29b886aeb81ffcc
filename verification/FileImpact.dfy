/** What depends on the symbols of one file (query.rs). */
module FileImpact {
  import opened Wrappers
  import opened Ir
  import opened Ordering
  import opened GraphModel
  import opened Query
  import opened QueryRows

  datatype Impact = Impact(
    defined: seq<SymbolId>, edges: seq<QueryEdge>, dependents: map<string, nat>, gateSafe: bool, blindSpots: set<string>)

  /** Who refers to what, and on which line: what two rows may not share. */
  datatype Reference = Reference(from: SymbolId, to: SymbolId, line: u32)

  function ReferenceOf(e: NamedEdge): Reference { Reference(e.from, e.to, e.meta.line) }

  function FactOf(e: NamedEdge): RowIdentity { IdentityOf(QueryEdge(e, 0)) }

  function ImpactKey(q: QueryEdge): SortKey {
    [Text(q.edge.meta.file), Num(q.edge.meta.line), Text(q.edge.from), Text(q.edge.to)]
  }

  /** A row reaching one of these symbols from outside the file. */
  ghost predicate ReachesIn(
    g: GraphView, file: string, roots: seq<SymbolId>, filter: Filter, max: nat, q: QueryEdge)
    requires LinksLand(g)
  {
    && q.edge.meta.file != file && q.edge in Names(g.nodes, g.links)
    && exists root :: root in roots && FromRoot(g, root, filter, max, q)
  }

  ghost predicate FromRoot(g: GraphView, root: SymbolId, filter: Filter, max: nat, q: QueryEdge)
    requires LinksLand(g)
  {
    root in g.nodeIndex && IsRow(Names(g.nodes, g.links), Walk(root, Incoming, filter), max, q)
  }

  // ── which references are listed ─────────────────────────────

  predicate Outside(es: seq<NamedEdge>, file: string, filter: Filter, e: NamedEdge) {
    e in es && filter.Admits(e) && e.meta.file != file
  }

  /** Of the admitted edges that give one fact, none has a referrer that sorts before. */
  ghost predicate Leads(es: seq<NamedEdge>, filter: Filter, e: NamedEdge) {
    forall o :: o in es && filter.Admits(o) && FactOf(o) == FactOf(e) ==> CharsLe(e.from, o.from)
  }

  /** How the facts that one reference may stand for are ordered. */
  function FactKey(e: NamedEdge): SortKey {
    [Text(e.meta.file), Text(KindName(e.meta.kind)), AliasAtom(e.meta.alias)]
  }

  /** Of the leading edges with one reference, one that gives the first of their facts. */
  ghost predicate IsFirst(es: seq<NamedEdge>, file: string, filter: Filter, e: NamedEdge) {
    && Outside(es, file, filter, e) && Leads(es, filter, e)
    && forall o :: Outside(es, file, filter, o) && Leads(es, filter, o) && ReferenceOf(o) == ReferenceOf(e) ==>
      Le(FactKey(e), FactKey(o))
  }

  /** Within reach of one of these symbols, and short of the limit. */
  ghost predicate Attained(g: GraphView, roots: seq<SymbolId>, filter: Filter, max: nat, t: SymbolId)
    requires LinksLand(g)
  {
    exists root :: root in roots && AttainedFrom(g, root, filter, max, t)
  }

  ghost predicate AttainedFrom(g: GraphView, root: SymbolId, filter: Filter, max: nat, t: SymbolId)
    requires LinksLand(g)
  {
    root in g.nodeIndex
    && exists d: nat :: d < max && IsDistance(Names(g.nodes, g.links), Walk(root, Incoming, filter), t, d)
  }

  predicate Refers(edges: seq<QueryEdge>, e: NamedEdge) {
    exists k :: k in edges && ReferenceOf(k.edge) == ReferenceOf(e)
  }

  predicate Apart(edges: seq<QueryEdge>) {
    forall i, j :: 0 <= i < j < |edges| ==> ReferenceOf(edges[i].edge) != ReferenceOf(edges[j].edge)
  }

  /** The references listed are those of the leading edges that reach in, no reference
      twice, each by the first of its facts. */
  ghost predicate Gathered(
    g: GraphView, file: string, roots: seq<SymbolId>, filter: Filter, max: nat, edges: seq<QueryEdge>)
    requires LinksLand(g)
  {
    var es := Names(g.nodes, g.links);
    && (forall q :: q in edges ==> ReachesIn(g, file, roots, filter, max, q) && IsFirst(es, file, filter, q.edge))
    && Apart(edges)
    && forall e :: Outside(es, file, filter, e) && Leads(es, filter, e) && Attained(g, roots, filter, max, e.to) ==>
      Refers(edges, e)
  }

  function CountFrom(edges: seq<QueryEdge>, file: string): nat {
    if |edges| == 0 then 0
    else CountFrom(edges[..|edges| - 1], file) + if edges[|edges| - 1].edge.meta.file == file then 1 else 0
  }

  function BlindSpots(es: seq<NamedEdge>): set<string> {
    set e | e in es && !e.meta.resolution.GateSafe() :: e.meta.file
  }

  /** How many rows come from each file; a file none comes from is not named. */
  ghost predicate Tallies(edges: seq<QueryEdge>, dependents: map<string, nat>) {
    forall f :: (if f in dependents then dependents[f] else 0) == CountFrom(edges, f) && (f in dependents ==> dependents[f] > 0)
  }

  ghost predicate IsImpact(g: GraphView, file: string, filter: Filter, max: nat, i: Impact)
    requires LinksLand(g)
  {
    && i.defined == SortBy(TextKey, At(g.fileIndex, file))
    && Gathered(g, file, i.defined, filter, max, i.edges) && SortedBy(ImpactKey, i.edges)
    && Tallies(i.edges, i.dependents)
    && (i.gateSafe <==> forall q :: q in i.edges ==> q.edge.meta.resolution.GateSafe())
    && i.blindSpots == BlindSpots(Names(g.nodes, g.links))
  }

  predicate NoneBefore(file: string, found: seq<QueryEdge>, i: nat)
    requires i < |found|
  {
    forall j :: 0 <= j < i && found[j].edge.meta.file != file ==> ReferenceOf(found[j].edge) != ReferenceOf(found[i].edge)
  }

  /** The first row of its reference in an answer. */
  predicate FirstFound(file: string, found: seq<QueryEdge>, q: QueryEdge) {
    && q.edge.meta.file != file
    && (exists i :: 0 <= i < |found| && found[i] == q && NoneBefore(file, found, i))
  }

  /** The rows of one answer that come from outside, those already held left out. */
  method Gather(file: string, found: seq<QueryEdge>, edges: seq<QueryEdge>, seen: set<Reference>)
    returns (edges': seq<QueryEdge>, seen': set<Reference>)
    requires seen == set q | q in edges :: ReferenceOf(q.edge)
    requires Apart(edges)
    ensures seen' == set q | q in edges' :: ReferenceOf(q.edge)
    ensures Apart(edges')
    ensures forall q :: q in edges' ==> q in edges || FirstFound(file, found, q)
    ensures edges <= edges' && forall q :: q in found && q.edge.meta.file != file ==> Refers(edges', q.edge)
  {
    edges', seen' := edges, seen;
    for i := 0 to |found|
      invariant seen' == set q | q in edges' :: ReferenceOf(q.edge)
      invariant Apart(edges')
      invariant forall q :: q in edges' ==> q in edges || FirstFound(file, found, q)
      invariant edges <= edges'
      invariant forall j :: 0 <= j < i && found[j].edge.meta.file != file ==> ReferenceOf(found[j].edge) in seen'
    {
      var edge := found[i];
      if edge.edge.meta.file == file { continue; }
      if ReferenceOf(edge.edge) !in seen' {
        NewReference(edges', edge);
        assert NoneBefore(file, found, i) && FirstFound(file, found, edge);
        edges', seen' := edges' + [edge], seen' + {ReferenceOf(edge.edge)};
      }
    }
    hide ReferenceOf;
    forall q | q in found && q.edge.meta.file != file ensures Refers(edges', q.edge) {
      assert ReferenceOf(q.edge) in seen';
    }
  }

  lemma NewReference(edges: seq<QueryEdge>, q: QueryEdge)
    requires Apart(edges) && ReferenceOf(q.edge) !in set x | x in edges :: ReferenceOf(x.edge)
    ensures Apart(edges + [q])
  {
    forall i | 0 <= i < |edges| ensures ReferenceOf(edges[i].edge) != ReferenceOf(q.edge) { assert edges[i] in edges; }
    hide ReferenceOf;
  }

  // ── one answer ──────────────────────────────────────────────

  /** Rows at one target lie one hop beyond it. */
  lemma SameTargetSameHop(es: seq<NamedEdge>, w: Walk, max: nat, a: QueryEdge, b: QueryEdge)
    requires w.dir.Incoming? && IsRow(es, w, max, a) && IsRow(es, w, max, b) && a.edge.to == b.edge.to
    ensures a.hop == b.hop
  {
    hide Within;
    DistanceIsUnique(es, w, a.edge.to, a.hop - 1, b.hop - 1);
  }

  /** An answer's rows lead, so which one survives does not turn on the root. */
  lemma AnswerLeads(es: seq<NamedEdge>, w: Walk, max: nat, found: seq<QueryEdge>, k: QueryEdge)
    requires w.dir.Incoming? && Answers(es, w, max, found) && k in found
    ensures k.edge in es && w.filter.Admits(k.edge) && Leads(es, w.filter, k.edge)
  {
    hide Within, RowKey;
    forall o | o in es && w.filter.Admits(o) && FactOf(o) == FactOf(k.edge) ensures CharsLe(k.edge.from, o.from) {
      var q := QueryEdge(o, k.hop);
      assert IsRow(es, w, max, q) && Represents(found, q);
      var r :| r in found && IdentityOf(r) == IdentityOf(q) && Le(RowKey(r), RowKey(q));
      OnlyOne(found, r, k);
      OrderWithinIdentity(k, q);
    }
  }

  /** A leading edge within reach has a row of its fact, by its referrer. */
  lemma LeaderAnswered(es: seq<NamedEdge>, w: Walk, max: nat, found: seq<QueryEdge>, e: NamedEdge, d: nat) returns (k: QueryEdge)
    requires w.dir.Incoming? && Answers(es, w, max, found)
    requires e in es && w.filter.Admits(e) && Leads(es, w.filter, e) && d < max && IsDistance(es, w, e.to, d)
    ensures k in found && FactOf(k.edge) == FactOf(e) && k.edge.from == e.from
  {
    hide Within, RowKey;
    var q := QueryEdge(e, d + 1);
    assert IsRow(es, w, max, q) && Represents(found, q);
    k :| k in found && IdentityOf(k) == IdentityOf(q) && Le(RowKey(k), RowKey(q));
    assert IsRow(es, w, max, k);
    SameTargetSameHop(es, w, max, k, q);
    OrderWithinIdentity(k, q);
    CharsTotal(k.edge.from, e.from);
  }

  /** Rows with one reference come in the order of their facts. */
  lemma FactsInOrder(a: QueryEdge, b: QueryEdge)
    requires ReferenceOf(a.edge) == ReferenceOf(b.edge) && a.hop == b.hop && Le(RowKey(a), RowKey(b))
    ensures Le(FactKey(a.edge), FactKey(b.edge))
  {
    var k, l := RowKey(a), RowKey(b);
    if a.edge.meta.file == b.edge.meta.file {
      assert k[..4] == l[..4] && k == k[..4] + k[4..] && l == l[..4] + l[4..];
      SamePrefix(k[..4], k[4..], l[4..]);
      var x, y := FactKey(a.edge), FactKey(b.edge);
      assert k[4..] == x[1..] + [Text(a.edge.from)] && l[4..] == y[1..] + [Text(b.edge.from)];
      SameSuffix(x[1..], y[1..], Text(a.edge.from));
    } else {
      assert k[1..][0] != l[1..][0] && AtomLe(k[1], l[1]);
    }
  }

  lemma {:induction false} SameSuffix(a: SortKey, b: SortKey, x: Atom)
    requires |a| == |b| && Le(a + [x], b + [x])
    ensures Le(a, b)
  {
    if |a| > 0 && a[0] == b[0] {
      assert (a + [x])[1..] == a[1..] + [x] && (b + [x])[1..] == b[1..] + [x];
      SameSuffix(a[1..], b[1..], x);
    }
  }

  lemma NoneSooner(es: seq<NamedEdge>, file: string, w: Walk, max: nat, found: seq<QueryEdge>, q: QueryEdge, o: NamedEdge)
    requires w.dir.Incoming? && Answers(es, w, max, found) && FirstFound(file, found, q) && IsRow(es, w, max, q)
    requires Outside(es, file, w.filter, o) && Leads(es, w.filter, o) && ReferenceOf(o) == ReferenceOf(q.edge)
    ensures Le(FactKey(q.edge), FactKey(o))
  {
    hide Leads, FactKey, RowKey, FactOf, Within, Represents, IsDistance;
    var k := LeaderAnswered(es, w, max, found, o, q.hop - 1);
    SameFactSameKey(k.edge, o);
    assert IsRow(es, w, max, k);
    SameTargetSameHop(es, w, max, k, q);
    hide IsRow, Outside;
    var i :| 0 <= i < |found| && found[i] == q && NoneBefore(file, found, i);
    var j :| 0 <= j < |found| && found[j] == k;
    if i < j { FactsInOrder(q, k); } else { assert i == j; Reflexive(FactKey(o)); }
  }

  /** A reference's first row in an answer gives the first of its facts. */
  lemma FoundFirst(es: seq<NamedEdge>, file: string, w: Walk, max: nat, found: seq<QueryEdge>, q: QueryEdge)
    requires w.dir.Incoming? && Answers(es, w, max, found) && FirstFound(file, found, q)
    ensures IsFirst(es, file, w.filter, q.edge)
  {
    hide Leads, FactKey, RowKey, FactOf, Within, Represents, IsDistance;
    AnswerLeads(es, w, max, found, q);
    assert IsRow(es, w, max, q);
    forall o | Outside(es, file, w.filter, o) && Leads(es, w.filter, o) && ReferenceOf(o) == ReferenceOf(q.edge)
      ensures Le(FactKey(q.edge), FactKey(o))
    {
      NoneSooner(es, file, w, max, found, q, o);
    }
  }

  lemma SameFactSameKey(a: NamedEdge, b: NamedEdge)
    requires FactOf(a) == FactOf(b)
    ensures FactKey(a) == FactKey(b) && a.to == b.to && a.meta.line == b.meta.line && a.meta.file == b.meta.file
  {
  }

  // ── root by root ────────────────────────────────────────────

  lemma MoreRoots(g: GraphView, file: string, roots: seq<SymbolId>, n: nat, filter: Filter, max: nat, q: QueryEdge)
    requires LinksLand(g) && n < |roots|
    ensures ReachesIn(g, file, roots[..n], filter, max, q) ==> ReachesIn(g, file, roots[..n + 1], filter, max, q)
    ensures q.edge.meta.file != file && q.edge in Names(g.nodes, g.links) && FromRoot(g, roots[n], filter, max, q) ==>
      ReachesIn(g, file, roots[..n + 1], filter, max, q)
  {
    hide FromRoot, Names;
    assert roots[..n + 1] == roots[..n] + [roots[n]];
    assert roots[n] in roots[..n + 1];
  }

  lemma MoreAttained(g: GraphView, roots: seq<SymbolId>, n: nat, filter: Filter, max: nat, t: SymbolId)
    requires LinksLand(g) && n < |roots|
    ensures Attained(g, roots[..n + 1], filter, max, t) <==>
      Attained(g, roots[..n], filter, max, t) || AttainedFrom(g, roots[n], filter, max, t)
  {
    hide AttainedFrom, Names;
    assert roots[..n + 1] == roots[..n] + [roots[n]];
    assert roots[n] in roots[..n + 1];
  }

  lemma NoMoreRoots(g: GraphView, file: string, roots: seq<SymbolId>, n: nat, filter: Filter, max: nat, edges: seq<QueryEdge>)
    requires LinksLand(g) && n < |roots| && Gathered(g, file, roots[..n], filter, max, edges)
    requires roots[n] !in g.nodeIndex
    ensures Gathered(g, file, roots[..n + 1], filter, max, edges)
  {
    forall t ensures !AttainedFrom(g, roots[n], filter, max, t) { }
    hide ReachesIn, IsFirst, Outside, Leads, Attained, AttainedFrom, Refers, Names;
    forall q | q in edges ensures ReachesIn(g, file, roots[..n + 1], filter, max, q) {
      MoreRoots(g, file, roots, n, filter, max, q);
    }
    forall t ensures Attained(g, roots[..n + 1], filter, max, t) <==> Attained(g, roots[..n], filter, max, t) {
      MoreAttained(g, roots, n, filter, max, t);
    }
  }

  lemma RefersMore(edges: seq<QueryEdge>, edges': seq<QueryEdge>, e: NamedEdge)
    requires Refers(edges, e) && edges <= edges'
    ensures Refers(edges', e)
  {
    hide ReferenceOf;
    var k :| k in edges && ReferenceOf(k.edge) == ReferenceOf(e);
    assert k in edges';
  }

  /** What an answer brings: its new rows reach in and are first, and each leading edge
      within its reach is referred to. */
  lemma AnswerBrings(g: GraphView, file: string, root: SymbolId, filter: Filter, max: nat, found: seq<QueryEdge>)
    requires LinksLand(g) && root in g.nodeIndex
    requires Answers(Names(g.nodes, g.links), Walk(root, Incoming, filter), max, found)
    ensures forall q :: FirstFound(file, found, q) ==>
      && q.edge in Names(g.nodes, g.links) && FromRoot(g, root, filter, max, q)
      && IsFirst(Names(g.nodes, g.links), file, filter, q.edge)
    ensures forall e ::
      (var es := Names(g.nodes, g.links);
       Outside(es, file, filter, e) && Leads(es, filter, e) && AttainedFrom(g, root, filter, max, e.to)) ==>
      exists k :: k in found && k.edge.meta.file != file && ReferenceOf(k.edge) == ReferenceOf(e)
  {
    var es, w := Names(g.nodes, g.links), Walk(root, Incoming, filter);
    hide Names, IsFirst, Leads, Represents, IsDistance, RowKey, FactOf;
    forall q | FirstFound(file, found, q)
      ensures q.edge in es && FromRoot(g, root, filter, max, q) && IsFirst(es, file, filter, q.edge)
    {
      FoundFirst(es, file, w, max, found, q);
    }
    forall e | Outside(es, file, filter, e) && Leads(es, filter, e) && AttainedFrom(g, root, filter, max, e.to)
      ensures exists k :: k in found && k.edge.meta.file != file && ReferenceOf(k.edge) == ReferenceOf(e)
    {
      var d: nat :| d < max && IsDistance(es, w, e.to, d);
      var k := LeaderAnswered(es, w, max, found, e, d);
      SameFactSameKey(k.edge, e);
    }
  }

  lemma OneMoreRoot(
    g: GraphView, file: string, roots: seq<SymbolId>, n: nat, filter: Filter, max: nat,
    edges: seq<QueryEdge>, found: seq<QueryEdge>, edges': seq<QueryEdge>)
    requires LinksLand(g) && n < |roots| && Gathered(g, file, roots[..n], filter, max, edges)
    requires roots[n] in g.nodeIndex && Answers(Names(g.nodes, g.links), Walk(roots[n], Incoming, filter), max, found)
    requires Apart(edges') && forall q :: q in edges' ==> q in edges || FirstFound(file, found, q)
    requires edges <= edges' && forall q :: q in found && q.edge.meta.file != file ==> Refers(edges', q.edge)
    ensures Gathered(g, file, roots[..n + 1], filter, max, edges')
  {
    hide Answers, ReachesIn, Names, IsFirst, Leads, Attained, AttainedFrom, FromRoot, Apart, Outside;
    AnswerBrings(g, file, roots[n], filter, max, found);
    var es := Names(g.nodes, g.links);
    forall q | q in edges' ensures ReachesIn(g, file, roots[..n + 1], filter, max, q) && IsFirst(es, file, filter, q.edge) {
      FirstIsOutside(file, found, q);
      MoreRoots(g, file, roots, n, filter, max, q);
    }
    forall e | Outside(es, file, filter, e) && Leads(es, filter, e) && Attained(g, roots[..n + 1], filter, max, e.to)
      ensures Refers(edges', e)
    {
      MoreAttained(g, roots, n, filter, max, e.to);
      if Attained(g, roots[..n], filter, max, e.to) { RefersMore(edges, edges', e); }
    }
  }

  lemma FirstIsOutside(file: string, found: seq<QueryEdge>, q: QueryEdge)
    ensures FirstFound(file, found, q) ==> q.edge.meta.file != file
  {
  }

  method Tally(edges: seq<QueryEdge>) returns (dependents: map<string, nat>)
    ensures Tallies(edges, dependents)
  {
    dependents := map[];
    for i := 0 to |edges|
      invariant Tallies(edges[..i], dependents)
    {
      assert edges[..i + 1][..i] == edges[..i];
      var f := edges[i].edge.meta.file;
      dependents := dependents[f := (if f in dependents then dependents[f] else 0) + 1];
    }
    assert edges[..|edges|] == edges;
  }

  lemma RefersSorted(edges: seq<QueryEdge>, e: NamedEdge)
    ensures Refers(SortBy(ImpactKey, edges), e) <==> Refers(edges, e)
  {
    SortKeeps(ImpactKey, edges);
    hide SortBy, ReferenceOf;
    var sorted := SortBy(ImpactKey, edges);
    if Refers(edges, e) {
      var k :| k in edges && ReferenceOf(k.edge) == ReferenceOf(e);
      assert k in sorted;
    }
    if Refers(sorted, e) {
      var k :| k in sorted && ReferenceOf(k.edge) == ReferenceOf(e);
      assert k in edges;
    }
  }

  lemma SortedGathered(g: GraphView, file: string, roots: seq<SymbolId>, filter: Filter, max: nat, edges: seq<QueryEdge>)
    requires LinksLand(g) && Gathered(g, file, roots, filter, max, edges)
    ensures Gathered(g, file, roots, filter, max, SortBy(ImpactKey, edges)) && SortedBy(ImpactKey, SortBy(ImpactKey, edges))
  {
    hide ReachesIn, SortBy, ImpactKey, SortedBy, IsFirst, Leads, Attained, Outside, Refers, Apart, Names;
    var sorted := SortBy(ImpactKey, edges);
    Sorts(ImpactKey, edges);
    SortKeeps(ImpactKey, edges);
    StayApart(edges, sorted);
    forall e ensures Refers(sorted, e) <==> Refers(edges, e) { RefersSorted(edges, e); }
  }

  lemma StayApart(xs: seq<QueryEdge>, ys: seq<QueryEdge>)
    requires multiset(xs) == multiset(ys) && Apart(xs)
    ensures Apart(ys)
  {
    hide ReferenceOf;
    OnceEach(xs);
    forall i, j | 0 <= i < j < |ys| ensures ReferenceOf(ys[i].edge) != ReferenceOf(ys[j].edge) {
      if ys[i] == ys[j] { TwiceCounts(ys, i, j); }
      assert ys[i] in multiset(xs) && ys[j] in multiset(xs);
      var a :| 0 <= a < |xs| && xs[a] == ys[i];
      var b :| 0 <= b < |xs| && xs[b] == ys[j];
    }
  }

  method FileImpactOf(g: GraphView, file: string, depth: Option<nat>, filter: Filter) returns (r: Result<Impact, QueryError>)
    requires IndexIsInverse(g) && LinksLand(g)
    ensures var effective := depth.GetOr(DEFAULT_DEPTH);
      && (r.Err? <==> effective > MAX_DEPTH)
      && (r.Ok? ==> IsImpact(g, file, filter, effective, r.value))
  {
    hide Gathered, Answers, IndexIsInverse, SortBy, Names, CountFrom, Refers, FirstFound, Apart, ReferenceOf;
    var effective := depth.GetOr(DEFAULT_DEPTH);
    if effective > MAX_DEPTH {
      return Err(InvalidDepth(effective, MAX_DEPTH));
    }
    var defined := SortBy(TextKey, At(g.fileIndex, file));
    var edges: seq<QueryEdge>, seen: set<Reference> := [], {};
    NothingGathered(g, file, defined, filter, effective);
    for n := 0 to |defined|
      invariant Gathered(g, file, defined[..n], filter, effective, edges)
      invariant Apart(edges)
      invariant seen == set q | q in edges :: ReferenceOf(q.edge)
    {
      var found := Traverse(g, defined[n], effective, Incoming, filter);
      if found.Err? {
        NoMoreRoots(g, file, defined, n, filter, effective, edges);
        continue;
      }
      var more, met := Gather(file, found.value, edges, seen);
      OneMoreRoot(g, file, defined, n, filter, effective, edges, found.value, more);
      edges, seen := more, met;
    }
    assert defined[..|defined|] == defined;
    SortedGathered(g, file, defined, filter, effective, edges);
    edges := SortBy(ImpactKey, edges);
    var dependents := Tally(edges);
    var gateSafe := forall q :: q in edges ==> q.edge.meta.resolution.GateSafe();
    r := Ok(Impact(defined, edges, dependents, gateSafe, BlindSpots(Names(g.nodes, g.links))));
  }

  lemma NothingGathered(g: GraphView, file: string, roots: seq<SymbolId>, filter: Filter, max: nat)
    requires LinksLand(g)
    ensures Gathered(g, file, roots[..0], filter, max, []) && Apart([])
  {
    hide FromRoot, AttainedFrom, Leads, Outside;
  }
}
