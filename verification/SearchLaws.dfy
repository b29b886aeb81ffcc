/** What a bounded search meets, told by chains of edges and their two ends (query.rs,
    `traverse`): which way it goes, how far, and in what order its rows come. */
module SearchLaws {
  import opened Wrappers
  import opened Ir
  import opened Ordering
  import opened GraphModel
  import opened Query
  import opened QueryRows

  /** Of a kind that was asked for, and resolved where that was asked for. */
  predicate Follows(filter: Filter, e: NamedEdge) {
    e.meta.kind in filter.kinds && (filter.floor == Structural || e.meta.resolution == Resolved)
  }

  /** Edges head to tail, from the root on. */
  ghost predicate OutChain(es: seq<NamedEdge>, filter: Filter, root: SymbolId, c: seq<NamedEdge>) {
    && |c| >= 1 && c[0].from == root
    && (forall i :: 0 <= i < |c| ==> c[i] in es && Follows(filter, c[i]))
    && forall i, j :: 0 <= i && j == i + 1 < |c| ==> c[i].to == c[j].from
  }

  /** Edges tail to head, back from the root. */
  ghost predicate InChain(es: seq<NamedEdge>, filter: Filter, root: SymbolId, c: seq<NamedEdge>) {
    && |c| >= 1 && c[0].to == root
    && (forall i :: 0 <= i < |c| ==> c[i] in es && Follows(filter, c[i]))
    && forall i, j :: 0 <= i && j == i + 1 < |c| ==> c[i].from == c[j].to
  }

  /** An edge `n` hops out: the last of a chain of `n`, at a source that is not the root
      unless `n` is one, and that no shorter chain arrives at. */
  ghost predicate MetOut(es: seq<NamedEdge>, filter: Filter, root: SymbolId, e: NamedEdge, n: nat) {
    && (exists c :: OutChain(es, filter, root, c) && |c| == n && c[|c| - 1] == e)
    && (n > 1 ==> e.from != root)
    && forall c: seq<NamedEdge> :: OutChain(es, filter, root, c) && c[|c| - 1].to == e.from ==> |c| + 1 >= n
  }

  ghost predicate MetIn(es: seq<NamedEdge>, filter: Filter, root: SymbolId, e: NamedEdge, n: nat) {
    && (exists c :: InChain(es, filter, root, c) && |c| == n && c[|c| - 1] == e)
    && (n > 1 ==> e.to != root)
    && forall c: seq<NamedEdge> :: InChain(es, filter, root, c) && c[|c| - 1].from == e.to ==> |c| + 1 >= n
  }

  // ── chains, whichever way ───────────────────────────────────

  ghost predicate Chain(es: seq<NamedEdge>, w: Walk, c: seq<NamedEdge>) {
    && |c| >= 1 && w.Near(c[0]) == w.root
    && (forall i :: 0 <= i < |c| ==> c[i] in es && w.filter.Admits(c[i]))
    && forall i, j :: 0 <= i && j == i + 1 < |c| ==> w.Far(c[i]) == w.Near(c[j])
  }

  ghost predicate Arrives(es: seq<NamedEdge>, w: Walk, c: seq<NamedEdge>, id: SymbolId) {
    Chain(es, w, c) && w.Far(c[|c| - 1]) == id
  }

  lemma OneLink(es: seq<NamedEdge>, w: Walk, e: NamedEdge)
    requires e in es && w.filter.Admits(e) && w.Near(e) == w.root
    ensures Chain(es, w, [e])
  {
  }

  lemma LongerChain(es: seq<NamedEdge>, w: Walk, c: seq<NamedEdge>, e: NamedEdge)
    requires e in es && w.filter.Admits(e) && Arrives(es, w, c, w.Near(e))
    ensures Chain(es, w, c + [e])
  {
  }

  lemma ShorterChain(es: seq<NamedEdge>, w: Walk, c: seq<NamedEdge>)
    requires Chain(es, w, c) && |c| > 1
    ensures Arrives(es, w, c[..|c| - 1], w.Near(c[|c| - 1]))
  {
  }

  lemma {:induction false} WithinHasChain(es: seq<NamedEdge>, w: Walk, d: nat, id: SymbolId) returns (c: seq<NamedEdge>)
    requires id in Within(es, w, d) && id != w.root
    ensures Arrives(es, w, c, id) && |c| <= d
  {
    hide Chain;
    if id in Within(es, w, d - 1) {
      c := WithinHasChain(es, w, d - 1, id);
    } else {
      var e :| e in es && w.filter.Admits(e) && w.Near(e) in Within(es, w, d - 1) && w.Far(e) == id;
      if w.Near(e) == w.root {
        OneLink(es, w, e);
        c := [e];
      } else {
        var before := WithinHasChain(es, w, d - 1, w.Near(e));
        LongerChain(es, w, before, e);
        c := before + [e];
      }
    }
  }

  lemma {:induction false} ChainIsWithin(es: seq<NamedEdge>, w: Walk, c: seq<NamedEdge>)
    requires Chain(es, w, c)
    ensures w.Far(c[|c| - 1]) in Within(es, w, |c|) && w.Near(c[|c| - 1]) in Within(es, w, |c| - 1)
    decreases |c|
  {
    if |c| > 1 {
      ShorterChain(es, w, c);
      ChainIsWithin(es, w, c[..|c| - 1]);
    }
    assert c[|c| - 1] in es && w.filter.Admits(c[|c| - 1]);
  }

  ghost predicate Met(es: seq<NamedEdge>, w: Walk, e: NamedEdge, n: nat) {
    && (exists c :: Chain(es, w, c) && |c| == n && c[|c| - 1] == e)
    && (n > 1 ==> w.Near(e) != w.root)
    && forall c :: Arrives(es, w, c, w.Near(e)) ==> |c| + 1 >= n
  }

  lemma RowIsMet(es: seq<NamedEdge>, w: Walk, max: nat, q: QueryEdge)
    requires q.edge in es && IsRow(es, w, max, q)
    ensures Met(es, w, q.edge, q.hop)
  {
    var near, n := w.Near(q.edge), q.hop;
    hide Within, Chain;
    WithinGrows(es, w, 0, n - 1);
    RootIsWithin(es, w);
    forall c | Arrives(es, w, c, near) ensures |c| + 1 >= n {
      ChainIsWithin(es, w, c);
      if |c| + 1 < n { WithinGrows(es, w, |c|, n - 2); }
    }
    if near == w.root {
      if n > 1 { WithinGrows(es, w, 0, n - 2); }
      OneLink(es, w, q.edge);
      assert [q.edge][0] == q.edge;
    } else {
      var c := WithinHasChain(es, w, n - 1, near);
      LongerChain(es, w, c, q.edge);
      assert (c + [q.edge])[|c|] == q.edge;
    }
  }

  lemma RootIsWithin(es: seq<NamedEdge>, w: Walk)
    ensures forall id :: id in Within(es, w, 0) <==> id == w.root
  {
  }

  lemma MetIsRow(es: seq<NamedEdge>, w: Walk, max: nat, e: NamedEdge, n: nat)
    requires Met(es, w, e, n) && 1 <= n <= max
    ensures e in es && IsRow(es, w, max, QueryEdge(e, n))
  {
    var c :| Chain(es, w, c) && |c| == n && c[|c| - 1] == e;
    ChainIsWithin(es, w, c);
    ChainHolds(es, w, c);
    hide Within, Chain;
    if n > 1 && w.Near(e) in Within(es, w, n - 2) {
      var s := WithinHasChain(es, w, n - 2, w.Near(e));
      assert false;
    }
  }

  lemma ChainHolds(es: seq<NamedEdge>, w: Walk, c: seq<NamedEdge>)
    requires Chain(es, w, c)
    ensures c[|c| - 1] in es && w.filter.Admits(c[|c| - 1])
  {
  }

  // ── each way ────────────────────────────────────────────────

  lemma OutIsChain(es: seq<NamedEdge>, filter: Filter, root: SymbolId, c: seq<NamedEdge>)
    ensures Chain(es, Walk(root, Outgoing, filter), c) <==> OutChain(es, filter, root, c)
    ensures |c| > 0 ==> Walk(root, Outgoing, filter).Far(c[|c| - 1]) == c[|c| - 1].to
  {
    forall e ensures filter.Admits(e) <==> Follows(filter, e) { }
  }

  lemma InIsChain(es: seq<NamedEdge>, filter: Filter, root: SymbolId, c: seq<NamedEdge>)
    ensures Chain(es, Walk(root, Incoming, filter), c) <==> InChain(es, filter, root, c)
    ensures |c| > 0 ==> Walk(root, Incoming, filter).Far(c[|c| - 1]) == c[|c| - 1].from
  {
    forall e ensures filter.Admits(e) <==> Follows(filter, e) { }
  }

  lemma MetOutIsMet(es: seq<NamedEdge>, filter: Filter, root: SymbolId, e: NamedEdge, n: nat)
    ensures Met(es, Walk(root, Outgoing, filter), e, n) <==> MetOut(es, filter, root, e, n)
  {
    forall c: seq<NamedEdge>
      ensures Chain(es, Walk(root, Outgoing, filter), c) <==> OutChain(es, filter, root, c)
      ensures |c| > 0 ==> Walk(root, Outgoing, filter).Far(c[|c| - 1]) == c[|c| - 1].to
    {
      OutIsChain(es, filter, root, c);
    }
    hide Chain, OutChain;
    ChainsAreLong(es, filter, root);
  }

  lemma ChainsAreLong(es: seq<NamedEdge>, filter: Filter, root: SymbolId)
    ensures forall c: seq<NamedEdge> :: OutChain(es, filter, root, c) || InChain(es, filter, root, c) ==> |c| > 0
    ensures forall c, w :: Chain(es, w, c) ==> |c| > 0
  {
  }

  lemma MetInIsMet(es: seq<NamedEdge>, filter: Filter, root: SymbolId, e: NamedEdge, n: nat)
    ensures Met(es, Walk(root, Incoming, filter), e, n) <==> MetIn(es, filter, root, e, n)
  {
    forall c: seq<NamedEdge>
      ensures Chain(es, Walk(root, Incoming, filter), c) <==> InChain(es, filter, root, c)
      ensures |c| > 0 ==> Walk(root, Incoming, filter).Far(c[|c| - 1]) == c[|c| - 1].from
    {
      InIsChain(es, filter, root, c);
    }
    hide Chain, InChain;
    ChainsAreLong(es, filter, root);
  }

  /** Where a search goes, out of the root along edges or back into it. */
  ghost predicate Meets(es: seq<NamedEdge>, dir: Direction, filter: Filter, root: SymbolId, e: NamedEdge, n: nat) {
    if dir == Outgoing then MetOut(es, filter, root, e, n) else MetIn(es, filter, root, e, n)
  }

  /** A search has an edge among its rows, at a hop, exactly when it is met there and the
      hop is within the limit. */
  lemma SearchMeets(es: seq<NamedEdge>, dir: Direction, filter: Filter, root: SymbolId, max: nat, e: NamedEdge, n: nat)
    ensures e in es && IsRow(es, Walk(root, dir, filter), max, QueryEdge(e, n))
      <==> 1 <= n <= max && Meets(es, dir, filter, root, e, n)
  {
    var w := Walk(root, dir, filter);
    MetOutIsMet(es, filter, root, e, n);
    MetInIsMet(es, filter, root, e, n);
    if e in es && IsRow(es, w, max, QueryEdge(e, n)) { RowIsMet(es, w, max, QueryEdge(e, n)); }
    if 1 <= n <= max && Met(es, w, e, n) { MetIsRow(es, w, max, e, n); }
    hide MetOut, MetIn, Met;
  }

  // ── the answer ──────────────────────────────────────────────

  /** One fact: what is referred to, where, under what name and by what kind. */
  predicate SameFact(a: NamedEdge, b: NamedEdge) {
    && a.to == b.to && a.meta.file == b.meta.file && a.meta.line == b.meta.line
    && a.meta.alias == b.meta.alias && a.meta.kind == b.meta.kind
  }

  lemma FactIsIdentity(a: QueryEdge, b: QueryEdge)
    ensures IdentityOf(a) == IdentityOf(b) <==> SameFact(a.edge, b.edge)
  {
  }

  /** Rows by hop, then file, line, target, kind, alias and referrer. */
  predicate RowLe(a: QueryEdge, b: QueryEdge) {
    if a.hop != b.hop then a.hop < b.hop
    else if a.edge.meta.file != b.edge.meta.file then CharsLe(a.edge.meta.file, b.edge.meta.file)
    else if a.edge.meta.line != b.edge.meta.line then a.edge.meta.line < b.edge.meta.line
    else if a.edge.to != b.edge.to then CharsLe(a.edge.to, b.edge.to)
    else if a.edge.meta.kind != b.edge.meta.kind then CharsLe(KindName(a.edge.meta.kind), KindName(b.edge.meta.kind))
    else if a.edge.meta.alias != b.edge.meta.alias then
      a.edge.meta.alias.None? || (b.edge.meta.alias.Some? && CharsLe(a.edge.meta.alias.value, b.edge.meta.alias.value))
    else CharsLe(a.edge.from, b.edge.from)
  }

  /** The part of a row's key that tells facts of one place and target apart. */
  function KeyEnd(e: NamedEdge): SortKey {
    [Text(KindName(e.meta.kind))] + ([AliasAtom(e.meta.alias)] + [Text(e.from)])
  }

  lemma KeyEnds(q: QueryEdge)
    ensures RowKey(q) == [Num(q.hop)] + ([Text(q.edge.meta.file)] + ([Num(q.edge.meta.line)] + ([Text(q.edge.to)] + KeyEnd(q.edge))))
  {
    hide KindName;
  }

  lemma EndsCompare(a: NamedEdge, b: NamedEdge)
    ensures Le(KeyEnd(a), KeyEnd(b)) <==>
      if a.meta.kind != b.meta.kind then CharsLe(KindName(a.meta.kind), KindName(b.meta.kind))
      else if a.meta.alias != b.meta.alias then
        a.meta.alias.None? || (b.meta.alias.Some? && CharsLe(a.meta.alias.value, b.meta.alias.value))
      else CharsLe(a.from, b.from)
  {
    KindNamesDiffer(a.meta.kind, b.meta.kind);
    LastCompares(a.from, b.from);
    hide Le, CharsLe, KindName;
    Lex(AliasAtom(a.meta.alias), AliasAtom(b.meta.alias), [Text(a.from)], [Text(b.from)]);
    Lex(Text(KindName(a.meta.kind)), Text(KindName(b.meta.kind)),
      [AliasAtom(a.meta.alias)] + [Text(a.from)], [AliasAtom(b.meta.alias)] + [Text(b.from)]);
  }

  lemma RowsCompare(a: QueryEdge, b: QueryEdge)
    ensures Le(RowKey(a), RowKey(b)) <==> RowLe(a, b)
  {
    KeyEnds(a);
    KeyEnds(b);
    EndsCompare(a.edge, b.edge);
    hide Le, CharsLe, KindName, RowKey, KeyEnd;
    var x, y := KeyEnd(a.edge), KeyEnd(b.edge);
    var x1, y1 := [Text(a.edge.to)] + x, [Text(b.edge.to)] + y;
    var x2, y2 := [Num(a.edge.meta.line)] + x1, [Num(b.edge.meta.line)] + y1;
    var x3, y3 := [Text(a.edge.meta.file)] + x2, [Text(b.edge.meta.file)] + y2;
    Lex(Text(a.edge.to), Text(b.edge.to), x, y);
    Lex(Num(a.edge.meta.line), Num(b.edge.meta.line), x1, y1);
    Lex(Text(a.edge.meta.file), Text(b.edge.meta.file), x2, y2);
    Lex(Num(a.hop), Num(b.hop), x3, y3);
  }

  lemma KindNamesDiffer(a: RelationshipKind, b: RelationshipKind)
    ensures KindName(a) == KindName(b) <==> a == b
  {
  }

  /** The answer, told by chains: every row is an edge that is met at its hop; every fact
      met has a row, at its least hop and of those by its first referrer; no fact has
      two; and the rows are in order. */
  lemma AnswerTells(es: seq<NamedEdge>, dir: Direction, filter: Filter, root: SymbolId, max: nat, kept: seq<QueryEdge>)
    requires Answers(es, Walk(root, dir, filter), max, kept)
    ensures forall k :: k in kept ==> 1 <= k.hop <= max && Meets(es, dir, filter, root, k.edge, k.hop)
    ensures forall e, n: nat :: 1 <= n <= max && Meets(es, dir, filter, root, e, n) ==>
      exists k :: k in kept && SameFact(k.edge, e) && (k.hop < n || (k.hop == n && CharsLe(k.edge.from, e.from)))
    ensures forall i, j :: 0 <= i < j < |kept| ==> !SameFact(kept[i].edge, kept[j].edge) && RowLe(kept[i], kept[j])
  {
    var w := Walk(root, dir, filter);
    hide IsRow, Meets, RowKey, IdentityOf, RowLe, SameFact;
    forall k | k in kept ensures 1 <= k.hop <= max && Meets(es, dir, filter, root, k.edge, k.hop) {
      assert k == QueryEdge(k.edge, k.hop);
      SearchMeets(es, dir, filter, root, max, k.edge, k.hop);
    }
    forall e, n: nat | 1 <= n <= max && Meets(es, dir, filter, root, e, n)
      ensures exists k :: k in kept && SameFact(k.edge, e) && (k.hop < n || (k.hop == n && CharsLe(k.edge.from, e.from)))
    {
      var q := QueryEdge(e, n);
      SearchMeets(es, dir, filter, root, max, e, n);
      assert Represents(kept, q);
      var k :| k in kept && IdentityOf(k) == IdentityOf(q) && Le(RowKey(k), RowKey(q));
      OrderWithinIdentity(k, q);
      FactIsIdentity(k, q);
    }
    forall i, j | 0 <= i < j < |kept| ensures !SameFact(kept[i].edge, kept[j].edge) && RowLe(kept[i], kept[j]) {
      FactIsIdentity(kept[i], kept[j]);
      RowsCompare(kept[i], kept[j]);
    }
  }

  /** One hop out are the edges that leave the root, and only they; one hop in, those that
      arrive at it. */
  lemma FirstHop(es: seq<NamedEdge>, dir: Direction, filter: Filter, root: SymbolId, e: NamedEdge)
    ensures Meets(es, dir, filter, root, e, 1)
      <==> e in es && Follows(filter, e) && (if dir == Outgoing then e.from else e.to) == root
  {
    if e in es && Follows(filter, e) {
      var c := [e];
      if e.from == root { assert OutChain(es, filter, root, c) && c[|c| - 1] == e; }
      if e.to == root { assert InChain(es, filter, root, c) && c[|c| - 1] == e; }
    }
    if dir == Outgoing && Meets(es, dir, filter, root, e, 1) {
      var c :| OutChain(es, filter, root, c) && |c| == 1 && c[|c| - 1] == e;
    }
    if dir == Incoming && Meets(es, dir, filter, root, e, 1) {
      var c :| InChain(es, filter, root, c) && |c| == 1 && c[|c| - 1] == e;
    }
  }

  /** So an answer has a row at one hop for each fact of an edge at the root that is
      followed, and its rows at one hop are such edges. */
  lemma AnswerAtRoot(es: seq<NamedEdge>, dir: Direction, filter: Filter, root: SymbolId, max: nat, kept: seq<QueryEdge>)
    requires Answers(es, Walk(root, dir, filter), max, kept) && max >= 1
    ensures forall e :: e in es && Follows(filter, e) && (if dir == Outgoing then e.from else e.to) == root ==>
      exists k :: k in kept && k.hop == 1 && SameFact(k.edge, e)
    ensures forall k :: k in kept && k.hop == 1 ==>
      k.edge in es && Follows(filter, k.edge) && (if dir == Outgoing then k.edge.from else k.edge.to) == root
  {
    AnswerTells(es, dir, filter, root, max, kept);
    hide Answers, Meets, SameFact, Follows;
    forall e ensures Meets(es, dir, filter, root, e, 1)
      <==> e in es && Follows(filter, e) && (if dir == Outgoing then e.from else e.to) == root
    {
      FirstHop(es, dir, filter, root, e);
    }
  }

  /** A query goes three hops deep where it is not told how far, and is refused beyond
      ten. */
  method QueryAnswers(g: GraphView, root: SymbolId, depth: Option<nat>, dir: Direction, filter: Filter)
    returns (r: Result<seq<QueryEdge>, QueryError>)
    requires IndexIsInverse(g) && LinksLand(g)
    ensures var max := if depth.None? then 3 else depth.value;
      && (max > 10 ==> r == Err(InvalidDepth(max, 10)))
      && (max <= 10 && root !in g.nodeIndex ==> r == Err(SymbolNotFound(root)))
      && (max <= 10 && root in g.nodeIndex ==> r.Ok?)
      && (r.Ok? ==> forall k :: k in r.value ==>
          1 <= k.hop <= max && Meets(Names(g.nodes, g.links), dir, filter, root, k.edge, k.hop))
      && (r.Ok? ==> forall e, n: nat :: 1 <= n <= max && Meets(Names(g.nodes, g.links), dir, filter, root, e, n) ==>
          exists k :: k in r.value && SameFact(k.edge, e) && k.hop <= n)
  {
    hide Answers, IndexIsInverse, Names, Meets, SameFact;
    r := QueryFrom(g, root, depth, dir, filter);
    if r.Ok? { AnswerTells(Names(g.nodes, g.links), dir, filter, root, depth.GetOr(DEFAULT_DEPTH), r.value); }
  }
}
