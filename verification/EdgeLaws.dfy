/** What a comparison reports of edges, told of their fields and lines (delta.rs). */
module EdgeLaws {
  import opened Ir
  import opened Ordering
  import opened GraphModel
  import opened EdgeDelta
  import WholeDelta

  /** The same edge, whatever line it is on. */
  predicate Like(a: EdgeRef, b: EdgeRef) {
    a.from == b.from && a.to == b.to && a.kind == b.kind && a.file == b.file && a.resolution == b.resolution
  }

  /** The lines an edge is on. */
  function Lines(es: set<EdgeRef>, e: EdgeRef): set<u32> { set x | x in es && Like(x, e) :: x.line }

  function ListedLines(es: seq<EdgeRef>, e: EdgeRef): set<u32> { set x | x in es && Like(x, e) :: x.line }

  function More(a: set<u32>, b: set<u32>): nat { if |a| > |b| then |a| - |b| else 0 }

  lemma LinesCounted(es: set<EdgeRef>, e: EdgeRef)
    ensures |Lines(es, e)| == |Share(es, IdentityOf(e))|
  {
    var s := Share(es, IdentityOf(e));
    var line := (x: EdgeRef) => x.line;
    forall a, b | a in s && b in s && line(a) == line(b) ensures a == b { }
    ImageCounts(s, line);
    assert ImageOf(s, line) == Lines(es, e) by {
      forall x | x in es ensures x in s <==> Like(x, e) { }
      forall n | n in Lines(es, e) ensures n in ImageOf(s, line) {
        var x :| x in es && Like(x, e) && x.line == n;
        assert x in s && line(x) == n;
      }
    }
  }

  lemma ListedCounted(es: seq<EdgeRef>, e: EdgeRef)
    requires StrictlySortedBy(EdgeKey, es)
    ensures |ListedLines(es, e)| == |Of(es, IdentityOf(e))|
  {
    ShareIsOf(es, IdentityOf(e));
    LinesCounted(AsSet(es), e);
    assert ListedLines(es, e) == Lines(AsSet(es), e);
    hide Share, Of;
  }

  /** Of every edge as many lines are reported added as it has more after than before,
      and as many removed as it has fewer. */
  lemma LinesConserved(before: set<EdgeRef>, after: set<EdgeRef>, added: seq<EdgeRef>, removed: seq<EdgeRef>, e: EdgeRef)
    requires IsEdgeDelta(before, after, added, removed)
    ensures |ListedLines(added, e)| == More(Lines(after, e), Lines(before, e))
    ensures |ListedLines(removed, e)| == More(Lines(before, e), Lines(after, e))
  {
    EdgesConserved(before, after, added, removed, IdentityOf(e));
    ListedCounted(added, e);
    ListedCounted(removed, e);
    LinesCounted(before, e);
    LinesCounted(after, e);
    hide Lines, ListedLines, Of, Share;
  }

  /** What is reported is on one side only, and has no line of its edge above it that is
      on that side only and not reported. */
  lemma HighestReported(before: set<EdgeRef>, after: set<EdgeRef>, added: seq<EdgeRef>, removed: seq<EdgeRef>)
    requires IsEdgeDelta(before, after, added, removed)
    ensures forall x :: x in added ==> x in after && x !in before
    ensures forall x :: x in removed ==> x in before && x !in after
    ensures forall x, y :: x in added && Like(x, y) && y.line > x.line && y in after && y !in before ==> y in added
    ensures forall x, y :: x in removed && Like(x, y) && y.line > x.line && y in before && y !in after ==> y in removed
  {
    forall x, y | x in added && Like(x, y) && y.line > x.line && y in after && y !in before ensures y in added {
      HigherSurvives(after - before, before - after, x, y);
    }
    forall x, y | x in removed && Like(x, y) && y.line > x.line && y in before && y !in after ensures y in removed {
      HigherSurvives(before - after, after - before, x, y);
    }
  }

  lemma HigherSurvives(own: set<EdgeRef>, other: set<EdgeRef>, x: EdgeRef, y: EdgeRef)
    requires Survives(own, other, x) && y in own && Like(x, y) && y.line > x.line
    ensures Survives(own, other, y)
  {
    assert Lower(own, x) <= Lower(own, y);
    assert Lower(own, y) == Lower(own, x) + (Lower(own, y) - Lower(own, x));
  }

  /** By source, target, kind as declared, file, line and resolution. */
  predicate EdgeLe(a: EdgeRef, b: EdgeRef) {
    if a.from != b.from then CharsLe(a.from, b.from)
    else if a.to != b.to then CharsLe(a.to, b.to)
    else if a.kind != b.kind then KindRank(a.kind) < KindRank(b.kind)
    else if a.file != b.file then CharsLe(a.file, b.file)
    else if a.line != b.line then a.line < b.line
    else a.resolution == b.resolution || (a.resolution == Structural && b.resolution == Resolved)
  }

  function KeyEnd(e: EdgeRef): SortKey { [Text(e.file)] + ([Num(e.line)] + [Num(e.resolution.Rank())]) }

  lemma KeyIs(e: EdgeRef)
    ensures EdgeKey(e) == [Text(e.from)] + ([Text(e.to)] + ([Num(KindRank(e.kind))] + KeyEnd(e)))
  {
  }

  lemma EndsCompare(a: EdgeRef, b: EdgeRef)
    ensures Le(KeyEnd(a), KeyEnd(b)) <==>
      if a.file != b.file then CharsLe(a.file, b.file)
      else if a.line != b.line then a.line < b.line
      else a.resolution == b.resolution || (a.resolution == Structural && b.resolution == Resolved)
  {
    var m, n := a.resolution.Rank(), b.resolution.Rank();
    assert Le([Num(m)], [Num(n)]) <==> m <= n;
    hide Le, CharsLe;
    Lex(Num(a.line), Num(b.line), [Num(m)], [Num(n)]);
    Lex(Text(a.file), Text(b.file), [Num(a.line)] + [Num(m)], [Num(b.line)] + [Num(n)]);
  }

  lemma EdgesCompare(a: EdgeRef, b: EdgeRef)
    ensures Le(EdgeKey(a), EdgeKey(b)) <==> EdgeLe(a, b)
  {
    KeyIs(a);
    KeyIs(b);
    EndsCompare(a, b);
    assert KindRank(a.kind) == KindRank(b.kind) <==> a.kind == b.kind;
    hide Le, CharsLe, EdgeKey, KeyEnd, KindRank;
    var x, y := KeyEnd(a), KeyEnd(b);
    var x1, y1 := [Num(KindRank(a.kind))] + x, [Num(KindRank(b.kind))] + y;
    var x2, y2 := [Text(a.to)] + x1, [Text(b.to)] + y1;
    Lex(Num(KindRank(a.kind)), Num(KindRank(b.kind)), x, y);
    Lex(Text(a.to), Text(b.to), x1, y1);
    Lex(Text(a.from), Text(b.from), x2, y2);
  }

  /** Both lists are in order, and hold nothing twice. */
  lemma ReportsInOrder(before: set<EdgeRef>, after: set<EdgeRef>, added: seq<EdgeRef>, removed: seq<EdgeRef>)
    requires IsEdgeDelta(before, after, added, removed)
    ensures forall i, j :: 0 <= i < j < |added| ==> added[i] != added[j] && EdgeLe(added[i], added[j])
    ensures forall i, j :: 0 <= i < j < |removed| ==> removed[i] != removed[j] && EdgeLe(removed[i], removed[j])
  {
    hide Le, EdgeKey, EdgeLe, Survives;
    forall i, j | 0 <= i < j < |added| ensures added[i] != added[j] && EdgeLe(added[i], added[j]) {
      EdgesCompare(added[i], added[j]);
      assert Less(EdgeKey(added[i]), EdgeKey(added[j]));
    }
    forall i, j | 0 <= i < j < |removed| ensures removed[i] != removed[j] && EdgeLe(removed[i], removed[j]) {
      EdgesCompare(removed[i], removed[j]);
      assert Less(EdgeKey(removed[i]), EdgeKey(removed[j]));
    }
  }

  /** The edges compared are a graph's links: the weights of their nodes, and of what they
      carry the kind, file, line and resolution. */
  lemma EdgesAreLinks(g: GraphView, e: EdgeRef)
    requires LinksLand(g)
    ensures e in WholeDelta.EdgeSet(g) <==> exists i :: 0 <= i < |g.links| && IsLink(g, g.links[i], e)
  {
    var es := Names(g.nodes, g.links);
    hide Names;
    if e in WholeDelta.EdgeSet(g) {
      var x :| x in es && WholeDelta.RefOf(x) == e;
      var i :| 0 <= i < |es| && es[i] == x;
      assert g.links[i] in g.links && IsLink(g, g.links[i], e);
    }
    if i :| 0 <= i < |g.links| && IsLink(g, g.links[i], e) {
      assert es[i] in es && WholeDelta.RefOf(es[i]) == e;
    }
  }

  predicate IsLink(g: GraphView, l: Link, e: EdgeRef) {
    && l.source < |g.nodes| && l.target < |g.nodes| && e.from == g.nodes[l.source] && e.to == g.nodes[l.target]
    && e.kind == l.meta.kind && e.file == l.meta.file && e.line == l.meta.line && e.resolution == l.meta.resolution
  }
}
