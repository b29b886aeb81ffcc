/** Removal from petgraph's vectors: the last element takes the place of the one
    removed, and edges that pointed at it are renumbered. */
module Petgraph {
  import opened Ir
  import opened GraphModel

  function SwapRemove<T>(xs: seq<T>, i: nat): (ys: seq<T>)
    requires i < |xs|
    ensures |ys| == |xs| - 1
    ensures forall k :: 0 <= k < |ys| ==> ys[k] == if k == i then xs[|xs| - 1] else xs[k]
  {
    if i == |xs| - 1 then xs[..i] else xs[..|xs| - 1][i := xs[|xs| - 1]]
  }

  /** Exactly one occurrence goes. */
  lemma SwapRemoveTakesOne<T>(xs: seq<T>, i: nat)
    requires i < |xs|
    ensures multiset(xs) == multiset(SwapRemove(xs, i)) + multiset{xs[i]}
  {
    var n := |xs| - 1;
    assert xs == xs[..n] + [xs[n]];
    if i < n {
      assert xs[..n] == xs[..i] + [xs[i]] + xs[i + 1..n];
      assert SwapRemove(xs, i) == xs[..i] + [xs[n]] + xs[i + 1..n];
    }
  }

  // ── edges ───────────────────────────────────────────────────

  predicate Touches(e: NamedEdge, ids: set<SymbolId>) { e.from in ids || e.to in ids }

  predicate LinkTouches(l: Link, n: nat) { l.source == n || l.target == n }

  ghost predicate Distinct(nodes: seq<SymbolId>) {
    forall i, j :: 0 <= i < j < |nodes| ==> nodes[i] != nodes[j]
  }

  /** How often an edge is held, told by the ids it joins. */
  ghost function Count(nodes: seq<SymbolId>, links: seq<Link>, e: NamedEdge): nat
    requires Lands(nodes, links)
  {
    multiset(Names(nodes, links))[e]
  }

  /** The edges at these ids are gone, and every other edge is held exactly as
      often as it was. */
  ghost predicate Without(
    nodes: seq<SymbolId>, links: seq<Link>, left: seq<SymbolId>, kept: seq<Link>, ids: set<SymbolId>)
    requires Lands(nodes, links) && Lands(left, kept)
  {
    forall e :: Count(left, kept, e) == if Touches(e, ids) then 0 else Count(nodes, links, e)
  }

  lemma OneEdgeLess(nodes: seq<SymbolId>, links: seq<Link>, i: nat)
    requires Lands(nodes, links) && i < |links|
    ensures Lands(nodes, SwapRemove(links, i))
    ensures forall e ::
      Count(nodes, links, e) == Count(nodes, SwapRemove(links, i), e) + if e == NameLink(nodes, links[i]) then 1 else 0
  {
    hide Names;
    forall l | l in SwapRemove(links, i) ensures l in links { }
    SwapRemoveTakesOne(Names(nodes, links), i);
    assert Names(nodes, SwapRemove(links, i)) == SwapRemove(Names(nodes, links), i);
  }

  lemma NoneNamed(nodes: seq<SymbolId>, links: seq<Link>, n: nat, e: NamedEdge)
    requires Lands(nodes, links) && Distinct(nodes) && n < |nodes| && Touches(e, {nodes[n]})
    requires forall l :: l in links ==> !LinkTouches(l, n)
    ensures Count(nodes, links, e) == 0
  {
    hide Names;
    forall i | 0 <= i < |links| ensures Names(nodes, links)[i] != e {
      assert links[i] in links && !LinkTouches(links[i], n);
    }
  }

  /** Every edge at a node is taken out, one after another; the order is petgraph's
      own affair. */
  method DropIncident(nodes: seq<SymbolId>, links: seq<Link>, n: nat) returns (kept: seq<Link>)
    requires Lands(nodes, links) && Distinct(nodes) && n < |nodes|
    ensures Lands(nodes, kept) && forall l :: l in kept ==> !LinkTouches(l, n)
    ensures Without(nodes, links, nodes, kept, {nodes[n]})
  {
    hide Names, Count;
    kept := links;
    while exists i :: 0 <= i < |kept| && LinkTouches(kept[i], n)
      invariant Lands(nodes, kept)
      invariant forall e :: !Touches(e, {nodes[n]}) ==> Count(nodes, kept, e) == Count(nodes, links, e)
      decreases |kept|
    {
      var i :| 0 <= i < |kept| && LinkTouches(kept[i], n);
      assert kept[i] in kept;
      OneEdgeLess(nodes, kept, i);
      kept := SwapRemove(kept, i);
    }
    forall e | Touches(e, {nodes[n]}) ensures Count(nodes, kept, e) == 0 { NoneNamed(nodes, kept, n, e); }
  }

  function Renumber(l: Link, from: nat, to: nat): Link {
    Link(if l.source == from then to else l.source, if l.target == from then to else l.target, l.meta)
  }

  function Renumbered(links: seq<Link>, from: nat, to: nat): (ls: seq<Link>)
    ensures |ls| == |links| && forall i :: 0 <= i < |ls| ==> ls[i] == Renumber(links[i], from, to)
  {
    seq(|links|, i requires 0 <= i < |links| => Renumber(links[i], from, to))
  }

  lemma RenumberedNames(nodes: seq<SymbolId>, links: seq<Link>, n: nat)
    requires Lands(nodes, links) && n < |nodes| && forall l :: l in links ==> !LinkTouches(l, n)
    ensures Lands(SwapRemove(nodes, n), Renumbered(links, |nodes| - 1, n))
    ensures Names(SwapRemove(nodes, n), Renumbered(links, |nodes| - 1, n)) == Names(nodes, links)
  {
    hide Names, SwapRemove, Renumbered;
    var ls := Renumbered(links, |nodes| - 1, n);
    forall l | l in ls ensures l.source < |nodes| - 1 && l.target < |nodes| - 1 {
      var i :| 0 <= i < |ls| && ls[i] == l;
      assert links[i] in links && !LinkTouches(links[i], n);
    }
    forall i | 0 <= i < |links|
      ensures Names(SwapRemove(nodes, n), ls)[i] == Names(nodes, links)[i]
    {
      assert links[i] in links && ls[i] in ls && !LinkTouches(links[i], n);
    }
  }

  /** A node and everything at it removed: the other nodes stay, one of them moved,
      and every other edge still joins the ids it joined. */
  method DropNode(nodes: seq<SymbolId>, links: seq<Link>, n: nat) returns (left: seq<SymbolId>, kept: seq<Link>)
    requires Lands(nodes, links) && Distinct(nodes) && n < |nodes|
    ensures left == SwapRemove(nodes, n) && Lands(left, kept)
    ensures Without(nodes, links, left, kept, {nodes[n]})
  {
    hide Names;
    kept := DropIncident(nodes, links, n);
    RenumberedNames(nodes, kept, n);
    left := SwapRemove(nodes, n);
    kept := Renumbered(kept, |nodes| - 1, n);
  }
}
