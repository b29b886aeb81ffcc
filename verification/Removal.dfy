/** Removal by stored index while the vector shrinks under it (graph.rs). An index
    collected before the first removal either still names what it named or lies
    past the end: nothing else is ever removed, but something can be left behind. */
module Removal {
  import opened Ir
  import opened GraphModel
  import opened Petgraph

  // ── edges by position ───────────────────────────────────────

  predicate InFile(l: Link, file: string) { l.meta.file == file }

  /** The positions of a file's edges, lowest first. */
  function Positions(links: seq<Link>, file: string): (ps: seq<nat>)
    ensures forall k :: 0 <= k < |ps| ==> ps[k] < |links| && InFile(links[ps[k]], file)
    ensures forall j, k :: 0 <= j < k < |ps| ==> ps[j] < ps[k]
    ensures forall i :: 0 <= i < |links| && InFile(links[i], file) ==> i in ps
  {
    if |links| == 0 then []
    else
      var n := |links| - 1;
      Positions(links[..n], file) + if InFile(links[n], file) then [n] else []
  }

  /** How many of these removals find anything, `n` elements being held. */
  function Reaching(ps: seq<nat>, n: nat): (r: nat)
    ensures r <= |ps|
  {
    if |ps| == 0 then 0
    else
      var r := Reaching(ps[..|ps| - 1], n);
      if ps[|ps| - 1] + r < n then r + 1 else r
  }

  /** Every removal finds something exactly when the last of them does. */
  lemma {:induction false} AllReach(ps: seq<nat>, n: nat)
    requires forall j, k :: 0 <= j < k < |ps| ==> ps[j] < ps[k]
    ensures Reaching(ps, n) == |ps| <==> |ps| == 0 || ps[|ps| - 1] + |ps| <= n
  {
    if |ps| > 0 {
      var before := ps[..|ps| - 1];
      AllReach(before, n);
      if |before| > 0 { assert before[|before| - 1] < ps[|ps| - 1]; }
    }
  }

  /** The state after the first `j` removals at positions `ps` of `links0`. */
  ghost predicate EdgesPending(links0: seq<Link>, ps: seq<nat>, j: nat, links: seq<Link>, gone: multiset<Link>)
    requires j <= |ps|
  {
    && |links| == |links0| - Reaching(ps[..j], |links0|)
    && multiset(links0) == multiset(links) + gone && |gone| == Reaching(ps[..j], |links0|)
    && (forall k :: j <= k < |ps| && ps[k] < |links| ==> ps[k] < |links0| && links[ps[k]] == links0[ps[k]])
  }

  lemma NoEdgesGone(links: seq<Link>, ps: seq<nat>)
    ensures EdgesPending(links, ps, 0, links, multiset{})
  {
  }

  /** What one removal at a stored position does. */
  function RemoveAt(links: seq<Link>, p: nat): seq<Link> { if p < |links| then SwapRemove(links, p) else links }

  lemma NextEdge(links0: seq<Link>, ps: seq<nat>, j: nat, links: seq<Link>, gone: multiset<Link>)
    requires j < |ps| && EdgesPending(links0, ps, j, links, gone)
    requires forall a, b :: 0 <= a < b < |ps| ==> ps[a] < ps[b]
    ensures ps[j] < |links| ==> ps[j] < |links0| && links[ps[j]] == links0[ps[j]]
    ensures EdgesPending(links0, ps, j + 1, RemoveAt(links, ps[j]),
      if ps[j] < |links| then gone + multiset{links[ps[j]]} else gone)
  {
    assert ps[..j + 1][..j] == ps[..j];
    if ps[j] < |links| {
      SwapRemoveTakesOne(links, ps[j]);
    }
  }

  /** A file's edges as far as they can be removed: every other file's edges stay,
      each as often as before, and what is left of this file's is counted. */
  ghost predicate FileEdgesRemoved(links0: seq<Link>, file: string, links: seq<Link>) {
    && (forall l :: !InFile(l, file) ==> multiset(links)[l] == multiset(links0)[l])
    && (forall l :: InFile(l, file) ==> multiset(links)[l] <= multiset(links0)[l])
    && |links| == |links0| - Reaching(Positions(links0, file), |links0|)
  }

  lemma {:induction false} PositionsCount(links: seq<Link>, file: string, ys: multiset<Link>)
    requires forall l :: InFile(l, file) ==> ys[l] >= multiset(links)[l]
    ensures |Positions(links, file)| <= |ys|
    decreases |links|
  {
    if |links| > 0 {
      var n := |links| - 1;
      assert links == links[..n] + [links[n]];
      if InFile(links[n], file) {
        assert ys[links[n]] >= 1;
        var zs := ys - multiset{links[n]};
        assert ys == zs + multiset{links[n]};
        PositionsCount(links[..n], file, zs);
      } else {
        PositionsCount(links[..n], file, ys);
      }
    }
  }

  ghost predicate NoneLeft(links: seq<Link>, file: string) { forall l :: l in links ==> !InFile(l, file) }

  /** No more of the edges are a file's than it has positions. */
  lemma {:induction false} OthersCount(links: seq<Link>, file: string, ys: multiset<Link>)
    requires ys <= multiset(links) && forall l :: l in ys ==> InFile(l, file)
    ensures |ys| <= |Positions(links, file)|
    decreases |links|
  {
    if |links| > 0 {
      var n := |links| - 1;
      assert links == links[..n] + [links[n]];
      if links[n] in ys {
        var zs := ys - multiset{links[n]};
        assert ys == zs + multiset{links[n]};
        OthersCount(links[..n], file, zs);
      } else {
        OthersCount(links[..n], file, ys);
      }
    }
  }

  lemma GoneCounts(links0: seq<Link>, file: string, links: seq<Link>) returns (gone: multiset<Link>)
    requires FileEdgesRemoved(links0, file, links)
    ensures multiset(links0) == multiset(links) + gone && |gone| == Reaching(Positions(links0, file), |links0|)
    ensures forall l :: l in gone ==> InFile(l, file)
  {
    hide Reaching, Positions;
    assert multiset(links) <= multiset(links0);
    gone := multiset(links0) - multiset(links);
    assert multiset(links0) == multiset(links) + gone;
  }

  /** None of the file's edges is left exactly when the last of them sat far enough
      from the end. */
  lemma EdgesGoneExactly(links0: seq<Link>, file: string, links: seq<Link>)
    requires FileEdgesRemoved(links0, file, links)
    ensures var ps := Positions(links0, file);
      NoneLeft(links, file) <==> |ps| == 0 || ps[|ps| - 1] + |ps| <= |links0|
  {
    hide *;
    var ps := Positions(links0, file);
    AllReach(ps, |links0|);
    var gone := GoneCounts(links0, file, links);
    if NoneLeft(links, file) {
      NoneLeftCounts(links0, file, links, gone);
    } else {
      SomeLeftCounts(links0, file, links, gone);
    }
  }

  lemma NoneLeftCounts(links0: seq<Link>, file: string, links: seq<Link>, gone: multiset<Link>)
    requires multiset(links0) == multiset(links) + gone && NoneLeft(links, file)
    ensures |Positions(links0, file)| <= |gone|
  {
    hide Positions;
    forall l | InFile(l, file) ensures gone[l] >= multiset(links0)[l] {
      assert l !in links;
      assert multiset(links)[l] == 0;
    }
    PositionsCount(links0, file, gone);
  }

  lemma SomeLeftCounts(links0: seq<Link>, file: string, links: seq<Link>, gone: multiset<Link>)
    requires multiset(links0) == multiset(links) + gone && !NoneLeft(links, file)
    requires forall l :: l in gone ==> InFile(l, file)
    ensures |gone| < |Positions(links0, file)|
  {
    hide Positions;
    var l :| l in links && InFile(l, file);
    assert multiset{l} <= multiset(links);
    OthersCount(links0, file, gone + multiset{l});
  }

  // ── nodes by stored index ───────────────────────────────────

  /** The ids whose removal finds a node, `n` nodes being held and `at` being what
      the index said before any of them was removed. */
  function Reached(ids: seq<SymbolId>, at: map<SymbolId, nat>, n: nat): (r: set<SymbolId>)
    ensures forall id :: id in r ==> id in ids && id in at
  {
    if |ids| == 0 then {}
    else
      var id, before := ids[|ids| - 1], Reached(ids[..|ids| - 1], at, n);
      if id in at && at[id] + |before| < n then before + {id} else before
  }

  predicate Different(ids: seq<SymbolId>) { forall i, j :: 0 <= i < j < |ids| ==> ids[i] != ids[j] }

  /** The node removed after `j` others stands at least `j` places from the end. */
  predicate FarEnough(ids: seq<SymbolId>, at: map<SymbolId, nat>, n: nat) {
    forall j :: 0 <= j < |ids| ==> ids[j] in at && at[ids[j]] + j < n
  }

  lemma FarEnoughStep(ids: seq<SymbolId>, at: map<SymbolId, nat>, n: nat)
    requires |ids| > 0
    ensures var k := |ids| - 1;
      FarEnough(ids, at, n) <==> FarEnough(ids[..k], at, n) && ids[k] in at && at[ids[k]] + k < n
  {
    assert ids == ids[..|ids| - 1] + [ids[|ids| - 1]];
  }

  lemma {:induction false} ReachedCount(ids: seq<SymbolId>, at: map<SymbolId, nat>, n: nat)
    requires Different(ids)
    ensures |Reached(ids, at, n)| <= |ids|
    ensures |Reached(ids, at, n)| == |ids| <==> FarEnough(ids, at, n)
  {
    if |ids| > 0 {
      var k := |ids| - 1;
      ReachedCount(ids[..k], at, n);
      FarEnoughStep(ids, at, n);
      assert ids[k] !in Reached(ids[..k], at, n);
      hide FarEnough;
    }
  }

  function Members(ids: seq<SymbolId>): set<SymbolId> { set id | id in ids }

  lemma {:induction false} MembersCount(ids: seq<SymbolId>)
    requires Different(ids)
    ensures |Members(ids)| == |ids|
  {
    if |ids| > 0 {
      var k := |ids| - 1;
      MembersCount(ids[..k]);
      assert ids == ids[..k] + [ids[k]];
      assert Members(ids) == Members(ids[..k]) + {ids[k]};
    }
  }

  /** Nothing is left behind exactly when every node stood far enough from the end
      for its turn. */
  lemma AllReachedExactly(ids: seq<SymbolId>, at: map<SymbolId, nat>, n: nat)
    requires Different(ids)
    ensures Reached(ids, at, n) == Members(ids) <==> FarEnough(ids, at, n)
  {
    ReachedCount(ids, at, n);
    MembersCount(ids);
    assert Reached(ids, at, n) <= Members(ids);
    if |Reached(ids, at, n)| == |ids| { SameSize(Reached(ids, at, n), Members(ids)); }
  }

  lemma SameSize<T>(a: set<T>, b: set<T>)
    requires a <= b && |a| == |b|
    ensures a == b
  {
    assert b == a + (b - a);
  }

  /** The state after the first `j` ids were removed at the places `at` had for them. */
  ghost predicate NodesPending(
    nodes0: seq<SymbolId>, links0: seq<Link>, ids: seq<SymbolId>, at: map<SymbolId, nat>, j: nat,
    nodes: seq<SymbolId>, links: seq<Link>)
    requires j <= |ids| && Lands(nodes0, links0)
  {
    var gone := Reached(ids[..j], at, |nodes0|);
    && Distinct(nodes) && Lands(nodes, links)
    && |nodes| == |nodes0| - |gone|
    && (forall id :: id in nodes <==> id in nodes0 && id !in gone)
    && (forall k :: j <= k < |ids| && ids[k] in at && at[ids[k]] < |nodes| ==> nodes[at[ids[k]]] == ids[k])
    && Without(nodes0, links0, nodes, links, gone)
  }

  lemma NextNode(
    nodes0: seq<SymbolId>, links0: seq<Link>, ids: seq<SymbolId>, at: map<SymbolId, nat>, j: nat,
    nodes: seq<SymbolId>, links: seq<Link>, left: seq<SymbolId>, kept: seq<Link>)
    requires j < |ids| && Different(ids) && Lands(nodes0, links0)
    requires NodesPending(nodes0, links0, ids, at, j, nodes, links)
    requires ids[j] in at && at[ids[j]] < |nodes|
    requires left == SwapRemove(nodes, at[ids[j]]) && Lands(left, kept)
    requires Without(nodes, links, left, kept, {nodes[at[ids[j]]]})
    ensures nodes[at[ids[j]]] == ids[j]
    ensures NodesPending(nodes0, links0, ids, at, j + 1, left, kept)
  {
    var id, p := ids[j], at[ids[j]];
    var gone := Reached(ids[..j], at, |nodes0|);
    assert ids[..j + 1][..j] == ids[..j];
    assert Reached(ids[..j + 1], at, |nodes0|) == gone + {id};
    assert id !in gone;
    SwapRemoveMembers(nodes, p);
    WithoutBoth(nodes0, links0, nodes, links, left, kept, gone, id);
  }

  lemma SwapRemoveMembers(nodes: seq<SymbolId>, p: nat)
    requires p < |nodes| && Distinct(nodes)
    ensures Distinct(SwapRemove(nodes, p))
    ensures forall id :: id in SwapRemove(nodes, p) <==> id in nodes && id != nodes[p]
  {
    var left, n := SwapRemove(nodes, p), |nodes| - 1;
    forall id | id in nodes && id != nodes[p] ensures id in left {
      var k :| 0 <= k < |nodes| && nodes[k] == id;
      assert left[if k == n then p else k] == id;
    }
    forall i, j | 0 <= i < j < |left| ensures left[i] != left[j] {
      assert nodes[i] != nodes[j] && nodes[i] != nodes[n] && nodes[j] != nodes[n];
    }
  }

  lemma WithoutBoth(
    nodes0: seq<SymbolId>, links0: seq<Link>, nodes: seq<SymbolId>, links: seq<Link>,
    left: seq<SymbolId>, kept: seq<Link>, gone: set<SymbolId>, id: SymbolId)
    requires Lands(nodes0, links0) && Lands(nodes, links) && Lands(left, kept)
    requires Without(nodes0, links0, nodes, links, gone) && Without(nodes, links, left, kept, {id})
    ensures Without(nodes0, links0, left, kept, gone + {id})
  {
    hide Count;
  }

  lemma NextMissing(
    nodes0: seq<SymbolId>, links0: seq<Link>, ids: seq<SymbolId>, at: map<SymbolId, nat>, j: nat,
    nodes: seq<SymbolId>, links: seq<Link>)
    requires j < |ids| && Lands(nodes0, links0)
    requires NodesPending(nodes0, links0, ids, at, j, nodes, links)
    requires ids[j] in at ==> at[ids[j]] >= |nodes|
    ensures NodesPending(nodes0, links0, ids, at, j + 1, nodes, links)
  {
    hide Without, Distinct;
    assert ids[..j + 1][..j] == ids[..j];
  }

  lemma NothingPending(nodes: seq<SymbolId>, links: seq<Link>, ids: seq<SymbolId>, at: map<SymbolId, nat>)
    requires Distinct(nodes) && Lands(nodes, links)
    requires forall id :: id in at ==> at[id] < |nodes| && nodes[at[id]] == id
    ensures NodesPending(nodes, links, ids, at, 0, nodes, links)
  {
    hide Count;
  }
}
