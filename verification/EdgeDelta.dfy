/** The edge half of a graph delta (delta.rs): edges that differ only in their line
    are cancelled by count, lowest line first, and what is left is the change. */
module EdgeDelta {
  import opened Ir
  import opened Ordering

  datatype EdgeRef = EdgeRef(
    from: SymbolId, to: SymbolId, kind: RelationshipKind, file: string, line: u32, resolution: Resolution)

  /** What an edge is, as opposed to where it sits. */
  datatype EdgeIdentity = EdgeIdentity(
    from: SymbolId, to: SymbolId, kind: RelationshipKind, file: string, resolution: Resolution)

  function IdentityOf(e: EdgeRef): EdgeIdentity { EdgeIdentity(e.from, e.to, e.kind, e.file, e.resolution) }

  function EdgeKey(e: EdgeRef): SortKey {
    [Text(e.from), Text(e.to), Num(KindRank(e.kind)), Text(e.file), Num(e.line), Num(e.resolution.Rank())]
  }

  lemma EdgeKeyTells(a: EdgeRef, b: EdgeRef)
    requires EdgeKey(a) == EdgeKey(b)
    ensures a == b
  {
    var k, l := EdgeKey(a), EdgeKey(b);
    assert k[0] == l[0] && k[1] == l[1] && k[2] == l[2] && k[3] == l[3] && k[4] == l[4] && k[5] == l[5];
  }

  /** Within one identity the order is the order of the lines. */
  lemma LinesOrder(a: EdgeRef, b: EdgeRef)
    requires IdentityOf(a) == IdentityOf(b)
    ensures Less(EdgeKey(a), EdgeKey(b)) <==> a.line < b.line
  {
    var k, l := [Num(a.line), Num(a.resolution.Rank())], [Num(b.line), Num(b.resolution.Rank())];
    SameFirst(Text(a.file), k, l);
    var k1, l1 := [Text(a.file)] + k, [Text(a.file)] + l;
    SameFirst(Num(KindRank(a.kind)), k1, l1);
    var k2, l2 := [Num(KindRank(a.kind))] + k1, [Num(KindRank(a.kind))] + l1;
    SameFirst(Text(a.to), k2, l2);
    var k3, l3 := [Text(a.to)] + k2, [Text(a.to)] + l2;
    SameFirst(Text(a.from), k3, l3);
    assert EdgeKey(a) == [Text(a.from)] + k3 && EdgeKey(b) == [Text(a.from)] + l3;
    if a.line == b.line {
      Reflexive(k);
    } else {
      assert EdgeKey(a)[4] != EdgeKey(b)[4];
    }
  }

  lemma SameFirst(x: Atom, a: SortKey, b: SortKey)
    ensures Le([x] + a, [x] + b) == Le(a, b)
  {
    assert ([x] + a)[1..] == a && ([x] + b)[1..] == b;
  }

  // ── groups ──────────────────────────────────────────────────

  /** The edges of one identity, in the order they come. */
  function Of(es: seq<EdgeRef>, id: EdgeIdentity): seq<EdgeRef> {
    if |es| == 0 then []
    else Of(es[..|es| - 1], id) + if IdentityOf(es[|es| - 1]) == id then [es[|es| - 1]] else []
  }

  lemma {:induction false} OfMembers(es: seq<EdgeRef>, id: EdgeIdentity, e: EdgeRef)
    ensures e in Of(es, id) <==> e in es && IdentityOf(e) == id
  {
    if |es| > 0 {
      OfMembers(es[..|es| - 1], id, e);
      assert es == es[..|es| - 1] + [es[|es| - 1]];
    }
  }

  lemma {:induction false} OfSorted(es: seq<EdgeRef>, id: EdgeIdentity)
    requires StrictlySortedBy(EdgeKey, es)
    ensures StrictlySortedBy(EdgeKey, Of(es, id))
  {
    if |es| > 0 {
      var n := |es| - 1;
      OfSorted(es[..n], id);
      forall e | e in Of(es[..n], id) ensures Less(EdgeKey(e), EdgeKey(es[n])) {
        OfMembers(es[..n], id, e);
        var k :| 0 <= k < n && es[k] == e;
      }
    }
  }

  /** Rows of one identity, lowest line first. */
  predicate ByLine(xs: seq<EdgeRef>) { forall i, j :: 0 <= i < j < |xs| ==> xs[i].line < xs[j].line }

  lemma OfByLine(es: seq<EdgeRef>, id: EdgeIdentity)
    requires StrictlySortedBy(EdgeKey, es)
    ensures ByLine(Of(es, id))
  {
    OfSorted(es, id);
    var xs := Of(es, id);
    forall i, j | 0 <= i < j < |xs| ensures xs[i].line < xs[j].line {
      OfMembers(es, id, xs[i]);
      OfMembers(es, id, xs[j]);
      LinesOrder(xs[i], xs[j]);
    }
  }

  type Groups = map<EdgeIdentity, seq<EdgeRef>>

  function At(groups: Groups, id: EdgeIdentity): seq<EdgeRef> { if id in groups then groups[id] else [] }

  method Group(es: seq<EdgeRef>) returns (groups: Groups)
    ensures forall id :: At(groups, id) == Of(es, id)
  {
    groups := map[];
    for i := 0 to |es|
      invariant forall id :: At(groups, id) == Of(es[..i], id)
    {
      assert es[..i + 1][..i] == es[..i];
      groups := groups[IdentityOf(es[i]) := At(groups, IdentityOf(es[i])) + [es[i]]];
    }
    assert es[..|es|] == es;
  }

  /** What a group of `n` on the other side leaves of a group. */
  function Surplus(xs: seq<EdgeRef>, n: nat): seq<EdgeRef> { if n <= |xs| then xs[n..] else [] }

  /** Of every identity on both sides, as many are dropped as the smaller side has. */
  method Cancel(removed: Groups, added: Groups) returns (r: Groups, a: Groups)
    ensures forall id :: At(r, id) == Surplus(At(removed, id), |At(added, id)|)
    ensures forall id :: At(a, id) == Surplus(At(added, id), |At(removed, id)|)
  {
    r, a := removed, added;
    var rest := added.Keys;
    while rest != {}
      invariant rest <= added.Keys
      invariant forall id :: At(r, id) == if id in rest then At(removed, id) else Surplus(At(removed, id), |At(added, id)|)
      invariant forall id :: At(a, id) == if id in rest then At(added, id) else Surplus(At(added, id), |At(removed, id)|)
      decreases rest
    {
      var id :| id in rest;
      rest := rest - {id};
      if id in removed {
        var cancelled := if |removed[id]| <= |added[id]| then |removed[id]| else |added[id]|;
        r, a := r[id := removed[id][cancelled..]], a[id := added[id][cancelled..]];
      }
    }
  }

  /** Every group strung out again, in no particular order. */
  method Flatten(groups: Groups) returns (es: seq<EdgeRef>)
    requires forall id, e :: e in At(groups, id) ==> IdentityOf(e) == id
    requires forall id :: ByLine(At(groups, id))
    ensures StrictlySortedBy(EdgeKey, es)
    ensures forall e :: e in es <==> e in At(groups, IdentityOf(e))
  {
    es := [];
    var rest := groups.Keys;
    while rest != {}
      invariant rest <= groups.Keys
      invariant forall e :: e in es <==> IdentityOf(e) in groups.Keys - rest && e in groups[IdentityOf(e)]
      invariant forall i, j :: 0 <= i < j < |es| ==> es[i] != es[j]
      decreases rest
    {
      var id :| id in rest;
      AppendGroup(groups, rest, es, id);
      rest := rest - {id};
      es := es + groups[id];
    }
    forall x, y | x in es && y in es && EdgeKey(x) == EdgeKey(y) ensures x == y { EdgeKeyTells(x, y); }
    DistinctSortsStrictly(EdgeKey, es);
    SortKeeps(EdgeKey, es);
    es := SortBy(EdgeKey, es);
  }

  lemma AppendGroup(groups: Groups, rest: set<EdgeIdentity>, es: seq<EdgeRef>, id: EdgeIdentity)
    requires id in rest && rest <= groups.Keys
    requires forall e :: e in At(groups, id) ==> IdentityOf(e) == id
    requires ByLine(At(groups, id))
    requires forall e :: e in es <==> IdentityOf(e) in groups.Keys - rest && e in groups[IdentityOf(e)]
    requires forall i, j :: 0 <= i < j < |es| ==> es[i] != es[j]
    ensures forall e :: e in es + groups[id] <==>
      IdentityOf(e) in groups.Keys - (rest - {id}) && e in groups[IdentityOf(e)]
    ensures var all := es + groups[id]; forall i, j :: 0 <= i < j < |all| ==> all[i] != all[j]
  {
    var all := es + groups[id];
    forall i, j | 0 <= i < j < |all| ensures all[i] != all[j] {
      if i < |es| <= j {
        assert all[i] in es && all[j] in groups[id];
      } else if i >= |es| {
        assert groups[id][i - |es|].line < groups[id][j - |es|].line;
      }
    }
  }

  /** What is left of `own` once `other` has cancelled against it. */
  ghost predicate IsSurplus(own: seq<EdgeRef>, other: seq<EdgeRef>, left: seq<EdgeRef>) {
    && StrictlySortedBy(EdgeKey, left)
    && forall e :: e in left <==> e in Surplus(Of(own, IdentityOf(e)), |Of(other, IdentityOf(e))|)
  }

  lemma SurplusStays(own: seq<EdgeRef>, n: nat, id: EdgeIdentity)
    requires StrictlySortedBy(EdgeKey, own)
    ensures ByLine(Surplus(Of(own, id), n))
    ensures forall e :: e in Surplus(Of(own, id), n) ==> IdentityOf(e) == id
  {
    OfByLine(own, id);
    forall e | e in Surplus(Of(own, id), n) ensures IdentityOf(e) == id { OfMembers(own, id, e); }
  }

  /** Drops the edges of both sides that differ only in where they sit. */
  method CancelMovedEdges(removed: seq<EdgeRef>, added: seq<EdgeRef>)
    returns (removedLeft: seq<EdgeRef>, addedLeft: seq<EdgeRef>)
    requires StrictlySortedBy(EdgeKey, removed) && StrictlySortedBy(EdgeKey, added)
    ensures IsSurplus(removed, added, removedLeft) && IsSurplus(added, removed, addedLeft)
  {
    var removedGroups := Group(removed);
    var addedGroups := Group(added);
    var r, a := Cancel(removedGroups, addedGroups);
    forall id
      ensures At(r, id) == Surplus(Of(removed, id), |Of(added, id)|)
      ensures At(a, id) == Surplus(Of(added, id), |Of(removed, id)|)
      ensures ByLine(At(r, id)) && ByLine(At(a, id))
    {
      SurplusStays(removed, |Of(added, id)|, id);
      SurplusStays(added, |Of(removed, id)|, id);
    }
    forall id, e | e in At(r, id) ensures IdentityOf(e) == id { SurplusStays(removed, |Of(added, id)|, id); }
    forall id, e | e in At(a, id) ensures IdentityOf(e) == id { SurplusStays(added, |Of(removed, id)|, id); }
    removedLeft := Flatten(r);
    addedLeft := Flatten(a);
  }

  // ── what survives, set by set ───────────────────────────────

  function Share(es: set<EdgeRef>, id: EdgeIdentity): set<EdgeRef> { set e | e in es && IdentityOf(e) == id }

  /** The edges of the same identity that sit higher up in the file. */
  function Lower(es: set<EdgeRef>, e: EdgeRef): set<EdgeRef> {
    set x | x in es && IdentityOf(x) == IdentityOf(e) && x.line < e.line
  }

  /** As many of an identity's lowest lines are cancelled as the other side has. */
  ghost predicate Survives(own: set<EdgeRef>, other: set<EdgeRef>, e: EdgeRef) {
    e in own && |Lower(own, e)| >= |Share(other, IdentityOf(e))|
  }

  function AsSet(es: seq<EdgeRef>): set<EdgeRef> { set e | e in es }

  ghost predicate IsEdgeDelta(before: set<EdgeRef>, after: set<EdgeRef>, added: seq<EdgeRef>, removed: seq<EdgeRef>) {
    && StrictlySortedBy(EdgeKey, added) && StrictlySortedBy(EdgeKey, removed)
    && (forall e :: e in added <==> Survives(after - before, before - after, e))
    && (forall e :: e in removed <==> Survives(before - after, after - before, e))
  }

  lemma ByLineCounts(xs: seq<EdgeRef>)
    requires ByLine(xs)
    ensures |AsSet(xs)| == |xs|
  {
    forall i, j | 0 <= i < j < |xs| ensures xs[i] != xs[j] { assert xs[i].line < xs[j].line; }
    DistinctCounts(xs);
  }

  lemma ShareIsOf(es: seq<EdgeRef>, id: EdgeIdentity)
    requires StrictlySortedBy(EdgeKey, es)
    ensures AsSet(Of(es, id)) == Share(AsSet(es), id)
    ensures |Share(AsSet(es), id)| == |Of(es, id)|
  {
    forall e ensures e in Of(es, id) <==> e in es && IdentityOf(e) == id { OfMembers(es, id, e); }
    OfByLine(es, id);
    ByLineCounts(Of(es, id));
  }

  /** A row has as many rows of its identity below its line as it has ahead of it. */
  lemma LowerIsIndex(es: seq<EdgeRef>, id: EdgeIdentity, i: nat)
    requires StrictlySortedBy(EdgeKey, es) && i < |Of(es, id)|
    ensures IdentityOf(Of(es, id)[i]) == id && |Lower(AsSet(es), Of(es, id)[i])| == i
  {
    var xs := Of(es, id);
    OfByLine(es, id);
    OfMembers(es, id, xs[i]);
    ByLineCounts(xs[..i]);
    forall x ensures x in Lower(AsSet(es), xs[i]) <==> x in AsSet(xs[..i]) {
      OfMembers(es, id, x);
      if x in Lower(AsSet(es), xs[i]) {
        var k :| 0 <= k < |xs| && xs[k] == x;
        assert k < i;
      }
      if x in xs[..i] {
        var k :| 0 <= k < i && xs[k] == x;
        OfMembers(es, id, xs[k]);
      }
    }
    assert Lower(AsSet(es), xs[i]) == AsSet(xs[..i]);
  }

  lemma InSurplus(xs: seq<EdgeRef>, n: nat, i: nat)
    requires ByLine(xs) && i < |xs|
    ensures xs[i] in Surplus(xs, n) <==> n <= i
  {
    if n <= i { assert Surplus(xs, n)[i - n] == xs[i]; }
    if xs[i] in Surplus(xs, n) {
      var k :| 0 <= k < |Surplus(xs, n)| && Surplus(xs, n)[k] == xs[i];
      assert xs[k + n].line == xs[i].line;
    }
  }

  lemma SurplusSurvives(own: seq<EdgeRef>, other: seq<EdgeRef>, e: EdgeRef)
    requires StrictlySortedBy(EdgeKey, own) && StrictlySortedBy(EdgeKey, other)
    ensures e in Surplus(Of(own, IdentityOf(e)), |Of(other, IdentityOf(e))|) <==> Survives(AsSet(own), AsSet(other), e)
  {
    var id := IdentityOf(e);
    var xs, n := Of(own, id), |Of(other, id)|;
    ShareIsOf(other, id);
    OfMembers(own, id, e);
    OfByLine(own, id);
    if e in own {
      var i :| 0 <= i < |xs| && xs[i] == e;
      LowerIsIndex(own, id, i);
      InSurplus(xs, n, i);
    } else {
      assert e !in xs;
    }
  }

  /** The edge half of the comparison. */
  method CompareEdges(before: set<EdgeRef>, after: set<EdgeRef>) returns (added: seq<EdgeRef>, removed: seq<EdgeRef>)
    ensures IsEdgeDelta(before, after, added, removed)
  {
    forall a, b: EdgeRef | EdgeKey(a) == EdgeKey(b) ensures a == b { EdgeKeyTells(a, b); }
    var addedEdges := InOrder(EdgeKey, after - before);
    var removedEdges := InOrder(EdgeKey, before - after);
    assert AsSet(addedEdges) == after - before && AsSet(removedEdges) == before - after;
    removed, added := CancelMovedEdges(removedEdges, addedEdges);
    forall e { SurplusSurvives(addedEdges, removedEdges, e); }
    forall e { SurplusSurvives(removedEdges, addedEdges, e); }
  }

  // ── conservation ────────────────────────────────────────────

  function Excess(more: set<EdgeRef>, less: set<EdgeRef>, id: EdgeIdentity): nat {
    if |Share(more, id)| > |Share(less, id)| then |Share(more, id)| - |Share(less, id)| else 0
  }

  lemma ExcessOfDifference(a: set<EdgeRef>, b: set<EdgeRef>, id: EdgeIdentity)
    ensures Excess(a - b, b - a, id) == Excess(a, b, id)
  {
    var both := Share(a * b, id);
    assert Share(a, id) == Share(a - b, id) + both && Share(a - b, id) !! both;
    assert Share(b, id) == Share(b - a, id) + both && Share(b - a, id) !! both;
  }

  lemma SurvivorsCounted(own: set<EdgeRef>, other: set<EdgeRef>, left: seq<EdgeRef>, id: EdgeIdentity)
    requires StrictlySortedBy(EdgeKey, left) && forall e :: e in left <==> Survives(own, other, e)
    ensures |Of(left, id)| == Excess(own, other, id)
  {
    forall a, b: EdgeRef | EdgeKey(a) == EdgeKey(b) ensures a == b { EdgeKeyTells(a, b); }
    var xs := HasOrder(EdgeKey, own);
    var ys := HasOrder(EdgeKey, other);
    assert AsSet(xs) == own && AsSet(ys) == other;
    ShareIsOf(xs, id);
    ShareIsOf(ys, id);
    ShareIsOf(left, id);
    var surplus := Surplus(Of(xs, id), |Of(ys, id)|);
    SurplusStays(xs, |Of(ys, id)|, id);
    forall e ensures e in Share(AsSet(left), id) <==> e in surplus {
      if IdentityOf(e) == id { SurplusSurvives(xs, ys, e); }
    }
    ByLineCounts(surplus);
    assert Share(AsSet(left), id) == AsSet(surplus);
  }

  /** For every identity, what is reported added is what it gained and what is
      reported removed is what it lost, lines counted. */
  lemma EdgesConserved(
    before: set<EdgeRef>, after: set<EdgeRef>, added: seq<EdgeRef>, removed: seq<EdgeRef>, id: EdgeIdentity)
    requires IsEdgeDelta(before, after, added, removed)
    ensures |Of(added, id)| == Excess(after, before, id) && |Of(removed, id)| == Excess(before, after, id)
    ensures |Share(before, id)| + |Of(added, id)| == |Share(after, id)| + |Of(removed, id)|
  {
    SurvivorsCounted(after - before, before - after, added, id);
    SurvivorsCounted(before - after, after - before, removed, id);
    ExcessOfDifference(after, before, id);
    ExcessOfDifference(before, after, id);
  }

  /** Nothing is reported exactly when every relationship holds as often as it did,
      wherever its lines went. */
  lemma NothingReported(before: set<EdgeRef>, after: set<EdgeRef>, added: seq<EdgeRef>, removed: seq<EdgeRef>)
    requires IsEdgeDelta(before, after, added, removed)
    ensures added == [] && removed == [] <==> forall id :: |Share(before, id)| == |Share(after, id)|
  {
    forall id
      ensures |Of(added, id)| == Excess(after, before, id) && |Of(removed, id)| == Excess(before, after, id)
    {
      EdgesConserved(before, after, added, removed, id);
    }
    if added == [] && removed == [] {
      forall id ensures |Share(before, id)| == |Share(after, id)| {
        assert |Of(added, id)| == 0 && |Of(removed, id)| == 0;
      }
    }
    if forall id :: |Share(before, id)| == |Share(after, id)| {
      NoGroups(added);
      NoGroups(removed);
    }
  }

  lemma NoGroups(es: seq<EdgeRef>)
    requires forall id :: |Of(es, id)| == 0
    ensures es == []
  {
    forall e ensures e !in es {
      OfMembers(es, IdentityOf(e), e);
      assert |Of(es, IdentityOf(e))| == 0;
    }
    if es != [] { HasMember(es); }
  }

  function Renumbered(es: set<EdgeRef>, line: EdgeRef -> u32): set<EdgeRef> { set e | e in es :: e.(line := line(e)) }

  function ImageOf<T, U>(s: set<T>, f: T -> U): set<U> { set x | x in s :: f(x) }

  lemma {:induction false} ImageCounts<T, U>(s: set<T>, f: T -> U)
    requires forall a, b :: a in s && b in s && f(a) == f(b) ==> a == b
    ensures |ImageOf(s, f)| == |s|
    decreases s
  {
    if s == {} {
      assert ImageOf(s, f) == {};
    } else {
      var x :| x in s;
      ImageCounts(s - {x}, f);
      assert ImageOf(s, f) == ImageOf(s - {x}, f) + {f(x)};
    }
  }

  lemma RenumberedCounts(es: set<EdgeRef>, line: EdgeRef -> u32, id: EdgeIdentity)
    requires forall a, b :: a in es && b in es && IdentityOf(a) == IdentityOf(b) && line(a) == line(b) ==> a == b
    ensures |Share(Renumbered(es, line), id)| == |Share(es, id)|
  {
    var move := (e: EdgeRef) => e.(line := line(e));
    forall a, b | a in Share(es, id) && b in Share(es, id) && move(a) == move(b) ensures a == b {
      assert line(a) == line(b);
    }
    ImageCounts(Share(es, id), move);
    var image := ImageOf(Share(es, id), move);
    forall x ensures x in image <==> x in Share(Renumbered(es, line), id) {
      if x in Share(Renumbered(es, line), id) {
        var e :| e in es && x == e.(line := line(e));
        assert e in Share(es, id) && move(e) == x;
      }
    }
    assert image == Share(Renumbered(es, line), id);
  }

  /** Moving code about, lines changed but no two calls run together, is reported as
      no change at all. */
  lemma RenumberingIsNoChange(
    before: set<EdgeRef>, line: EdgeRef -> u32, added: seq<EdgeRef>, removed: seq<EdgeRef>)
    requires forall a, b :: a in before && b in before && IdentityOf(a) == IdentityOf(b) && line(a) == line(b) ==> a == b
    requires IsEdgeDelta(before, Renumbered(before, line), added, removed)
    ensures added == [] && removed == []
  {
    forall id { RenumberedCounts(before, line, id); }
    NothingReported(before, Renumbered(before, line), added, removed);
  }
}
