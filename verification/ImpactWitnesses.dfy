/** Inputs on which the impact of a file leaves something out (query.rs, `file_impact`):
    three graphs of a symbol `t` in file `f` and two references to it on one line. */
module ImpactWitnesses {
  import opened Wrappers
  import opened Ir
  import opened Ordering
  import opened GraphModel
  import opened Graph
  import opened Query
  import opened FileImpact
  import opened ImpactLaws

  function Declared(id: SymbolId, file: string): Symbol { Symbol(id, id, Function, Rust, file, 1, 1, None) }

  function Use(from: SymbolId, kind: RelationshipKind, file: string, resolution: Resolution): Relationship {
    Relationship(from, "t", kind, None, [], "", file, 1, resolution)
  }

  predicate IsUse(r: Relationship) { (r.from == "a" || r.from == "b") && r.to == "t" && r.file != "f" }

  const TARGET: GraphView := WithSymbol(EMPTY, Declared("t", "f"))

  const USERS: GraphView := WithSymbol(WithSymbol(TARGET, Declared("a", "g")), Declared("b", "g"))

  function TwoUses(x: Relationship, y: Relationship): GraphView { WithRelationship(WithRelationship(USERS, x), y) }

  function EdgeOf(r: Relationship): NamedEdge { NamedEdge(r.from, r.to, MetaOf(r)) }

  lemma UsersHold()
    ensures USERS.nodes == ["t", "a", "b"] && USERS.links == [] && USERS.nodeIndex == map["t" := 0, "a" := 1, "b" := 2]
    ensures At(USERS.fileIndex, "f") == ["t"]
  {
    assert TARGET.fileIndex == map["f" := ["t"]];
    hide SortBy, Dedup;
    var g := WithSymbol(TARGET, Declared("a", "g"));
    assert g.nodes == ["t"] + ["a"] && g.fileIndex == map["f" := ["t"], "g" := ["a"]];
    assert USERS.nodes == ["t", "a"] + ["b"];
  }

  lemma UsersIsState()
    ensures IsState(USERS)
  {
    hide WithSymbol, IsState;
    EmptyIsState();
    NextIsState(EMPTY, AddSymbolOp(Declared("t", "f")), TARGET);
    NextIsState(TARGET, AddSymbolOp(Declared("a", "g")), WithSymbol(TARGET, Declared("a", "g")));
    NextIsState(WithSymbol(TARGET, Declared("a", "g")), AddSymbolOp(Declared("b", "g")), USERS);
  }

  lemma TwoUsesIsState(x: Relationship, y: Relationship)
    ensures IsState(TwoUses(x, y)) && LinksLand(TwoUses(x, y))
  {
    UsersIsState();
    hide WithRelationship, IsState, USERS;
    NextIsState(USERS, AddRelationshipOp(x), WithRelationship(USERS, x));
    NextIsState(WithRelationship(USERS, x), AddRelationshipOp(y), TwoUses(x, y));
    StateIsSound(TwoUses(x, y));
  }

  /** Such a graph is one that additions build, and holds just these two edges. */
  lemma TwoUsesHolds(x: Relationship, y: Relationship)
    requires IsUse(x) && IsUse(y)
    ensures IsState(TwoUses(x, y)) && LinksLand(TwoUses(x, y))
    ensures var g := TwoUses(x, y); Names(g.nodes, g.links) == [EdgeOf(x), EdgeOf(y)] && "t" in g.nodeIndex
    ensures Roots(TwoUses(x, y), "f") == ["t"]
  {
    TwoUsesIsState(x, y);
    UsersHold();
    hide IsState, USERS, SortBy;
    var g := TwoUses(x, y);
    assert g.nodes == USERS.nodes && g.fileIndex == USERS.fileIndex;
    assert g.links == [Link(USERS.nodeIndex[x.from], 0, MetaOf(x)), Link(USERS.nodeIndex[y.from], 0, MetaOf(y))];
    hide TwoUses;
    SortIdempotent(TextKey, ["t"]);
    var es := Names(g.nodes, g.links);
    assert es == [es[0], es[1]];
  }

  /** Both edges reach in, under any filter that admits them. */
  lemma BothReach(x: Relationship, y: Relationship, filter: Filter, max: nat)
    requires IsUse(x) && IsUse(y) && filter.Admits(EdgeOf(x)) && filter.Admits(EdgeOf(y)) && max > 0
    ensures LinksLand(TwoUses(x, y))
    ensures forall e :: Reaching(TwoUses(x, y), "f", filter, max, e) <==> e == EdgeOf(x) || e == EdgeOf(y)
  {
    TwoUsesHolds(x, y);
    var g := TwoUses(x, y);
    hide TwoUses, IsState, Names, Roots;
    var es := Names(g.nodes, g.links);
    assert "t" in Roots(g, "f");
    assert IsDistance(es, Walk("t", Incoming, filter), "t", 0);
    assert AttainedFrom(g, "t", filter, max, "t");
    assert Attained(g, Roots(g, "f"), filter, max, "t");
    assert es[0] in es && es[1] in es;
  }

  ghost predicate ImpactOf(g: GraphView, file: string, filter: Filter, max: nat, i: Impact) {
    LinksLand(g) && IsImpact(g, file, filter, max, i)
  }

  /** A run arrives at this graph; both edges reach into the file. */
  ghost predicate IsCase(g: GraphView, filter: Filter, max: nat, x: NamedEdge, y: NamedEdge) {
    && LinksLand(g) && IsState(g) && Names(g.nodes, g.links) == [x, y]
    && forall e :: Reaching(g, "f", filter, max, e) <==> e == x || e == y
  }

  lemma TwoUsesIsCase(x: Relationship, y: Relationship, filter: Filter, max: nat)
    requires IsUse(x) && IsUse(y) && filter.Admits(EdgeOf(x)) && filter.Admits(EdgeOf(y)) && max > 0
    ensures IsCase(TwoUses(x, y), filter, max, EdgeOf(x), EdgeOf(y))
  {
    BothReach(x, y, filter, max);
    TwoUsesHolds(x, y);
    hide TwoUses, IsState, Reaching, Names;
  }

  /** The second edge has no row. */
  lemma SecondHasNoRow(g: GraphView, filter: Filter, max: nat, x: NamedEdge, y: NamedEdge, i: Impact)
    requires IsCase(g, filter, max, x, y) && IsImpact(g, "f", filter, max, i)
    requires !Foremost(g, "f", filter, max, y)
    ensures !HasRow(i, y) && forall q :: q in i.edges ==> q.edge == x
  {
    ImpactTells(g, "f", filter, max, i);
    hide IsImpact, IsState, Reaching, Names, IsFirst, Leads;
    forall q | q in i.edges ensures q.edge == x && q.edge != y { assert Foremost(g, "f", filter, max, q.edge); }
  }

  /** So the impact passes for resolved, if the first edge is. */
  lemma PassesForResolved(g: GraphView, filter: Filter, max: nat, x: NamedEdge, y: NamedEdge, i: Impact)
    requires IsCase(g, filter, max, x, y) && IsImpact(g, "f", filter, max, i) && !Foremost(g, "f", filter, max, y)
    requires x.meta.resolution.Resolved? && y.meta.resolution.Structural?
    ensures i.gateSafe && !AllSafe(g, "f", filter, max)
  {
    SecondHasNoRow(g, filter, max, x, y, i);
    hide Gathered, IsState, Reaching, Names, Foremost;
    assert Reaching(g, "f", filter, max, y);
  }

  lemma BehindAnother(g: GraphView, filter: Filter, max: nat, x: NamedEdge, y: NamedEdge)
    requires IsCase(g, filter, max, x, y) && FactOf(x) == FactOf(y) && !CharsLe(y.from, x.from)
    ensures !Heads(g, "f", filter, max, y) && !Foremost(g, "f", filter, max, y)
  {
    assert Reaching(g, "f", filter, max, x);
    hide FactOf, Attained, Names;
    assert !Leads([x, y], filter, y);
  }

  /** An edge whose reference a leading edge gives an earlier fact for is no first one. */
  lemma BehindAnotherFact(g: GraphView, filter: Filter, max: nat, x: NamedEdge, y: NamedEdge)
    requires IsCase(g, filter, max, x, y)
    requires ReferenceOf(x) == ReferenceOf(y) && FactOf(x) != FactOf(y) && !Le(FactKey(y), FactKey(x))
    ensures !Foremost(g, "f", filter, max, y)
  {
    assert Reaching(g, "f", filter, max, x);
    CharsTotal(x.from, x.from);
    hide FactKey, FactOf, Attained, Names, IsState;
    assert Leads([x, y], filter, x);
  }

  /** Two symbols refer to `t` from one line. Only the first is listed, and where the
      other's edge is the unresolved one, the impact is still said to be resolved. */
  lemma SecondReferrerIsLeftOut(filter: Filter, max: nat, i: Impact)
    requires Calls in filter.kinds && filter.floor.Structural? && max > 0
    requires ImpactOf(TwoUses(Use("a", Calls, "g", Resolved), Use("b", Calls, "g", Structural)), "f", filter, max, i)
    ensures var x, y := EdgeOf(Use("a", Calls, "g", Resolved)), EdgeOf(Use("b", Calls, "g", Structural));
      var g := TwoUses(Use("a", Calls, "g", Resolved), Use("b", Calls, "g", Structural));
      && IsCase(g, filter, max, x, y) && !Mentions(i, ReferenceOf(y))
      && i.gateSafe && !AllSafe(g, "f", filter, max)
  {
    var a, b := Use("a", Calls, "g", Resolved), Use("b", Calls, "g", Structural);
    var g, x, y := TwoUses(a, b), EdgeOf(a), EdgeOf(b);
    TwoUsesIsCase(a, b, filter, max);
    assert FactOf(x) == FactOf(y) && ReferenceOf(x) != ReferenceOf(y) && !CharsLe("b", "a");
    hide TwoUses, IsImpact, IsCase, FactOf, Foremost, AllSafe;
    BehindAnother(g, filter, max, x, y);
    PassesForResolved(g, filter, max, x, y, i);
    SecondHasNoRow(g, filter, max, x, y, i);
  }

  /** One symbol refers to `t` twice on one line, by two kinds. Only the first has a row,
      though they are two facts. */
  lemma SecondKindIsLeftOut(filter: Filter, max: nat, i: Impact)
    requires Calls in filter.kinds && UsesType in filter.kinds && filter.floor.Structural? && max > 0
    requires ImpactOf(TwoUses(Use("a", Calls, "g", Resolved), Use("a", UsesType, "g", Structural)), "f", filter, max, i)
    ensures var x, y := EdgeOf(Use("a", Calls, "g", Resolved)), EdgeOf(Use("a", UsesType, "g", Structural));
      var g := TwoUses(Use("a", Calls, "g", Resolved), Use("a", UsesType, "g", Structural));
      && IsCase(g, filter, max, x, y) && FactOf(x) != FactOf(y) && !HasRow(i, y)
      && i.gateSafe && !AllSafe(g, "f", filter, max)
  {
    var a, b := Use("a", Calls, "g", Resolved), Use("a", UsesType, "g", Structural);
    var g, x, y := TwoUses(a, b), EdgeOf(a), EdgeOf(b);
    TwoUsesIsCase(a, b, filter, max);
    KindsInOrder(x, y);
    hide TwoUses, IsImpact, IsCase, FactOf, FactKey, Foremost, AllSafe;
    BehindAnotherFact(g, filter, max, x, y);
    PassesForResolved(g, filter, max, x, y, i);
    SecondHasNoRow(g, filter, max, x, y, i);
  }

  lemma KindsInOrder(x: NamedEdge, y: NamedEdge)
    requires x.meta.kind.Calls? && y.meta.kind.UsesType? && x.meta.file == y.meta.file
    ensures FactOf(x) != FactOf(y) && !Le(FactKey(y), FactKey(x))
  {
    assert "calls"[0] == 'c' && "uses-type"[0] == 'u';
    var k, l := FactKey(y), FactKey(x);
    assert k[0] == l[0] && k[1..][0] == Text("uses-type") && l[1..][0] == Text("calls");
    assert Le(k, l) == Le(k[1..], l[1..]);
  }

  /** One symbol refers to `t` from the same line of two files. Only the first file is
      named, though the second reaches in as well. */
  lemma SecondFileIsLeftOut(filter: Filter, max: nat, i: Impact)
    requires Calls in filter.kinds && filter.floor.Structural? && max > 0
    requires ImpactOf(TwoUses(Use("a", Calls, "g", Resolved), Use("a", Calls, "h", Resolved)), "f", filter, max, i)
    ensures var x, y := EdgeOf(Use("a", Calls, "g", Resolved)), EdgeOf(Use("a", Calls, "h", Resolved));
      var g := TwoUses(Use("a", Calls, "g", Resolved), Use("a", Calls, "h", Resolved));
      IsCase(g, filter, max, x, y) && y.meta.file !in i.dependents
  {
    var a, b := Use("a", Calls, "g", Resolved), Use("a", Calls, "h", Resolved);
    var g, x, y := TwoUses(a, b), EdgeOf(a), EdgeOf(b);
    TwoUsesIsCase(a, b, filter, max);
    FilesInOrder(x, y);
    hide TwoUses, IsImpact, IsCase, FactOf, FactKey, Foremost;
    BehindAnotherFact(g, filter, max, x, y);
    SecondHasNoRow(g, filter, max, x, y, i);
    NotNamed(g, filter, max, i, x, "h");
  }

  lemma FilesInOrder(x: NamedEdge, y: NamedEdge)
    requires x.meta.file == "g" && y.meta.file == "h"
    ensures FactOf(x) != FactOf(y) && !Le(FactKey(y), FactKey(x))
  {
    assert FactKey(y)[0] == Text("h") && FactKey(x)[0] == Text("g") && !CharsLe("h", "g");
  }

  lemma NotNamed(g: GraphView, filter: Filter, max: nat, i: Impact, x: NamedEdge, f: string)
    requires LinksLand(g) && IsImpact(g, "f", filter, max, i)
    requires (forall q :: q in i.edges ==> q.edge == x) && x.meta.file != f
    ensures f !in i.dependents
  {
    CountsRows(i.edges, f);
    assert Tallies(i.edges, i.dependents);
    hide Gathered, CountFrom;
  }
}
