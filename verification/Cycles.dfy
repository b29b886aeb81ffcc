/** `no-cycles` (rule_eval.rs): components of the dependency relation, and the
    walk that is printed for each. */
module Cycles {
  import opened Ordering
  import opened Reachability
  import opened RuleModel

  predicate TextLe(a: string, b: string) { Le(TextKey(a), TextKey(b)) }

  // ── components ──────────────────────────────────────────────

  function Targets(r: Relation<string>): set<string> { set p | p in r :: p.1 }

  /** Everything a node reaches, itself included. */
  method ReachSet(r: Relation<string>, a: string) returns (seen: set<string>)
    ensures forall b :: b in seen <==> Reaches(r, a, b)
  {
    seen := {a};
    var queue := {a};
    ReachesSelf(r, a);
    while queue != {}
      invariant queue <= seen <= {a} + Targets(r) && a in seen
      invariant forall b :: b in seen ==> Reaches(r, a, b)
      invariant forall b, c :: b in seen - queue && (b, c) in r ==> c in seen
      decreases ({a} + Targets(r)) - seen, queue
    {
      var b :| b in queue;
      var next := set p | p in r && p.0 == b && p.1 !in seen :: p.1;
      forall c | c in next ensures Reaches(r, a, c) { Extend(r, a, b, c); }
      seen, queue := seen + next, (queue - {b}) + next;
    }
    forall b | Reaches(r, a, b) ensures b in seen { ClosedHolds(r, seen, a, b); }
  }

  ghost predicate Mutual(r: Relation<string>, a: string, b: string) { Reaches(r, a, b) && Reaches(r, b, a) }

  /** The strongly connected component of a node. */
  method Component(r: Relation<string>, nodes: set<string>, a: string) returns (members: set<string>)
    ensures forall b :: b in members <==> b in nodes && Mutual(r, a, b)
  {
    var ahead := ReachSet(r, a);
    members := {};
    var rest := nodes;
    while rest != {}
      invariant rest <= nodes
      invariant forall b :: b in members <==> b in nodes - rest && Mutual(r, a, b)
      decreases rest
    {
      var b :| b in rest;
      rest := rest - {b};
      if b in ahead {
        var back := ReachSet(r, b);
        if a in back { members := members + {b}; }
      }
    }
  }

  // ── the printed walk ────────────────────────────────────────

  /** The members a path may go on to. */
  function Onward(r: Relation<string>, members: set<string>, path: seq<string>): set<string>
    requires |path| > 0
  {
    set p | p in r && p.0 == path[|path| - 1] && p.1 in members && p.1 !in path :: p.1
  }

  /** A path from `start` that never repeats a member and always takes the least
      hop open to it. */
  ghost predicate IsPath(r: Relation<string>, members: set<string>, start: string, path: seq<string>)
    decreases |path|
  {
    && |path| >= 1 && path[0] == start && start in members
    && (|path| > 1 ==>
        var before, last := path[..|path| - 1], path[|path| - 1];
        && IsPath(r, members, start, before)
        && last in Onward(r, members, before)
        && forall t :: t in Onward(r, members, before) ==> TextLe(last, t))
  }

  /** What is printed: such a path, run until nothing is open, and then its start
      again. */
  ghost predicate IsCycleWalk(r: Relation<string>, members: set<string>, start: string, walk: seq<string>) {
    && |walk| >= 2 && walk[|walk| - 1] == start
    && IsPath(r, members, start, walk[..|walk| - 1])
    && Onward(r, members, walk[..|walk| - 1]) == {}
  }

  method LeastOf(names: set<string>) returns (least: string)
    requires names != {}
    ensures least in names && forall t :: t in names ==> TextLe(least, t)
  {
    var ordered := InOrder(TextKey, names);
    var some :| some in names;
    assert some in ordered;
    least := ordered[0];
    forall t | t in names ensures TextLe(least, t) {
      var k :| 0 <= k < |ordered| && ordered[k] == t;
      Reflexive(TextKey(t));
    }
  }

  method CyclePath(r: Relation<string>, members: set<string>, start: string) returns (walk: seq<string>)
    requires start in members
    ensures IsCycleWalk(r, members, start, walk)
  {
    walk := [start];
    while true
      invariant IsPath(r, members, start, walk)
      decreases members - (set x | x in walk)
    {
      var open := Onward(r, members, walk);
      if open == {} {
        break;
      }
      var next := LeastOf(open);
      ghost var before := walk;
      walk := walk + [next];
      assert walk[..|walk| - 1] == before;
      assert next in members - (set x | x in before) && next in walk;
      assert (set x | x in walk) == (set x | x in before) + {next};
    }
    walk := walk + [start];
    assert walk[..|walk| - 1] + [start] == walk;
  }

  /** Read hop by hop: distinct members of the component, joined by its edges. */
  lemma {:induction false} PathHops(r: Relation<string>, members: set<string>, start: string, path: seq<string>)
    requires IsPath(r, members, start, path)
    ensures forall i :: 0 <= i < |path| ==> path[i] in members
    ensures forall i, j :: 0 <= i < j < |path| ==> path[i] != path[j]
    ensures forall i, j :: 0 <= i && j == i + 1 < |path| ==> (path[i], path[j]) in r
    decreases |path|
  {
    if |path| > 1 {
      var before := path[..|path| - 1];
      PathHops(r, members, start, before);
      assert path == before + [path[|path| - 1]];
    }
  }

  /** The printed walk starts and ends at the chosen member, repeats none in
      between, and every hop before the closing one is a real dependency. */
  lemma WalkHops(r: Relation<string>, members: set<string>, start: string, walk: seq<string>)
    requires IsCycleWalk(r, members, start, walk)
    ensures walk[0] == walk[|walk| - 1] == start
    ensures forall i :: 0 <= i < |walk| ==> walk[i] in members
    ensures forall i, j :: 0 <= i < j < |walk| - 1 ==> walk[i] != walk[j]
    ensures forall i, j :: 0 <= i && j == i + 1 < |walk| - 1 ==> (walk[i], walk[j]) in r
  {
    var path := walk[..|walk| - 1];
    PathHops(r, members, start, path);
    assert forall i :: 0 <= i < |path| ==> walk[i] == path[i];
  }

  ghost predicate IsComponent(r: Relation<string>, members: set<string>) {
    && (forall a, b :: a in members && b in members ==> Mutual(r, a, b))
    && (forall a, b :: a in members && Mutual(r, a, b) ==> b in members)
  }

  lemma MutualExtends(r: Relation<string>, a: string, b: string, c: string)
    requires Mutual(r, a, b) && (a, c) in r && Reaches(r, c, b)
    ensures Mutual(r, a, c)
  {
    Step(r, a, c);
    ReachesThrough(r, c, b, a);
  }

  /** A component of two is printed as the cycle it is: both hops are edges. */
  lemma TwoMemberWalkCloses(r: Relation<string>, a: string, b: string, walk: seq<string>)
    requires a != b && IsComponent(r, {a, b}) && IsCycleWalk(r, {a, b}, a, walk)
    requires forall p :: p in r ==> p.0 != p.1
    ensures walk == [a, b, a] && (a, b) in r && (b, a) in r
  {
    assert Mutual(r, a, b) && Mutual(r, b, a);
    var c := FirstStep(r, a, b);
    MutualExtends(r, a, b, c);
    var d := FirstStep(r, b, a);
    MutualExtends(r, b, a, d);
    assert c == b && d == a;
    WalkHops(r, {a, b}, a, walk);
    var path := walk[..|walk| - 1];
    assert b in Onward(r, {a, b}, [a]);
    if |path| == 1 {
      OneElement(path);
      assert false;
    }
    assert path[0] in {a, b} && path[1] in {a, b};
    assert |path| == 2;
    assert walk == [walk[0], walk[1], walk[2]];
  }

  lemma OneElement<T>(xs: seq<T>)
    requires |xs| == 1
    ensures xs == [xs[0]]
  {
  }

  const DETOUR: Relation<string> := {("a", "b"), ("b", "c"), ("c", "b"), ("b", "a")}

  lemma DetourIsComponent()
    ensures IsComponent(DETOUR, {"a", "b", "c"})
  {
    var r, members := DETOUR, {"a", "b", "c"};
    Step(r, "a", "b");
    Step(r, "b", "c");
    Step(r, "c", "b");
    Step(r, "b", "a");
    ReachesThrough(r, "a", "b", "c");
    ReachesThrough(r, "c", "b", "a");
    forall x ensures Reaches(r, x, x) { ReachesSelf(r, x); }
    assert Closed(r, members);
    forall x, y | x in members && Mutual(r, x, y) ensures y in members { ClosedHolds(r, members, x, y); }
  }

  lemma DetourPath()
    ensures IsPath(DETOUR, {"a", "b", "c"}, "a", ["a", "b", "c"])
  {
    var r, members := DETOUR, {"a", "b", "c"};
    assert Onward(r, members, ["a"]) == {"b"};
    assert Onward(r, members, ["a", "b"]) == {"c"};
    Reflexive(TextKey("b"));
    Reflexive(TextKey("c"));
    assert IsPath(r, members, "a", ["a"]);
    assert ["a", "b"][..1] == ["a"];
    assert IsPath(r, members, "a", ["a", "b"]);
    assert ["a", "b", "c"][..2] == ["a", "b"];
  }

  /** In a larger component the closing hop need not be an edge: here the printed
      `a -> b -> c -> a` ends with a dependency that does not exist. */
  lemma ClosingHopMayBeNoEdge()
    ensures IsComponent(DETOUR, {"a", "b", "c"})
    ensures IsCycleWalk(DETOUR, {"a", "b", "c"}, "a", ["a", "b", "c", "a"])
    ensures ("c", "a") !in DETOUR
  {
    DetourIsComponent();
    DetourPath();
    assert Onward(DETOUR, {"a", "b", "c"}, ["a", "b", "c"]) == {};
    assert ["a", "b", "c", "a"][..3] == ["a", "b", "c"];
  }

  // ── files and the directories they are in ───────────────────

  function DirectoryOf(path: string): string { CycleNode(path, ModuleLevel) }

  /** A dependency between files is one between their directories, or stays
      inside one. */
  lemma FilePairIsModulePair(w: World, scope: string, es: seq<Edge>, x: string, y: string)
    requires (x, y) in DependsOn(w, scope, FileLevel, es) && DirectoryOf(x) != DirectoryOf(y)
    ensures (DirectoryOf(x), DirectoryOf(y)) in DependsOn(w, scope, ModuleLevel, es)
  {
    var e :| e in es && e.gateSafe && Pairs(w, scope, FileLevel, e)
      && (x, y) == (NodeOf(w, FileLevel, e.from), NodeOf(w, FileLevel, e.to));
    assert Pairs(w, scope, ModuleLevel, e);
  }

  /** A cycle of files that spans two directories is a cycle of directories too. */
  lemma FileCycleIsModuleCycle(w: World, scope: string, es: seq<Edge>, a: string, b: string)
    requires Mutual(DependsOn(w, scope, FileLevel, es), a, b) && DirectoryOf(a) != DirectoryOf(b)
    ensures Mutual(DependsOn(w, scope, ModuleLevel, es), DirectoryOf(a), DirectoryOf(b))
    ensures HasCycle(DependsOn(w, scope, ModuleLevel, es))
  {
    var files, directories := DependsOn(w, scope, FileLevel, es), DependsOn(w, scope, ModuleLevel, es);
    forall x, y | (x, y) in files && DirectoryOf(x) != DirectoryOf(y)
      ensures (DirectoryOf(x), DirectoryOf(y)) in directories
    {
      FilePairIsModulePair(w, scope, es, x, y);
    }
    Image(files, directories, DirectoryOf, a, b);
    Image(files, directories, DirectoryOf, b, a);
  }
}
