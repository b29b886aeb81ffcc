/** The depth-bounded, iterative tree walk every adapter uses (ast.rs). */
module Walk {

  datatype Tree = Tree(children: seq<Tree>)

  /** A node of a tree, named by its child indices from the root. */
  datatype Path = Root | Child(parent: Path, index: nat)

  const MAX_TREE_DEPTH: nat := 512

  predicate Exists(t: Tree, p: Path)
    decreases p, 0
  {
    p.Root? || (Exists(t, p.parent) && p.index < |NodeAt(t, p.parent).children|)
  }

  function NodeAt(t: Tree, p: Path): Tree
    requires Exists(t, p)
    decreases p, 1
  {
    if p.Root? then t else NodeAt(t, p.parent).children[p.index]
  }

  /** `p` lies in the subtree rooted at `base`, itself included. */
  predicate Under(base: Path, p: Path) {
    p == base || (p.Child? && Under(base, p.parent))
  }

  function Depth(base: Path, p: Path): nat
    requires Under(base, p)
  {
    if p == base then 0 else Depth(base, p.parent) + 1
  }

  // ── what the walk should visit ──────────────────────────────

  /** The recursive pre-order of the subtree `t` found at `p`, cut below the
      depth limit. */
  function Preorder(t: Tree, p: Path, depth: nat): seq<Path>
    decreases t, |t.children| + 1
  {
    [p] + if depth < MAX_TREE_DEPTH then PreorderFrom(t, 0, p, depth) else []
  }

  function PreorderFrom(t: Tree, i: nat, p: Path, depth: nat): seq<Path>
    requires i <= |t.children|
    decreases t, |t.children| - i
  {
    if i == |t.children| then []
    else Preorder(t.children[i], Child(p, i), depth + 1) + PreorderFrom(t, i + 1, p, depth)
  }

  /** A node at the limit with children: its subtree is not entered. */
  predicate IsCut(tree: Tree, base: Path, p: Path) {
    Exists(tree, p) && Under(base, p) && Depth(base, p) >= MAX_TREE_DEPTH && |NodeAt(tree, p).children| > 0
  }

  function CutCount(tree: Tree, base: Path, visited: seq<Path>): nat {
    if |visited| == 0 then 0
    else
      var last := |visited| - 1;
      CutCount(tree, base, visited[..last]) + if IsCut(tree, base, visited[last]) then 1 else 0
  }

  /** What remains once the subtree at `p` is finished: the later siblings at
      each level, up to and not beyond `base`. */
  function Pending(tree: Tree, base: Path, p: Path): seq<Path>
    requires Exists(tree, p) && Under(base, p)
  {
    if p == base then []
    else PreorderFrom(NodeAt(tree, p.parent), p.index + 1, p.parent, Depth(base, p.parent))
         + Pending(tree, base, p.parent)
  }

  function Remaining(tree: Tree, base: Path, p: Path): seq<Path>
    requires Exists(tree, p) && Under(base, p)
  {
    Preorder(NodeAt(tree, p), p, Depth(base, p)) + Pending(tree, base, p)
  }

  lemma Regroup<T>(a: seq<T>, b: seq<T>, c: seq<T>, d: seq<T>)
    ensures (a + (b + c)) + d == a + (b + (c + d))
  {
  }

  ghost function Level(p: Path): nat {
    if p.Root? then 0 else Level(p.parent) + 1
  }

  lemma {:induction false} UnderIsDeeper(base: Path, p: Path)
    requires Under(base, p)
    ensures Level(p) == Level(base) + Depth(base, p)
  {
    if p != base { UnderIsDeeper(base, p.parent); }
  }

  lemma ChildIsUnder(base: Path, p: Path, i: nat)
    requires Under(base, p)
    ensures Child(p, i) != base && Under(base, Child(p, i))
    ensures Depth(base, Child(p, i)) == Depth(base, p) + 1
  {
    UnderIsDeeper(base, p);
  }

  lemma FirstChildNext(tree: Tree, base: Path, p: Path)
    requires Exists(tree, p) && Under(base, p) && Depth(base, p) < MAX_TREE_DEPTH
    requires |NodeAt(tree, p).children| > 0
    ensures Remaining(tree, base, p) == [p] + Remaining(tree, base, Child(p, 0))
    ensures Depth(base, Child(p, 0)) == Depth(base, p) + 1
  {
    ChildIsUnder(base, p, 0);
    var node, depth := NodeAt(tree, p), Depth(base, p);
    var first := Preorder(node.children[0], Child(p, 0), depth + 1);
    var later := PreorderFrom(node, 1, p, depth);
    assert PreorderFrom(node, 0, p, depth) == first + later;
    Regroup([p], first, later, Pending(tree, base, p));
  }

  lemma NothingBelow(tree: Tree, base: Path, p: Path)
    requires Exists(tree, p) && Under(base, p)
    requires Depth(base, p) >= MAX_TREE_DEPTH || |NodeAt(tree, p).children| == 0
    ensures Remaining(tree, base, p) == [p] + Pending(tree, base, p)
  {
    assert Preorder(NodeAt(tree, p), p, Depth(base, p)) == [p];
  }

  lemma NextSiblingNext(tree: Tree, base: Path, p: Path)
    requires Exists(tree, p) && Under(base, p) && p != base
    requires p.index + 1 < |NodeAt(tree, p.parent).children|
    ensures Pending(tree, base, p) == Remaining(tree, base, Child(p.parent, p.index + 1))
    ensures Depth(base, Child(p.parent, p.index + 1)) == Depth(base, p)
  {
    ChildIsUnder(base, p.parent, p.index + 1);
    var node, depth, next := NodeAt(tree, p.parent), Depth(base, p.parent), p.index + 1;
    var here := Preorder(node.children[next], Child(p.parent, next), depth + 1);
    var later := PreorderFrom(node, next + 1, p.parent, depth);
    assert PreorderFrom(node, next, p.parent, depth) == here + later;
    assert (here + later) + Pending(tree, base, p.parent) == here + (later + Pending(tree, base, p.parent));
  }

  lemma RemainingAtBase(tree: Tree, base: Path)
    requires Exists(tree, base)
    ensures Remaining(tree, base, base) == Preorder(NodeAt(tree, base), base, 0)
  {
  }

  lemma Visited(log: seq<Path>, p: Path, rest: seq<Path>)
    ensures log + ([p] + rest) == (log + [p]) + rest
  {
  }

  lemma LastSiblingEnds(tree: Tree, base: Path, p: Path)
    requires Exists(tree, p) && Under(base, p) && p != base
    requires p.index + 1 == |NodeAt(tree, p.parent).children|
    ensures Pending(tree, base, p) == Pending(tree, base, p.parent)
  {
  }

  // ── the cursor and the loop ─────────────────────────────────

  /** A position in the whole tree. Nothing in it knows where a walk began, so
      only the walk's own depth count can keep it inside a subtree. */
  class TreeCursor {
    const tree: Tree
    var path: Path

    ghost predicate Valid()
      reads this
    {
      Exists(tree, path)
    }

    constructor (tree: Tree, path: Path)
      requires Exists(tree, path)
      ensures this.tree == tree && this.path == path && Valid()
    {
      this.tree := tree;
      this.path := path;
    }

    method ChildCount() returns (n: nat)
      requires Valid()
      ensures n == |NodeAt(tree, path).children|
    {
      n := |NodeAt(tree, path).children|;
    }

    method GotoFirstChild() returns (moved: bool)
      requires Valid()
      modifies this
      ensures Valid()
      ensures moved == (|NodeAt(tree, old(path)).children| > 0)
      ensures path == if moved then Child(old(path), 0) else old(path)
    {
      moved := |NodeAt(tree, path).children| > 0;
      if moved { path := Child(path, 0); }
    }

    method GotoNextSibling() returns (moved: bool)
      requires Valid()
      modifies this
      ensures Valid()
      ensures moved ==
        (old(path).Child? && old(path).index + 1 < |NodeAt(tree, old(path).parent).children|)
      ensures path == if moved then Child(old(path).parent, old(path).index + 1) else old(path)
    {
      moved := path.Child? && path.index + 1 < |NodeAt(tree, path.parent).children|;
      if moved { path := Child(path.parent, path.index + 1); }
    }

    method GotoParent() returns (moved: bool)
      requires Valid()
      modifies this
      ensures Valid()
      ensures moved == old(path).Child?
      ensures path == if moved then old(path).parent else old(path)
    {
      moved := path.Child?;
      if moved { path := path.parent; }
    }
  }

  datatype WalkStats = WalkStats(visited: nat, skippedSubtrees: nat) {
    predicate Truncated() { skippedSubtrees > 0 }
  }

  /** Nothing of the subtree was left out. */
  ghost predicate AllVisited(tree: Tree, base: Path, log: seq<Path>) {
    forall q :: Exists(tree, q) && Under(base, q) ==> q in log
  }

  /** Climbs until there is a sibling to move to. Stopping at depth 0 is what
      keeps the walk inside the subtree it started in. */
  method MoveOn(cursor: TreeCursor, ghost base: Path, from: nat) returns (found: bool, depth: nat)
    requires cursor.Valid() && Under(base, cursor.path) && from == Depth(base, cursor.path)
    modifies cursor
    ensures cursor.Valid() && Under(base, cursor.path)
    ensures depth == Depth(base, cursor.path) <= from
    ensures found ==>
      Pending(cursor.tree, base, old(cursor.path)) == Remaining(cursor.tree, base, cursor.path)
    ensures !found ==> Pending(cursor.tree, base, old(cursor.path)) == [] && cursor.path == base
  {
    ghost var start := cursor.path;
    depth := from;
    while true
      invariant cursor.Valid() && Under(base, cursor.path)
      invariant depth == Depth(base, cursor.path) <= from
      invariant Pending(cursor.tree, base, cursor.path) == Pending(cursor.tree, base, start)
      decreases depth
    {
      if depth == 0 {
        return false, depth;
      }
      ghost var at := cursor.path;
      var moved := cursor.GotoNextSibling();
      if moved {
        NextSiblingNext(cursor.tree, base, at);
        return true, depth;
      }
      LastSiblingEnds(cursor.tree, base, at);
      var _ := cursor.GotoParent();
      depth := depth - 1;
    }
  }

  /** Visits a subtree; `log` records each node handed to the visitor. */
  method WalkFrom(cursor: TreeCursor) returns (stats: WalkStats, log: seq<Path>)
    requires cursor.Valid()
    modifies cursor
    ensures log == Preorder(NodeAt(cursor.tree, old(cursor.path)), old(cursor.path), 0)
    ensures cursor.path == old(cursor.path)
    ensures stats.visited == |log|
    ensures stats.skippedSubtrees == CutCount(cursor.tree, old(cursor.path), log)
  {
    var tree := cursor.tree;
    ghost var base := cursor.path;
    ghost var whole := Preorder(NodeAt(tree, base), base, 0);
    RemainingAtBase(tree, base);
    var visited, skipped, depth := 0, 0, 0;
    log := [];
    while true
      invariant cursor.Valid() && Under(base, cursor.path)
      invariant depth == Depth(base, cursor.path) <= MAX_TREE_DEPTH
      invariant log + Remaining(tree, base, cursor.path) == whole
      invariant visited == |log|
      invariant skipped == CutCount(tree, base, log)
      decreases |whole| - |log|
    {
      ghost var here, before := cursor.path, log;
      log := log + [cursor.path];
      visited := visited + 1;
      assert log[..|log| - 1] == before;

      if depth < MAX_TREE_DEPTH {
        var descended := cursor.GotoFirstChild();
        if descended {
          FirstChildNext(tree, base, here);
          Visited(before, here, Remaining(tree, base, cursor.path));
          depth := depth + 1;
          continue;
        }
      } else {
        var count := cursor.ChildCount();
        if count > 0 { skipped := skipped + 1; }
      }
      NothingBelow(tree, base, here);
      Visited(before, here, Pending(tree, base, here));

      var found;
      found, depth := MoveOn(cursor, base, depth);
      if !found {
        return WalkStats(visited, skipped), log;
      }
    }
  }

  // ── what that covers ────────────────────────────────────────

  /** A proper descendant is under exactly one child. */
  lemma {:induction false} UnderSplits(p: Path, q: Path) returns (i: nat)
    requires Under(p, q) && p != q
    ensures Under(Child(p, i), q) && Depth(p, q) == 1 + Depth(Child(p, i), q)
    ensures forall j: nat :: Under(Child(p, j), q) ==> j == i
  {
    if q.parent == p {
      i := q.index;
      forall j: nat | Under(Child(p, j), q) ensures j == i {
        UnderIsDeeper(Child(p, j), q);
        UnderIsDeeper(p, q);
      }
    } else {
      i := UnderSplits(p, q.parent);
    }
  }

  lemma {:induction false} UnderChild(p: Path, i: nat, q: Path)
    requires Under(Child(p, i), q)
    ensures Under(p, q) && p != q && Depth(p, q) == 1 + Depth(Child(p, i), q)
  {
    UnderIsDeeper(Child(p, i), q);
    if q != Child(p, i) { UnderChild(p, i, q.parent); }
    UnderIsDeeper(p, q);
  }

  lemma {:induction false} AncestorExists(tree: Tree, p: Path, q: Path)
    requires Under(p, q) && Exists(tree, q)
    ensures Exists(tree, p)
  {
    if p != q { AncestorExists(tree, p, q.parent); }
  }

  /** A node is visited exactly when it is in the subtree and no deeper than the
      limit. */
  lemma {:induction false} PreorderCovers(tree: Tree, p: Path, depth: nat, q: Path)
    requires Exists(tree, p) && depth <= MAX_TREE_DEPTH
    ensures q in Preorder(NodeAt(tree, p), p, depth) <==>
      Under(p, q) && Exists(tree, q) && depth + Depth(p, q) <= 512
    decreases NodeAt(tree, p), |NodeAt(tree, p).children| + 1
  {
    var t := NodeAt(tree, p);
    if q == p {
    } else if depth == MAX_TREE_DEPTH {
    } else {
      PreorderFromCovers(tree, 0, p, depth, q);
      if Under(p, q) {
        var i := UnderSplits(p, q);
      }
      if j: nat :| Under(Child(p, j), q) { UnderChild(p, j, q); }
    }
  }

  lemma {:induction false} PreorderFromCovers(tree: Tree, i: nat, p: Path, depth: nat, q: Path)
    requires Exists(tree, p) && depth < MAX_TREE_DEPTH && i <= |NodeAt(tree, p).children|
    ensures q in PreorderFrom(NodeAt(tree, p), i, p, depth) <==>
      && Exists(tree, q)
      && exists j: nat :: i <= j && Under(Child(p, j), q) && depth + 1 + Depth(Child(p, j), q) <= MAX_TREE_DEPTH
    decreases NodeAt(tree, p), |NodeAt(tree, p).children| - i
  {
    var t := NodeAt(tree, p);
    if i == |t.children| {
      forall j: nat | i <= j && Under(Child(p, j), q) ensures !Exists(tree, q) {
        if Exists(tree, q) { AncestorExists(tree, Child(p, j), q); }
      }
    } else {
      assert Exists(tree, Child(p, i)) && NodeAt(tree, Child(p, i)) == t.children[i];
      PreorderCovers(tree, Child(p, i), depth + 1, q);
      PreorderFromCovers(tree, i + 1, p, depth, q);
    }
  }

  ghost predicate NoRepeats<T(!new)>(xs: seq<T>) {
    forall i, j :: 0 <= i < j < |xs| ==> xs[i] != xs[j]
  }

  lemma JoinNoRepeats<T(!new)>(xs: seq<T>, ys: seq<T>)
    requires NoRepeats(xs) && NoRepeats(ys) && forall x :: x in xs ==> x !in ys
    ensures NoRepeats(xs + ys)
  {
    var zs := xs + ys;
    forall i, j | 0 <= i < j < |zs| ensures zs[i] != zs[j] {
      if i < |xs| <= j { assert zs[i] in xs && zs[j] in ys; }
    }
  }

  /** No node is visited twice. */
  lemma {:induction false} PreorderNoRepeats(tree: Tree, p: Path, depth: nat)
    requires Exists(tree, p) && depth <= MAX_TREE_DEPTH
    ensures NoRepeats(Preorder(NodeAt(tree, p), p, depth))
    decreases NodeAt(tree, p), |NodeAt(tree, p).children| + 1
  {
    if depth < MAX_TREE_DEPTH {
      PreorderFromNoRepeats(tree, 0, p, depth);
      PreorderFromCovers(tree, 0, p, depth, p);
      forall j: nat ensures !Under(Child(p, j), p) {
        if Under(Child(p, j), p) { UnderIsDeeper(Child(p, j), p); }
      }
      JoinNoRepeats([p], PreorderFrom(NodeAt(tree, p), 0, p, depth));
    }
  }

  lemma {:induction false} PreorderFromNoRepeats(tree: Tree, i: nat, p: Path, depth: nat)
    requires Exists(tree, p) && depth < MAX_TREE_DEPTH && i <= |NodeAt(tree, p).children|
    ensures NoRepeats(PreorderFrom(NodeAt(tree, p), i, p, depth))
    decreases NodeAt(tree, p), |NodeAt(tree, p).children| - i
  {
    var t := NodeAt(tree, p);
    if i < |t.children| {
      PreorderNoRepeats(tree, Child(p, i), depth + 1);
      PreorderFromNoRepeats(tree, i + 1, p, depth);
      var here, later := Preorder(t.children[i], Child(p, i), depth + 1), PreorderFrom(t, i + 1, p, depth);
      forall q | q in here ensures q !in later {
        PreorderCovers(tree, Child(p, i), depth + 1, q);
        PreorderFromCovers(tree, i + 1, p, depth, q);
        UnderChild(p, i, q);
        var k := UnderSplits(p, q);
      }
      JoinNoRepeats(here, later);
    }
  }

  lemma {:induction false} CutCountPositive(tree: Tree, base: Path, log: seq<Path>)
    ensures CutCount(tree, base, log) > 0 <==> exists p :: p in log && IsCut(tree, base, p)
  {
    if |log| > 0 {
      var last := |log| - 1;
      CutCountPositive(tree, base, log[..last]);
      assert log == log[..last] + [log[last]];
    }
  }

  lemma {:induction false} AncestorAtDepth(base: Path, q: Path, depth: nat) returns (p: Path)
    requires Under(base, q) && depth < Depth(base, q)
    ensures Under(base, p) && Depth(base, p) == depth
    ensures exists i: nat :: Under(Child(p, i), q)
  {
    if Depth(base, q) == depth + 1 {
      p := q.parent;
      assert Under(Child(p, q.index), q);
    } else {
      p := AncestorAtDepth(base, q.parent, depth);
      var i: nat :| Under(Child(p, i), q.parent);
      assert Under(Child(p, i), q);
    }
  }

  /** A walk reports truncation exactly when it left a node of the subtree out. */
  lemma TruncatedExactly(tree: Tree, base: Path, stats: WalkStats)
    requires Exists(tree, base)
    requires stats.skippedSubtrees == CutCount(tree, base, Preorder(NodeAt(tree, base), base, 0))
    ensures stats.Truncated() <==> !AllVisited(tree, base, Preorder(NodeAt(tree, base), base, 0))
  {
    var visited := Preorder(NodeAt(tree, base), base, 0);
    CutCountPositive(tree, base, visited);
    if p :| p in visited && IsCut(tree, base, p) {
      ChildIsUnder(base, p, 0);
      PreorderCovers(tree, base, 0, Child(p, 0));
      PreorderCovers(tree, base, 0, p);
      assert Exists(tree, Child(p, 0)) && Child(p, 0) !in visited;
    }
    if q :| Exists(tree, q) && Under(base, q) && q !in visited {
      PreorderCovers(tree, base, 0, q);
      var p := AncestorAtDepth(base, q, MAX_TREE_DEPTH);
      var i: nat :| Under(Child(p, i), q);
      AncestorExists(tree, Child(p, i), q);
      PreorderCovers(tree, base, 0, p);
      assert IsCut(tree, base, p);
    }
  }
}
