/** When the walk printed for a cycle ends with a dependency (rule_eval.rs,
    `cycle_path`): in every component of two, and in no larger size for certain. */
module CycleClosing {
  import opened Ordering
  import opened Reachability
  import opened Cycles

  ghost predicate NoSelfPairs(r: Relation<string>) { forall p :: p in r ==> p.0 != p.1 }

  ghost predicate IsLeast(members: set<string>, start: string) {
    start in members && forall t :: t in members ==> TextLe(start, t)
  }

  /** What the report prints for a component: the walk from its least member. */
  ghost predicate IsPrinted(r: Relation<string>, members: set<string>, start: string, walk: seq<string>) {
    IsComponent(r, members) && NoSelfPairs(r) && IsLeast(members, start) && IsCycleWalk(r, members, start, walk)
  }

  ghost predicate Closes(r: Relation<string>, walk: seq<string>) {
    |walk| >= 2 && (walk[|walk| - 2], walk[|walk| - 1]) in r
  }

  /** Whatever the relation, a component of this size is printed as a real cycle. */
  ghost predicate SizeAlwaysCloses(n: nat) {
    forall r, members, start, walk :: |members| == n && IsPrinted(r, members, start, walk) ==> Closes(r, walk)
  }

  // ── two members ─────────────────────────────────────────────

  lemma PairCloses(r: Relation<string>, members: set<string>, start: string, walk: seq<string>)
    requires |members| == 2 && IsPrinted(r, members, start, walk)
    ensures Closes(r, walk)
  {
    var rest := members - {start};
    assert |rest| == 1;
    var other :| other in rest;
    assert rest - {other} == {} by { assert |rest - {other}| == 0; }
    assert members == {start, other};
    hide IsComponent, IsCycleWalk, IsLeast;
    TwoMemberWalkCloses(r, start, other, walk);
  }

  // ── a chain of any length ───────────────────────────────────

  /** The names `a`, `aa`, `aaa` and so on. */
  function Name(k: nat): (s: string)
    ensures |s| == k + 1
  {
    if k == 0 then "a" else "a" + Name(k - 1)
  }

  function Names(n: nat): (xs: seq<string>)
    ensures |xs| == n && forall k :: 0 <= k < n ==> xs[k] == Name(k)
  {
    if n == 0 then [] else Names(n - 1) + [Name(n - 1)]
  }

  function Members(n: nat): set<string> { set x | x in Names(n) }

  /** Neighbours depend on each other, and on nothing else. */
  function Chain(n: nat): Relation<string> {
    set i, j | 0 <= i < n && 0 <= j < n && (j == i + 1 || i == j + 1) :: (Name(i), Name(j))
  }

  lemma ChainHop(n: nat, i: nat, j: nat)
    requires i < n && j < n && (j == i + 1 || i == j + 1)
    ensures (Name(i), Name(j)) in Chain(n)
  {
  }

  lemma NamesDiffer(i: nat, j: nat)
    ensures Name(i) == Name(j) <==> i == j
  {
    assert |Name(i)| == i + 1 && |Name(j)| == j + 1;
  }

  lemma ChainTells(n: nat, i: nat, j: nat)
    ensures (Name(i), Name(j)) in Chain(n) <==> i < n && j < n && (j == i + 1 || i == j + 1)
  {
    if (Name(i), Name(j)) in Chain(n) {
      var k, l :| 0 <= k < n && 0 <= l < n && (l == k + 1 || k == l + 1) && (Name(k), Name(l)) == (Name(i), Name(j));
      NamesDiffer(i, k);
      NamesDiffer(j, l);
    }
  }

  lemma NameIn(n: nat, k: nat)
    ensures Name(k) in Names(n) <==> k < n
  {
    if k < n { assert Names(n)[k] in Names(n); }
    if Name(k) in Names(n) {
      var j :| 0 <= j < n && Names(n)[j] == Name(k);
      NamesDiffer(j, k);
    }
  }

  lemma NumberOf(n: nat, x: string) returns (k: nat)
    requires x in Members(n)
    ensures k < n && x == Name(k)
  {
    k :| k < n && Names(n)[k] == x;
  }

  lemma MembersNumber(n: nat)
    ensures |Members(n)| == n
  {
    forall i, j | 0 <= i < j < n ensures Names(n)[i] != Names(n)[j] { NamesDiffer(i, j); }
    DistinctCounts(Names(n));
  }

  lemma FirstIsLeast(n: nat)
    requires n >= 1
    ensures IsLeast(Members(n), Name(0))
  {
    NameIn(n, 0);
    forall t | t in Members(n) ensures TextLe(Name(0), t) {
      var k := NumberOf(n, t);
      assert t[0] == 'a' && CharsLe("a", t);
    }
  }

  lemma {:induction false} ReachesAlong(n: nat, k: nat)
    requires k < n
    ensures Mutual(Chain(n), Name(0), Name(k))
  {
    hide Chain, Name;
    if k == 0 {
      ReachesSelf(Chain(n), Name(0));
    } else {
      ReachesAlong(n, k - 1);
      ChainHop(n, k - 1, k);
      ChainHop(n, k, k - 1);
      Extend(Chain(n), Name(0), Name(k - 1), Name(k));
      Step(Chain(n), Name(k), Name(k - 1));
      ReachesThrough(Chain(n), Name(k), Name(k - 1), Name(0));
    }
  }

  lemma ChainIsComponent(n: nat)
    ensures IsComponent(Chain(n), Members(n))
  {
    var r, members := Chain(n), Members(n);
    forall a, b | a in members && b in members ensures Mutual(r, a, b) {
      var i := NumberOf(n, a);
      var j := NumberOf(n, b);
      ReachesAlong(n, i);
      ReachesAlong(n, j);
      ReachesThrough(r, a, Name(0), b);
      ReachesThrough(r, b, Name(0), a);
    }
    ChainStays(n);
    forall a, b | a in members && Mutual(r, a, b) ensures b in members { ClosedHolds(r, members, a, b); }
  }

  lemma ChainStays(n: nat)
    ensures Closed(Chain(n), Members(n)) && NoSelfPairs(Chain(n))
  {
    forall p | p in Chain(n) ensures p.1 in Members(n) && p.0 != p.1 {
      var i, j :| 0 <= i < n && 0 <= j < n && (j == i + 1 || i == j + 1) && p == (Name(i), Name(j));
      NameIn(n, j);
      NamesDiffer(i, j);
    }
  }

  /** From the end of the first `k` names only the next is open. */
  lemma OpenAfter(n: nat, k: nat)
    requires 1 <= k <= n
    ensures Onward(Chain(n), Members(n), Names(k)) == if k < n then {Name(k)} else {}
  {
    hide Chain, Name;
    var open := Onward(Chain(n), Members(n), Names(k));
    if k < n {
      ChainHop(n, k - 1, k);
      NameIn(n, k);
      NameIn(k, k);
      assert (Name(k - 1), Name(k)) in Chain(n);
    }
    forall x | x in open ensures k < n && x == Name(k) {
      var j := NumberOf(n, x);
      ChainTells(n, k - 1, j);
      NameIn(k, j);
    }
  }

  lemma {:induction false} ChainPath(n: nat, k: nat)
    requires 1 <= k <= n
    ensures IsPath(Chain(n), Members(n), Name(0), Names(k))
  {
    hide Chain, Name;
    if k == 1 {
      NameIn(n, 0);
    } else {
      ChainPath(n, k - 1);
      OpenAfter(n, k - 1);
      assert Names(k)[..k - 1] == Names(k - 1);
      Reflexive(TextKey(Name(k - 1)));
    }
  }

  /** A chain's walk runs to its far end, from which nothing leads back to the start. */
  lemma ChainWalk(n: nat)
    requires n >= 3
    ensures IsPrinted(Chain(n), Members(n), Name(0), Names(n) + [Name(0)])
    ensures |Members(n)| == n && !Closes(Chain(n), Names(n) + [Name(0)])
  {
    hide Chain, Name, IsPath, IsComponent, Closed, TextLe;
    var walk := Names(n) + [Name(0)];
    assert walk[..|walk| - 1] == Names(n);
    MembersNumber(n);
    FirstIsLeast(n);
    ChainIsComponent(n);
    ChainStays(n);
    ChainPath(n, n);
    OpenAfter(n, n);
    ChainTells(n, n - 1, 0);
    assert walk[n - 1] == Name(n - 1);
  }

  /** A printed component has two members or more. Whether its closing hop is sure to
      be a dependency is told by their number: it is for two, and for no other. */
  lemma ClosingHopIsSureExactly(n: nat)
    requires n >= 2
    ensures SizeAlwaysCloses(n) <==> n == 2
  {
    hide IsPrinted, Closes;
    if n == 2 {
      forall r, members, start, walk | |members| == n && IsPrinted(r, members, start, walk) ensures Closes(r, walk) {
        PairCloses(r, members, start, walk);
      }
    } else {
      ChainWalk(n);
    }
  }

  /** A larger component still prints a real cycle when each of its members depends
      on the least one. */
  lemma ClosesWhenAllLeadBack(r: Relation<string>, members: set<string>, start: string, walk: seq<string>)
    requires |members| >= 2 && IsPrinted(r, members, start, walk)
    requires forall t :: t in members && t != start ==> (t, start) in r
    ensures Closes(r, walk)
  {
    WalkHops(r, members, start, walk);
    var path := walk[..|walk| - 1];
    if |path| == 1 {
      OneElement(path);
      LeadsOn(r, members, start);
      assert false;
    }
    assert walk[|walk| - 2] in members && walk[|walk| - 2] != walk[0];
  }

  /** In a component of two or more the start has somewhere to go. */
  lemma LeadsOn(r: Relation<string>, members: set<string>, start: string)
    requires |members| >= 2 && start in members && IsComponent(r, members) && NoSelfPairs(r)
    ensures Onward(r, members, [start]) != {}
  {
    assert |members - {start}| >= 1;
    var other :| other in members - {start};
    var next := FirstStep(r, start, other);
    MutualExtends(r, start, other, next);
    assert (start, next) in r && next in members && next !in [start];
    assert next in Onward(r, members, [start]);
  }
}
