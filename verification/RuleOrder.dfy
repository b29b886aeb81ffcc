/** Evaluation is deterministic: what a rule reports depends on which edges there are,
    and not on the order a parallel scan happened to produce them in (rule_eval.rs). */
module RuleOrder {
  import opened Wrappers
  import opened Ir
  import opened Ordering
  import opened RuleModel
  import opened FanLimits
  import opened RuleEval

  // ── counts do not see order ─────────────────────────────────

  function CountIf<T>(p: T -> bool, xs: seq<T>): nat {
    if |xs| == 0 then 0 else CountIf(p, xs[..|xs| - 1]) + if p(xs[|xs| - 1]) then 1 else 0
  }

  function Skip<T>(xs: seq<T>, i: nat): seq<T>
    requires i < |xs|
  {
    xs[..i] + xs[i + 1..]
  }

  lemma SkipTakesOne<T>(xs: seq<T>, i: nat)
    requires i < |xs|
    ensures multiset(xs) == multiset(Skip(xs, i)) + multiset{xs[i]}
  {
    assert xs == xs[..i] + [xs[i]] + xs[i + 1..];
  }

  lemma {:induction false} CountOfRest<T>(p: T -> bool, xs: seq<T>, i: nat)
    requires i < |xs|
    ensures CountIf(p, xs) == CountIf(p, Skip(xs, i)) + if p(xs[i]) then 1 else 0
  {
    var n := |xs| - 1;
    if i == n {
      assert Skip(xs, i) == xs[..n];
    } else {
      CountOfRest(p, xs[..n], i);
      assert Skip(xs, i)[..n - 1] == Skip(xs[..n], i);
    }
  }

  lemma {:induction false} CountPermutes<T>(p: T -> bool, xs: seq<T>, ys: seq<T>)
    requires multiset(xs) == multiset(ys)
    ensures CountIf(p, xs) == CountIf(p, ys)
  {
    if |xs| == 0 {
      assert |multiset(ys)| == 0;
    } else {
      var n := |xs| - 1;
      assert xs == xs[..n] + [xs[n]];
      assert xs[n] in multiset(ys);
      var i :| 0 <= i < |ys| && ys[i] == xs[n];
      SkipTakesOne(ys, i);
      assert multiset(xs[..n]) == multiset(xs) - multiset{xs[n]};
      assert multiset(Skip(ys, i)) == multiset(ys) - multiset{ys[i]};
      CountPermutes(p, xs[..n], Skip(ys, i));
      CountOfRest(p, ys, i);
    }
  }

  lemma SameMembers<T>(xs: seq<T>, ys: seq<T>)
    requires multiset(xs) == multiset(ys)
    ensures forall x :: x in xs <==> x in ys
  {
    forall x ensures x in xs <==> x in ys { assert x in multiset(xs) <==> x in multiset(ys); }
  }

  /** Two sorted lists of the same rows, no two rows sharing a key, are the same list. */
  lemma {:induction false} SortedPermutation<T(!new)>(key: T -> SortKey, xs: seq<T>, ys: seq<T>)
    requires SortedBy(key, xs) && SortedBy(key, ys) && multiset(xs) == multiset(ys)
    requires forall x, y :: key(x) == key(y) ==> x == y
    ensures xs == ys
  {
    assert |multiset(xs)| == |xs| && |multiset(ys)| == |ys|;
    if |xs| > 0 {
      SameFirst(key, xs, ys);
      RestIsSorted(key, xs);
      RestIsSorted(key, ys);
      hide SortedBy;
      SortedPermutation(key, xs[1..], ys[1..]);
    }
  }

  lemma RestIsSorted<T(!new)>(key: T -> SortKey, xs: seq<T>)
    requires SortedBy(key, xs) && |xs| > 0
    ensures SortedBy(key, xs[1..]) && multiset(xs[1..]) == multiset(xs) - multiset{xs[0]} && xs == [xs[0]] + xs[1..]
  {
    assert xs == [xs[0]] + xs[1..];
  }

  lemma FirstIsLeast<T(!new)>(key: T -> SortKey, xs: seq<T>, x: T)
    requires SortedBy(key, xs) && x in xs
    ensures Le(key(xs[0]), key(x))
  {
    var i :| 0 <= i < |xs| && xs[i] == x;
    Reflexive(key(x));
  }

  lemma SameFirst<T(!new)>(key: T -> SortKey, xs: seq<T>, ys: seq<T>)
    requires SortedBy(key, xs) && SortedBy(key, ys) && multiset(xs) == multiset(ys) && |xs| > 0 && |ys| > 0
    requires forall x, y :: key(x) == key(y) ==> x == y
    ensures xs[0] == ys[0]
  {
    SameMembers(xs, ys);
    assert xs[0] in xs && ys[0] in ys;
    FirstIsLeast(key, ys, xs[0]);
    FirstIsLeast(key, xs, ys[0]);
    Total(key(xs[0]), key(ys[0]));
  }

  lemma ViolationKeyTells(a: Violation, b: Violation)
    requires ViolationKey(a) == ViolationKey(b)
    ensures a == b
  {
    var k, l := ViolationKey(a), ViolationKey(b);
    assert k[0] == l[0] && k[1] == l[1] && k[2] == l[2];
  }

  lemma RowsDiffer(a: Violation, b: Violation)
    requires a != b
    ensures ViolationKey(a) != ViolationKey(b)
  {
    if ViolationKey(a) == ViolationKey(b) { ViolationKeyTells(a, b); }
  }

  // ── rows and doubt ──────────────────────────────────────────

  function IsDoubtful(w: World, rule: RuleKind): Edge -> bool { e => Doubtful(w, rule, e) }

  function Yields(w: World, rule: RuleKind, v: Violation): Edge -> bool {
    (e: Edge) => Breach(w, rule, e) && v == Violation(e.file, e.line, e.from)
  }

  function PointsAt(id: SymbolId, gateSafe: bool): Edge -> bool {
    (e: Edge) => e.gateSafe == gateSafe && e.to == id && !IsExternalPackage(e.to)
  }

  lemma {:induction false} DoubtIsCount(w: World, rule: RuleKind, es: seq<Edge>)
    ensures DoubtCount(w, rule, es) == CountIf(IsDoubtful(w, rule), es)
  {
    if |es| > 0 { DoubtIsCount(w, rule, es[..|es| - 1]); }
  }

  lemma {:induction false} RowsAreCounted(w: World, rule: RuleKind, es: seq<Edge>, v: Violation)
    ensures multiset(Rows(w, rule, es))[v]
         == CountIf(Yields(w, rule, v), es)
  {
    if |es| > 0 {
      RowsAreCounted(w, rule, es[..|es| - 1], v);
      hide Breach;
    }
  }

  lemma DoubtPermutes(w: World, rule: RuleKind, es: seq<Edge>, fs: seq<Edge>)
    requires multiset(es) == multiset(fs)
    ensures Doubt(w, rule, es) == Doubt(w, rule, fs)
  {
    DoubtIsCount(w, rule, es);
    DoubtIsCount(w, rule, fs);
    CountPermutes(IsDoubtful(w, rule), es, fs);
    SameMembers(es, fs);
    hide Doubtful, DoubtCount;
    assert (set e | e in es && Doubtful(w, rule, e) :: e.file) == set e | e in fs && Doubtful(w, rule, e) :: e.file;
  }

  lemma RowsPermute(w: World, rule: RuleKind, es: seq<Edge>, fs: seq<Edge>)
    requires multiset(es) == multiset(fs)
    ensures SortBy(ViolationKey, Rows(w, rule, es)) == SortBy(ViolationKey, Rows(w, rule, fs))
  {
    hide Breach, Rows, SortBy;
    forall v ensures multiset(Rows(w, rule, es))[v] == multiset(Rows(w, rule, fs))[v] {
      RowsAreCounted(w, rule, es, v);
      RowsAreCounted(w, rule, fs, v);
      CountPermutes(Yields(w, rule, v), es, fs);
    }
    assert multiset(Rows(w, rule, es)) == multiset(Rows(w, rule, fs));
    Sorts(ViolationKey, Rows(w, rule, es));
    Sorts(ViolationKey, Rows(w, rule, fs));
    forall x, y | ViolationKey(x) == ViolationKey(y) ensures x == y { ViolationKeyTells(x, y); }
    SortedPermutation(ViolationKey, SortBy(ViolationKey, Rows(w, rule, es)), SortBy(ViolationKey, Rows(w, rule, fs)));
  }

  // ── symbol rules ────────────────────────────────────────────

  lemma UnmetPermutes(w: World, rule: RuleKind, added: Option<set<SymbolId>>, es: seq<Edge>, fs: seq<Edge>)
    requires IsSymbolRule(rule) && multiset(es) == multiset(fs)
    ensures UnmetIds(w, rule, added, es) == UnmetIds(w, rule, added, fs)
  {
    SameMembers(es, fs);
    hide Settles, Demanded;
    forall id ensures Unmet(w, rule, added, es, id) <==> Unmet(w, rule, added, fs, id) { }
  }

  lemma ReportsAreStrict(w: World, ids: set<SymbolId>, violations: seq<Violation>)
    requires WellKeyed(w) && Reports(w, ids, violations)
    ensures StrictlySortedBy(ViolationKey, violations)
  {
    var rows := set v | v in violations;
    assert forall v :: v in rows ==> v.symbol in ids;
    var named := set v | v in rows :: v.symbol;
    forall id | id in ids ensures id in named { assert RowOf(w, id) in violations && RowOf(w, id).symbol == id; }
    assert named == ids;
    RowsCover(rows, named);
    DistinctByCount(violations);
    forall i, j | 0 <= i < j < |violations| ensures Less(ViolationKey(violations[i]), ViolationKey(violations[j])) {
      RowsDiffer(violations[i], violations[j]);
    }
  }

  lemma {:induction false} RowsCover(rows: set<Violation>, named: set<SymbolId>)
    requires named == set v | v in rows :: v.symbol
    ensures |named| <= |rows|
    decreases rows
  {
    if rows == {} {
      assert named == {};
    } else {
      var v :| v in rows;
      var rest := set x | x in rows - {v} :: x.symbol;
      RowsCover(rows - {v}, rest);
      assert named == rest + {v.symbol};
    }
  }

  /** A list as long as its set of elements repeats none. */
  lemma {:induction false} DistinctByCount<T>(xs: seq<T>)
    requires |set x | x in xs| >= |xs|
    ensures forall i, j :: 0 <= i < j < |xs| ==> xs[i] != xs[j]
  {
    if |xs| > 0 {
      var n := |xs| - 1;
      var all, before := set x | x in xs, set x | x in xs[..n];
      assert xs == xs[..n] + [xs[n]];
      assert all == before + {xs[n]};
      ElementsAtMost(xs[..n]);
      DistinctByCount(xs[..n]);
      assert xs[n] !in before;
    }
  }

  lemma {:induction false} ElementsAtMost<T>(xs: seq<T>)
    ensures |set x | x in xs| <= |xs|
  {
    if |xs| > 0 {
      var n := |xs| - 1;
      ElementsAtMost(xs[..n]);
      assert xs == xs[..n] + [xs[n]];
      assert (set x | x in xs) == (set x | x in xs[..n]) + {xs[n]};
    }
  }

  lemma ReportsAreUnique(w: World, ids: set<SymbolId>, a: seq<Violation>, b: seq<Violation>)
    requires WellKeyed(w) && Reports(w, ids, a) && Reports(w, ids, b)
    ensures a == b
  {
    ReportsAreStrict(w, ids, a);
    ReportsAreStrict(w, ids, b);
    StrictOrderIsUnique(ViolationKey, a, b);
  }

  // ── fan limits ──────────────────────────────────────────────

  lemma {:induction false} FanInIsCount(es: seq<Edge>, id: SymbolId, gateSafe: bool)
    ensures FanIn(es, id, gateSafe) == CountIf(PointsAt(id, gateSafe), es)
  {
    if |es| > 0 { FanInIsCount(es[..|es| - 1], id, gateSafe); }
  }

  lemma FanPermutes(rule: RuleKind, es: seq<Edge>, fs: seq<Edge>, id: SymbolId)
    requires IsFanRule(rule) && multiset(es) == multiset(fs)
    ensures Strong(rule, es, id) == Strong(rule, fs, id) && Possible(rule, es, id) == Possible(rule, fs, id)
  {
    hide IsExternalPackage;
    if rule.MaxFanIn? {
      forall g ensures FanIn(es, id, g) == FanIn(fs, id, g) {
        FanInIsCount(es, id, g);
        FanInIsCount(fs, id, g);
        CountPermutes(PointsAt(id, g), es, fs);
      }
    } else {
      SameMembers(es, fs);
      forall g ensures FanOut(es, id, g) == FanOut(fs, id, g) { }
    }
  }

  lemma {:induction false} SumPermutes(rule: RuleKind, es: seq<Edge>, fs: seq<Edge>, ids: seq<SymbolId>)
    requires IsFanRule(rule) && multiset(es) == multiset(fs)
    ensures SumOf(rule, es, ids) == SumOf(rule, fs, ids)
  {
    hide Possible, Strong;
    if |ids| > 0 {
      SumPermutes(rule, es, fs, ids[..|ids| - 1]);
      FanPermutes(rule, es, fs, ids[|ids| - 1]);
    }
  }

  lemma FanReportIsUnique(
    w: World, rule: RuleKind, es: seq<Edge>, fs: seq<Edge>, a: seq<Violation>, b: seq<Violation>, u: Uncertainty, v: Uncertainty)
    requires IsFanRule(rule) && multiset(es) == multiset(fs)
    requires FanReported(w, rule, es, a, u) && FanReported(w, rule, fs, b, v)
    ensures a == b && u == v
  {
    forall id { FanPermutes(rule, es, fs, id); }
    hide Strong, Possible;
    StrictOrderIsUnique(ViolationKey, a, b);
    var ids :| AreOpen(rule, es, ids) && u == Uncertainty(SumOf(rule, es, ids), FilesOf(w, ids));
    var jds :| AreOpen(rule, fs, jds) && v == Uncertainty(SumOf(rule, fs, jds), FilesOf(w, jds));
    StrictOrderIsUnique(TextKey, ids, jds);
    SumPermutes(rule, es, fs, ids);
  }

  // ── every rule ──────────────────────────────────────────────

  lemma CycleReportIsUnique(w: World, rule: RuleKind, es: seq<Edge>, fs: seq<Edge>, a: seq<Violation>, b: seq<Violation>)
    requires rule.NoCycles? && multiset(es) == multiset(fs)
    requires exists walks :: CyclesReported(DependsOn(w, rule.scope, rule.level, es), a, walks)
    requires exists walks :: CyclesReported(DependsOn(w, rule.scope, rule.level, fs), b, walks)
    ensures a == b
  {
    SameMembers(es, fs);
    hide Pairs, NodeOf, NamesCycle, IsWalkFrom;
    assert DependsOn(w, rule.scope, rule.level, es) == DependsOn(w, rule.scope, rule.level, fs);
    StrictOrderIsUnique(ViolationKey, a, b);
  }

  /** The same edges in any order: the same violations, in the same order, and the
      same doubt. */
  lemma EvaluationIgnoresOrder(
    w: World, rule: RuleKind, added: Option<set<SymbolId>>, es: seq<Edge>, fs: seq<Edge>,
    a: seq<Violation>, b: seq<Violation>, u: Uncertainty, v: Uncertainty)
    requires WellKeyed(w) && multiset(es) == multiset(fs)
    requires Collected(w, rule, added, es, a, u) && Collected(w, rule, added, fs, b, v)
    ensures a == b && u == v
  {
    hide Rows, Doubt, SortBy, Reports, FanReported, CyclesReported, UnmetIds, HasCycle;
    DoubtPermutes(w, rule, es, fs);
    if IsEdgeRule(rule) {
      RowsPermute(w, rule, es, fs);
    } else if IsFanRule(rule) {
      FanReportIsUnique(w, rule, es, fs, a, b, u, v);
    } else if IsSymbolRule(rule) {
      var asked := if rule.RequiresTest? then added else None;
      UnmetPermutes(w, rule, asked, es, fs);
      if Reports(w, UnmetIds(w, rule, asked, es), a) && Reports(w, UnmetIds(w, rule, asked, es), b) {
        ReportsAreUnique(w, UnmetIds(w, rule, asked, es), a, b);
      }
    } else {
      CycleReportIsUnique(w, rule, es, fs, a, b);
    }
  }
}
