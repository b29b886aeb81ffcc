/** `max-fan-in` and `max-fan-out` (rule_eval.rs): counting per symbol, and telling
    what is over the limit from what could be. */
module FanLimits {
  import opened Wrappers
  import opened Ir
  import opened Ordering
  import opened RuleModel

  /** What is known to point at, or be reached by, a symbol. */
  function Strong(rule: RuleKind, es: seq<Edge>, id: SymbolId): nat
    requires IsFanRule(rule)
  {
    if rule.MaxFanIn? then FanIn(es, id, true) else |FanOut(es, id, true)|
  }

  /** What weak evidence could add. */
  function Possible(rule: RuleKind, es: seq<Edge>, id: SymbolId): nat
    requires IsFanRule(rule)
  {
    if rule.MaxFanIn? then FanIn(es, id, false) else |FanOut(es, id, false) - FanOut(es, id, true)|
  }

  predicate Open(rule: RuleKind, es: seq<Edge>, id: SymbolId)
    requires IsFanRule(rule)
  {
    Strong(rule, es, id) <= rule.threshold < Strong(rule, es, id) + Possible(rule, es, id)
  }

  function FanRow(w: World, id: SymbolId): Violation {
    if id in w.symbols then Violation(w.symbols[id].file, w.symbols[id].lineStart, id) else Violation(id, 0, id)
  }

  function SumOf(rule: RuleKind, es: seq<Edge>, ids: seq<SymbolId>): nat
    requires IsFanRule(rule)
  {
    if |ids| == 0 then 0 else SumOf(rule, es, ids[..|ids| - 1]) + Possible(rule, es, ids[|ids| - 1])
  }

  function FilesOf(w: World, ids: seq<SymbolId>): set<string> {
    set id | id in ids && id in w.symbols :: w.symbols[id].file
  }

  /** One row for each symbol over the limit; the doubt is what the symbols that
      may be over it turn on. */
  ghost predicate FanReported(w: World, rule: RuleKind, es: seq<Edge>, violations: seq<Violation>, u: Uncertainty)
    requires IsFanRule(rule)
  {
    && StrictlySortedBy(ViolationKey, violations)
    && (forall v :: v in violations <==> v == FanRow(w, v.symbol) && Strong(rule, es, v.symbol) > rule.threshold)
    && exists ids :: AreOpen(rule, es, ids) && u == Uncertainty(SumOf(rule, es, ids), FilesOf(w, ids))
  }

  ghost predicate AreOpen(rule: RuleKind, es: seq<Edge>, ids: seq<SymbolId>)
    requires IsFanRule(rule)
  {
    StrictlySortedBy(TextKey, ids) && forall id :: id in ids <==> Open(rule, es, id)
  }

  // ── counting ────────────────────────────────────────────────

  method CountIn(es: seq<Edge>) returns (strong: map<SymbolId, nat>, weak: map<SymbolId, nat>)
    ensures forall id :: FanIn(es, id, true) == if id in strong then strong[id] else 0
    ensures forall id :: FanIn(es, id, false) == if id in weak then weak[id] else 0
  {
    strong, weak := map[], map[];
    for i := 0 to |es|
      invariant forall id :: FanIn(es[..i], id, true) == if id in strong then strong[id] else 0
      invariant forall id :: FanIn(es[..i], id, false) == if id in weak then weak[id] else 0
    {
      var edge := es[i];
      assert es[..i + 1][..i] == es[..i];
      if IsExternalPackage(edge.to) { continue; }
      if edge.gateSafe {
        strong := strong[edge.to := (if edge.to in strong then strong[edge.to] else 0) + 1];
      } else {
        weak := weak[edge.to := (if edge.to in weak then weak[edge.to] else 0) + 1];
      }
    }
    assert es[..|es|] == es;
  }

  function TargetsOf(m: map<SymbolId, set<SymbolId>>, id: SymbolId): set<SymbolId> {
    if id in m then m[id] else {}
  }

  function AddTarget(m: map<SymbolId, set<SymbolId>>, from: SymbolId, to: SymbolId): (n: map<SymbolId, set<SymbolId>>)
    ensures forall id :: TargetsOf(n, id) == if id == from then TargetsOf(m, id) + {to} else TargetsOf(m, id)
  {
    m[from := TargetsOf(m, from) + {to}]
  }

  lemma OneMoreOut(es: seq<Edge>, i: nat, id: SymbolId, gateSafe: bool)
    requires i < |es|
    ensures FanOut(es[..i + 1], id, gateSafe) ==
      if es[i].gateSafe == gateSafe && es[i].from == id && !IsExternalPackage(es[i].to)
      then FanOut(es[..i], id, gateSafe) + {es[i].to} else FanOut(es[..i], id, gateSafe)
  {
    assert es[..i + 1] == es[..i] + [es[i]];
  }

  method CountOut(es: seq<Edge>) returns (strong: map<SymbolId, set<SymbolId>>, weak: map<SymbolId, set<SymbolId>>)
    ensures forall id :: FanOut(es, id, true) == TargetsOf(strong, id)
    ensures forall id :: FanOut(es, id, false) == TargetsOf(weak, id)
  {
    strong, weak := map[], map[];
    for i := 0 to |es|
      invariant forall id :: FanOut(es[..i], id, true) == TargetsOf(strong, id)
      invariant forall id :: FanOut(es[..i], id, false) == TargetsOf(weak, id)
    {
      var edge := es[i];
      forall id ensures FanOut(es[..i + 1], id, true) ==
        if edge.gateSafe && edge.from == id && !IsExternalPackage(edge.to)
        then FanOut(es[..i], id, true) + {edge.to} else FanOut(es[..i], id, true)
      {
        OneMoreOut(es, i, id, true);
      }
      forall id ensures FanOut(es[..i + 1], id, false) ==
        if !edge.gateSafe && edge.from == id && !IsExternalPackage(edge.to)
        then FanOut(es[..i], id, false) + {edge.to} else FanOut(es[..i], id, false)
      {
        OneMoreOut(es, i, id, false);
      }
      if IsExternalPackage(edge.to) { continue; }
      if edge.gateSafe {
        strong := AddTarget(strong, edge.from, edge.to);
      } else {
        weak := AddTarget(weak, edge.from, edge.to);
      }
    }
    assert es[..|es|] == es;
  }

  // ── judging ─────────────────────────────────────────────────

  ghost predicate RowsOver(w: World, rule: RuleKind, es: seq<Edge>, done: seq<SymbolId>, violations: seq<Violation>)
    requires IsFanRule(rule)
  {
    && (forall v :: v in violations <==>
        v.symbol in done && v == FanRow(w, v.symbol) && Strong(rule, es, v.symbol) > rule.threshold)
    && forall i, j :: 0 <= i < j < |violations| ==> violations[i] != violations[j]
  }

  ghost predicate OpenAmong(rule: RuleKind, es: seq<Edge>, done: seq<SymbolId>, open: seq<SymbolId>)
    requires IsFanRule(rule)
  {
    StrictlySortedBy(TextKey, open) && forall id :: id in open <==> id in done && Open(rule, es, id)
  }

  lemma RowsNext(
    w: World, rule: RuleKind, es: seq<Edge>, done: seq<SymbolId>, violations: seq<Violation>, id: SymbolId)
    requires IsFanRule(rule) && RowsOver(w, rule, es, done, violations) && id !in done
    ensures RowsOver(w, rule, es, done + [id],
      if Strong(rule, es, id) > rule.threshold then violations + [FanRow(w, id)] else violations)
  {
  }

  lemma OpenNext(rule: RuleKind, es: seq<Edge>, done: seq<SymbolId>, open: seq<SymbolId>, id: SymbolId)
    requires IsFanRule(rule) && OpenAmong(rule, es, done, open)
    requires forall x :: x in done ==> Less(TextKey(x), TextKey(id))
    ensures OpenAmong(rule, es, done + [id], if Open(rule, es, id) then open + [id] else open)
  {
    if Open(rule, es, id) {
      assert forall x :: x in open ==> Less(TextKey(x), TextKey(id));
    }
  }

  lemma SumNext(w: World, rule: RuleKind, es: seq<Edge>, ids: seq<SymbolId>, id: SymbolId)
    requires IsFanRule(rule)
    ensures SumOf(rule, es, ids + [id]) == SumOf(rule, es, ids) + Possible(rule, es, id)
    ensures FilesOf(w, ids + [id]) == FilesOf(w, ids) + if id in w.symbols then {w.symbols[id].file} else {}
  {
    assert (ids + [id])[..|ids|] == ids;
  }

  lemma Earlier(order: seq<SymbolId>, i: nat)
    requires i < |order| && StrictlySortedBy(TextKey, order)
    ensures forall x :: x in order[..i] ==> Less(TextKey(x), TextKey(order[i]))
    ensures order[i] !in order[..i] && order[..i + 1] == order[..i] + [order[i]]
  {
    forall x | x in order[..i] ensures Less(TextKey(x), TextKey(order[i])) {
      var k :| 0 <= k < i && order[k] == x;
    }
  }

  /** The candidates in order, each over the limit, open, or neither. */
  method Judge(w: World, ghost rule: RuleKind, ghost es: seq<Edge>, threshold: nat,
               candidates: set<SymbolId>, strong: map<SymbolId, nat>, possible: map<SymbolId, nat>)
    returns (violations: seq<Violation>, u: Uncertainty)
    requires IsFanRule(rule) && rule.threshold == threshold
    requires candidates <= strong.Keys && candidates <= possible.Keys
    requires forall id :: id in candidates ==> strong[id] == Strong(rule, es, id) && possible[id] == Possible(rule, es, id)
    requires forall id :: id !in candidates ==> Strong(rule, es, id) == 0 && Possible(rule, es, id) == 0
    ensures FanReported(w, rule, es, violations, u)
  {
    hide SumOf, FilesOf, StrictlySortedBy, RowsOver, OpenAmong, FanRow;
    var order := InOrder(TextKey, candidates);
    NothingJudged(w, rule, es);
    violations := [];
    var unresolved, files := 0, {};
    ghost var open: seq<SymbolId> := [];
    assert order[..0] == [];
    for i := 0 to |order|
      invariant RowsOver(w, rule, es, order[..i], violations) && OpenAmong(rule, es, order[..i], open)
      invariant unresolved == SumOf(rule, es, open) && files == FilesOf(w, open)
    {
      var id := order[i];
      assert id in candidates;
      Earlier(order, i);
      RowsNext(w, rule, es, order[..i], violations, id);
      OpenNext(rule, es, order[..i], open, id);
      SumNext(w, rule, es, open, id);
      if strong[id] > threshold {
        violations := violations + [FanRow(w, id)];
      } else if strong[id] + possible[id] > threshold {
        unresolved := unresolved + possible[id];
        if id in w.symbols { files := files + {w.symbols[id].file}; }
        open := open + [id];
      }
    }
    assert order[..|order|] == order;
    JudgedAll(w, rule, es, order, violations, open);
    violations := SortBy(ViolationKey, violations);
    u := Uncertainty(unresolved, files);
  }

  lemma NothingJudged(w: World, rule: RuleKind, es: seq<Edge>)
    requires IsFanRule(rule)
    ensures RowsOver(w, rule, es, [], []) && OpenAmong(rule, es, [], [])
    ensures SumOf(rule, es, []) == 0 && FilesOf(w, []) == {}
  {
  }

  lemma JudgedAll(
    w: World, rule: RuleKind, es: seq<Edge>, order: seq<SymbolId>, violations: seq<Violation>, open: seq<SymbolId>)
    requires IsFanRule(rule) && RowsOver(w, rule, es, order, violations) && OpenAmong(rule, es, order, open)
    requires forall id :: id !in order ==> Strong(rule, es, id) == 0 && Possible(rule, es, id) == 0
    ensures FanReported(w, rule, es, SortBy(ViolationKey, violations), Uncertainty(SumOf(rule, es, open), FilesOf(w, open)))
  {
    SortKeeps(ViolationKey, violations);
    DistinctSortsStrictly(ViolationKey, violations);
    assert AreOpen(rule, es, open);
  }

  method MaxFanInOf(w: World, es: seq<Edge>, threshold: nat) returns (violations: seq<Violation>, u: Uncertainty)
    ensures FanReported(w, MaxFanIn(threshold), es, violations, u)
  {
    var strong, weak := CountIn(es);
    var candidates := strong.Keys + weak.Keys;
    var s := map id | id in candidates :: if id in strong then strong[id] else 0;
    var p := map id | id in candidates :: if id in weak then weak[id] else 0;
    violations, u := Judge(w, MaxFanIn(threshold), es, threshold, candidates, s, p);
  }

  method MaxFanOutOf(w: World, es: seq<Edge>, threshold: nat) returns (violations: seq<Violation>, u: Uncertainty)
    ensures FanReported(w, MaxFanOut(threshold), es, violations, u)
  {
    var strong, weak := CountOut(es);
    var candidates := strong.Keys + weak.Keys;
    var s := map id | id in candidates :: |TargetsOf(strong, id)|;
    var p := map id | id in candidates :: |TargetsOf(weak, id) - TargetsOf(strong, id)|;
    forall id | id !in candidates
      ensures Strong(MaxFanOut(threshold), es, id) == 0 && Possible(MaxFanOut(threshold), es, id) == 0
    {
      assert FanOut(es, id, true) == {} && FanOut(es, id, false) == {};
    }
    violations, u := Judge(w, MaxFanOut(threshold), es, threshold, candidates, s, p);
  }

  lemma SumIsPositive(rule: RuleKind, es: seq<Edge>, ids: seq<SymbolId>)
    requires IsFanRule(rule) && AreOpen(rule, es, ids)
    ensures SumOf(rule, es, ids) > 0 <==> exists id :: Open(rule, es, id)
  {
    if |ids| > 0 {
      assert ids[|ids| - 1] in ids;
    } else {
      forall id ensures !Open(rule, es, id) { assert id !in ids; }
    }
  }

  lemma FanMeans(w: World, rule: RuleKind, added: Option<set<SymbolId>>, es: seq<Edge>)
    requires IsFanRule(rule)
    ensures Breached(w, rule, added, es) <==> exists id :: Strong(rule, es, id) > rule.threshold
    ensures Doubted(w, rule, added, es) <==> exists id :: Strong(rule, es, id) + Possible(rule, es, id) > rule.threshold
  {
    if rule.MaxFanIn? {
      forall id ensures Strong(rule, es, id) == FanIn(es, id, true) && Possible(rule, es, id) == FanIn(es, id, false) { }
    } else {
      forall id ensures Strong(rule, es, id) == |FanOut(es, id, true)|
        && Possible(rule, es, id) == |FanOut(es, id, false) - FanOut(es, id, true)| { }
    }
  }

  /** The verdict drawn from the report is the one the counts call for. */
  lemma FanVerdict(
    w: World, rule: RuleKind, added: Option<set<SymbolId>>, es: seq<Edge>, violations: seq<Violation>, u: Uncertainty)
    requires IsFanRule(rule) && FanReported(w, rule, es, violations, u)
    ensures violations != [] <==> Breached(w, rule, added, es)
    ensures violations == [] ==> (u.unresolvedEdges > 0 <==> Doubted(w, rule, added, es))
  {
    FanMeans(w, rule, added, es);
    var ids :| AreOpen(rule, es, ids) && u == Uncertainty(SumOf(rule, es, ids), FilesOf(w, ids));
    SumIsPositive(rule, es, ids);
    if violations != [] {
      assert violations[0] in violations;
      assert Strong(rule, es, violations[0].symbol) > rule.threshold;
    }
    forall id | Strong(rule, es, id) > rule.threshold ensures violations != [] {
      assert FanRow(w, id).symbol == id;
      assert FanRow(w, id) in violations;
    }
    if violations == [] {
      forall id ensures Open(rule, es, id) <==> Strong(rule, es, id) + Possible(rule, es, id) > rule.threshold { }
    }
  }
}
