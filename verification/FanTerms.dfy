/** What the fan limits report, told by edges and their ends (rule_eval.rs, `max_fan_in`
    and `max_fan_out`). */
module FanTerms {
  import opened Wrappers
  import opened Ir
  import opened Ordering
  import opened RuleModel
  import opened FanLimits
  import opened RuleEval
  import opened RuleTerms

  /** An id that begins and ends as a package's does. */
  ghost predicate NamesPackage(id: SymbolId) {
    (exists rest: string :: id == "ext::" + rest) && exists stem: string :: id == stem + "::package"
  }

  lemma NamesPackageTells(id: SymbolId)
    ensures IsExternalPackage(id) <==> NamesPackage(id)
  {
    if "ext::" <= id { assert id == "ext::" + id[5..]; }
    if EndsWith(id, "::package") { assert id == id[..|id| - 9] + "::package"; }
    if stem: string :| id == stem + "::package" { assert id[|id| - 9..] == "::package"; }
  }

  // ── edges in ────────────────────────────────────────────────

  /** The edges that count as ending at a symbol. */
  ghost function Into(es: seq<Edge>, id: SymbolId, gateSafe: bool): set<nat> {
    set i: nat | i < |es| && CountsInto(es[i], id, gateSafe)
  }

  ghost predicate CountsInto(e: Edge, id: SymbolId, gateSafe: bool) {
    e.gateSafe == gateSafe && e.to == id && !NamesPackage(id)
  }

  lemma {:induction false} FanInCounts(es: seq<Edge>, id: SymbolId, gateSafe: bool)
    ensures FanIn(es, id, gateSafe) == |Into(es, id, gateSafe)|
  {
    if |es| > 0 {
      var n := |es| - 1;
      FanInCounts(es[..n], id, gateSafe);
      MoreInto(es, id, gateSafe);
      NamesPackageTells(id);
      hide Into, NamesPackage, IsExternalPackage;
    }
  }

  lemma MoreInto(es: seq<Edge>, id: SymbolId, gateSafe: bool)
    requires |es| > 0
    ensures var n := |es| - 1;
      |Into(es, id, gateSafe)| == |Into(es[..n], id, gateSafe)| + if CountsInto(es[n], id, gateSafe) then 1 else 0
  {
    hide CountsInto;
    var n := |es| - 1;
    var rest := Into(es[..n], id, gateSafe);
    assert n !in rest;
    assert Into(es, id, gateSafe) == rest + if CountsInto(es[n], id, gateSafe) then {n} else {};
  }

  /** The row of a symbol over the limit; one that is not stored stands for its own
      file. */
  predicate IsFanRow(w: World, id: SymbolId, v: Violation) {
    && v.symbol == id
    && v.file == (if id in w.symbols then w.symbols[id].file else id)
    && v.line == (if id in w.symbols then w.symbols[id].lineStart else 0)
  }

  lemma FanRowTells(w: World, id: SymbolId, v: Violation)
    ensures v == FanRow(w, id) <==> IsFanRow(w, id, v)
  {
  }

  /** A symbol within the limit that its weak edges could take over it. */
  ghost predicate MayExceedIn(es: seq<Edge>, threshold: nat, id: SymbolId) {
    |Into(es, id, true)| <= threshold < |Into(es, id, true)| + |Into(es, id, false)|
  }

  /** The weak edges into such symbols. */
  ghost function OpenInto(es: seq<Edge>, threshold: nat): set<nat> {
    set i: nat | i < |es| && !es[i].gateSafe && !NamesPackage(es[i].to) && MayExceedIn(es, threshold, es[i].to)
  }

  /** The weak edges that end at one of these. */
  ghost function IntoAny(es: seq<Edge>, ids: seq<SymbolId>): set<nat> {
    set i: nat | i < |es| && !es[i].gateSafe && !NamesPackage(es[i].to) && es[i].to in ids
  }

  lemma {:induction false} SumIsIntoAny(es: seq<Edge>, threshold: nat, ids: seq<SymbolId>)
    requires StrictlySortedBy(TextKey, ids)
    ensures SumOf(MaxFanIn(threshold), es, ids) == |IntoAny(es, ids)|
  {
    if |ids| > 0 {
      var n := |ids| - 1;
      SumIsIntoAny(es, threshold, ids[..n]);
      FanInCounts(es, ids[n], false);
      Earlier(ids, n);
      IntoOneMore(es, ids[..n], ids[n]);
      assert ids == ids[..n] + [ids[n]];
      hide StrictlySortedBy, IntoAny, Into, FanIn;
    } else {
      assert IntoAny(es, ids) == {};
    }
  }

  lemma IntoOneMore(es: seq<Edge>, ids: seq<SymbolId>, id: SymbolId)
    requires id !in ids
    ensures |IntoAny(es, ids + [id])| == |IntoAny(es, ids)| + |Into(es, id, false)|
  {
    hide NamesPackage;
    assert IntoAny(es, ids + [id]) == IntoAny(es, ids) + Into(es, id, false);
    assert IntoAny(es, ids) !! Into(es, id, false);
  }

  ghost predicate IsFileOf(w: World, ids: seq<SymbolId>, file: string) {
    exists id :: id in ids && id in w.symbols && w.symbols[id].file == file
  }

  lemma OpenInTells(es: seq<Edge>, threshold: nat, id: SymbolId)
    ensures Open(MaxFanIn(threshold), es, id) <==> MayExceedIn(es, threshold, id)
  {
    FanInCounts(es, id, true);
    FanInCounts(es, id, false);
    hide FanIn, Into;
  }

  /** `max-fan-in` has one row for each symbol that more resolved edges end at than the
      limit allows, and counts the weak edges into each symbol they could take over it. */
  lemma FanInIsReported(
    w: World, threshold: nat, added: Option<set<SymbolId>>, es: seq<Edge>, violations: seq<Violation>, u: Uncertainty)
    requires Collected(w, MaxFanIn(threshold), added, es, violations, u)
    ensures forall v :: v in violations <==> IsFanRow(w, v.symbol, v) && |Into(es, v.symbol, true)| > threshold
    ensures InRowOrder(violations) && forall i, j :: 0 <= i < j < |violations| ==> violations[i] != violations[j]
    ensures u.unresolvedEdges == |OpenInto(es, threshold)|
    ensures forall file :: file in u.files <==>
      exists id :: MayExceedIn(es, threshold, id) && id in w.symbols && w.symbols[id].file == file
  {
    var rule := MaxFanIn(threshold);
    FanRowsTell(w, rule, es, violations, u);
    forall id ensures Strong(rule, es, id) == |Into(es, id, true)| { FanInCounts(es, id, true); }
    forall id ensures Open(rule, es, id) <==> MayExceedIn(es, threshold, id) { OpenInTells(es, threshold, id); }
    assert FanReported(w, rule, es, violations, u);
    var ids :| AreOpen(rule, es, ids) && u == Uncertainty(SumOf(rule, es, ids), FilesOf(w, ids));
    SumIsIntoAny(es, threshold, ids);
    hide Strong, Open, MayExceedIn, IsFanRow, FanReported, Collected, NamesPackage;
    assert OpenInto(es, threshold) == IntoAny(es, ids);
  }

  lemma FanRowsTell(w: World, rule: RuleKind, es: seq<Edge>, violations: seq<Violation>, u: Uncertainty)
    requires IsFanRule(rule) && FanReported(w, rule, es, violations, u)
    ensures forall v :: v in violations <==> IsFanRow(w, v.symbol, v) && Strong(rule, es, v.symbol) > rule.threshold
    ensures InRowOrder(violations) && forall i, j :: 0 <= i < j < |violations| ==> violations[i] != violations[j]
  {
    forall v: Violation ensures v == FanRow(w, v.symbol) <==> IsFanRow(w, v.symbol, v) { FanRowTells(w, v.symbol, v); }
    SortedInRowOrder(violations);
    hide FanRow, IsFanRow, InRowOrder, Strong, AreOpen;
  }

  // ── edges out ───────────────────────────────────────────────

  ghost predicate Touches(es: seq<Edge>, id: SymbolId, to: SymbolId, gateSafe: bool) {
    !NamesPackage(to) && exists e :: e in es && e.gateSafe == gateSafe && e.from == id && e.to == to
  }

  /** What a symbol's edges reach, each target once. */
  ghost function Targets(es: seq<Edge>, id: SymbolId, gateSafe: bool): set<SymbolId> {
    set e | e in es && Touches(es, id, e.to, gateSafe) :: e.to
  }

  /** What only its weak ones do. */
  ghost function OnlyWeakly(es: seq<Edge>, id: SymbolId): set<SymbolId> {
    set e | e in es && Touches(es, id, e.to, false) && !Touches(es, id, e.to, true) :: e.to
  }

  lemma FanOutTells(es: seq<Edge>, id: SymbolId, gateSafe: bool)
    ensures FanOut(es, id, gateSafe) == Targets(es, id, gateSafe)
    ensures forall to :: to in Targets(es, id, gateSafe) <==> Touches(es, id, to, gateSafe)
  {
    forall to ensures IsExternalPackage(to) <==> NamesPackage(to) { NamesPackageTells(to); }
    hide IsExternalPackage, NamesPackage;
  }

  lemma OnlyWeaklyTells(es: seq<Edge>, id: SymbolId)
    ensures FanOut(es, id, false) - FanOut(es, id, true) == OnlyWeakly(es, id)
  {
    FanOutTells(es, id, true);
    FanOutTells(es, id, false);
    hide Targets, FanOut;
    forall to ensures to in OnlyWeakly(es, id) <==> Touches(es, id, to, false) && !Touches(es, id, to, true) { }
  }

  ghost predicate MayExceedOut(es: seq<Edge>, threshold: nat, id: SymbolId) {
    |Targets(es, id, true)| <= threshold < |Targets(es, id, true)| + |OnlyWeakly(es, id)|
  }

  /** The weak edges' ends that such symbols turn on, each pair once. */
  ghost function OpenOut(es: seq<Edge>, threshold: nat): set<(SymbolId, SymbolId)> {
    set e | e in es && MayExceedOut(es, threshold, e.from) && e.to in OnlyWeakly(es, e.from) :: (e.from, e.to)
  }

  ghost function OutOfAny(es: seq<Edge>, ids: seq<SymbolId>): set<(SymbolId, SymbolId)> {
    set e | e in es && e.from in ids && e.to in OnlyWeakly(es, e.from) :: (e.from, e.to)
  }

  lemma PairsOfOne(id: SymbolId, targets: set<SymbolId>)
    ensures |set t | t in targets :: (id, t)| == |targets|
  {
    if targets != {} {
      var t :| t in targets;
      PairsOfOne(id, targets - {t});
      assert (set x | x in targets :: (id, x)) == (set x | x in targets - {t} :: (id, x)) + {(id, t)};
    }
  }

  lemma OutOneMore(es: seq<Edge>, ids: seq<SymbolId>, id: SymbolId)
    requires id !in ids
    ensures |OutOfAny(es, ids + [id])| == |OutOfAny(es, ids)| + |OnlyWeakly(es, id)|
  {
    var here := set t | t in OnlyWeakly(es, id) :: (id, t);
    PairsOfOne(id, OnlyWeakly(es, id));
    forall t | t in OnlyWeakly(es, id) ensures exists e :: e in es && e.from == id && e.to == t { WeaklyHasEdge(es, id, t); }
    hide OnlyWeakly;
    assert OutOfAny(es, ids + [id]) == OutOfAny(es, ids) + here;
    assert OutOfAny(es, ids) !! here;
  }

  lemma WeaklyHasEdge(es: seq<Edge>, id: SymbolId, t: SymbolId)
    requires t in OnlyWeakly(es, id)
    ensures exists e :: e in es && e.from == id && e.to == t
  {
  }

  lemma {:induction false} SumIsOutOfAny(es: seq<Edge>, threshold: nat, ids: seq<SymbolId>)
    requires StrictlySortedBy(TextKey, ids)
    ensures SumOf(MaxFanOut(threshold), es, ids) == |OutOfAny(es, ids)|
  {
    if |ids| > 0 {
      var n := |ids| - 1;
      SumIsOutOfAny(es, threshold, ids[..n]);
      OnlyWeaklyTells(es, ids[n]);
      Earlier(ids, n);
      OutOneMore(es, ids[..n], ids[n]);
      assert ids == ids[..n] + [ids[n]];
      hide StrictlySortedBy, OutOfAny, OnlyWeakly, FanOut;
    } else {
      assert OutOfAny(es, ids) == {};
    }
  }

  lemma OpenOutTells(es: seq<Edge>, threshold: nat, id: SymbolId)
    ensures Open(MaxFanOut(threshold), es, id) <==> MayExceedOut(es, threshold, id)
  {
    FanOutTells(es, id, true);
    OnlyWeaklyTells(es, id);
    hide FanOut, OnlyWeakly, Targets;
  }

  /** `max-fan-out` has one row for each symbol whose resolved edges reach more targets
      than the limit allows, and counts the further targets of each symbol that its weak
      edges could take over it. */
  lemma FanOutIsReported(
    w: World, threshold: nat, added: Option<set<SymbolId>>, es: seq<Edge>, violations: seq<Violation>, u: Uncertainty)
    requires Collected(w, MaxFanOut(threshold), added, es, violations, u)
    ensures forall v :: v in violations <==> IsFanRow(w, v.symbol, v) && |Targets(es, v.symbol, true)| > threshold
    ensures InRowOrder(violations) && forall i, j :: 0 <= i < j < |violations| ==> violations[i] != violations[j]
    ensures u.unresolvedEdges == |OpenOut(es, threshold)|
    ensures forall file :: file in u.files <==>
      exists id :: MayExceedOut(es, threshold, id) && id in w.symbols && w.symbols[id].file == file
  {
    var rule := MaxFanOut(threshold);
    FanRowsTell(w, rule, es, violations, u);
    forall id ensures Strong(rule, es, id) == |Targets(es, id, true)| { FanOutTells(es, id, true); }
    forall id ensures Open(rule, es, id) <==> MayExceedOut(es, threshold, id) { OpenOutTells(es, threshold, id); }
    assert FanReported(w, rule, es, violations, u);
    var ids :| AreOpen(rule, es, ids) && u == Uncertainty(SumOf(rule, es, ids), FilesOf(w, ids));
    SumIsOutOfAny(es, threshold, ids);
    hide Strong, Open, MayExceedOut, IsFanRow, FanReported, Collected, OnlyWeakly;
    assert OpenOut(es, threshold) == OutOfAny(es, ids);
  }
}
