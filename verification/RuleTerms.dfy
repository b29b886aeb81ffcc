/** What each rule reports, told by the paths, kinds and ends of the edges and symbols
    themselves (rule_eval.rs). */
module RuleTerms {
  import opened Wrappers
  import opened Ir
  import opened Ordering
  import opened RuleModel
  import opened RuleEval

  // ── paths ───────────────────────────────────────────────────

  /** The path of a stored symbol's file, or the name a package's id gives. */
  ghost predicate PathIs(w: World, id: SymbolId, path: string) {
    if id in w.symbols then path == w.symbols[id].file else id == "ext::" + path + "::package"
  }

  ghost predicate Under(w: World, pattern: string, id: SymbolId) {
    exists path :: PathIs(w, id, path) && w.glob(pattern, path)
  }

  /** This pattern is the first to accept the symbol's path. */
  ghost predicate Claims(w: World, patterns: seq<string>, k: nat, id: SymbolId) {
    k < |patterns| && exists path ::
      PathIs(w, id, path) && w.glob(patterns[k], path) && forall j :: 0 <= j < k ==> !w.glob(patterns[j], path)
  }

  lemma PackageNameReads(id: SymbolId, package: string)
    ensures ParseExternalPackage(id) == Some(package) <==> id == "ext::" + package + "::package"
  {
    var made := "ext::" + package + "::package";
    assert made[5..] == package + "::package";
    assert (package + "::package")[|package|..] == "::package" && (package + "::package")[..|package|] == package;
    if ParseExternalPackage(id) == Some(package) {
      var rest := id[5..];
      assert rest == rest[..|rest| - 9] + rest[|rest| - 9..];
      assert id == id[..5] + rest;
    }
  }

  lemma PathTells(w: World, id: SymbolId, path: string)
    ensures ScopePath(w, id) == Some(path) <==> PathIs(w, id, path)
  {
    PackageNameReads(id, path);
    hide ParseExternalPackage;
  }

  lemma UnderTells(w: World, pattern: string, id: SymbolId)
    ensures InScope(w, pattern, id) <==> Under(w, pattern, id)
  {
    hide ScopePath, PathIs;
    if p :| PathIs(w, id, p) && w.glob(pattern, p) { PathTells(w, id, p); }
    if InScope(w, pattern, id) { PathTells(w, id, ScopePath(w, id).value); }
  }

  lemma ClaimsTells(w: World, patterns: seq<string>, k: nat, id: SymbolId)
    ensures LayerOf(w, patterns, id) == Some(k) <==> Claims(w, patterns, k, id)
  {
    hide ScopePath, PathIs, FirstMatch;
    if k < |patterns| {
      if p :| PathIs(w, id, p) && w.glob(patterns[k], p) && forall j :: 0 <= j < k ==> !w.glob(patterns[j], p) {
        PathTells(w, id, p);
        var first := FirstMatch(w.glob, patterns, p);
        assert first.Some? && !(first.value < k) && !(k < first.value);
      }
    }
    if LayerOf(w, patterns, id) == Some(k) { PathTells(w, id, ScopePath(w, id).value); }
  }

  // ── rules about edges ───────────────────────────────────────

  /** The edges that a rule about edges is broken by. */
  ghost predicate Crosses(w: World, rule: RuleKind, e: Edge) {
    match rule
    case ForbidDependency(from, to) => e.isDependency && Under(w, from, e.from) && Under(w, to, e.to)
    case ForbidReference(from, to) => Under(w, from, e.from) && Under(w, to, e.to)
    case Layers(stack) =>
      e.isDependency && exists j: nat, k: nat :: j < k && Claims(w, stack, j, e.to) && Claims(w, stack, k, e.from)
    case Independence(modules) =>
      exists j: nat, k: nat :: j != k && Claims(w, modules, j, e.to) && Claims(w, modules, k, e.from)
    case _ => false
  }

  /** The edges that leave a rule open while they are weak, wherever they point. */
  ghost predicate Matters(w: World, rule: RuleKind, e: Edge)
    requires !IsFanRule(rule)
  {
    match rule
    case ForbidDependency(from, _) => e.isDependency && Under(w, from, e.from)
    case ForbidReference(from, _) => Under(w, from, e.from)
    case Layers(stack) => e.isDependency && exists k: nat :: k > 0 && Claims(w, stack, k, e.from)
    case Independence(modules) => exists k: nat :: Claims(w, modules, k, e.from)
    case RequiresDependency(from, _) => Under(w, from, e.from)
    case NoCycles(scope, _) => e.isDependency && Under(w, scope, e.from)
    case _ => true
  }

  lemma CrossesTells(w: World, rule: RuleKind, e: Edge)
    requires IsEdgeRule(rule)
    ensures Watched(w, rule, e) && Forbidden(w, rule, e) <==> Crosses(w, rule, e)
  {
    hide InScope, Under, LayerOf, Claims;
    match rule
    case ForbidDependency(from, to) =>
      UnderTells(w, from, e.from);
      UnderTells(w, to, e.to);
    case ForbidReference(from, to) =>
      UnderTells(w, from, e.from);
      UnderTells(w, to, e.to);
    case Layers(stack) => LayersTell(w, stack, e);
    case Independence(modules) => LayersTell(w, modules, e);
  }

  lemma LayersTell(w: World, patterns: seq<string>, e: Edge)
    ensures forall k: nat :: LayerOf(w, patterns, e.from) == Some(k) <==> Claims(w, patterns, k, e.from)
    ensures forall k: nat :: LayerOf(w, patterns, e.to) == Some(k) <==> Claims(w, patterns, k, e.to)
  {
    forall k: nat ensures LayerOf(w, patterns, e.from) == Some(k) <==> Claims(w, patterns, k, e.from) {
      ClaimsTells(w, patterns, k, e.from);
    }
    forall k: nat ensures LayerOf(w, patterns, e.to) == Some(k) <==> Claims(w, patterns, k, e.to) {
      ClaimsTells(w, patterns, k, e.to);
    }
  }

  lemma MattersTells(w: World, rule: RuleKind, e: Edge)
    requires !IsFanRule(rule)
    ensures Watched(w, rule, e) <==> Matters(w, rule, e)
  {
    hide InScope, Under, LayerOf, Claims;
    match rule
    case ForbidDependency(from, _) => UnderTells(w, from, e.from);
    case ForbidReference(from, _) => UnderTells(w, from, e.from);
    case Layers(stack) => LayersTell(w, stack, e);
    case Independence(modules) => LayersTell(w, modules, e);
    case RequiresDependency(from, _) => UnderTells(w, from, e.from);
    case NoCycles(scope, _) => UnderTells(w, scope, e.from);
    case _ =>
  }

  /** The edges this row is for. */
  ghost function Crossings(w: World, rule: RuleKind, es: seq<Edge>, v: Violation): set<nat> {
    set i: nat | i < |es| && IsCrossing(w, rule, es[i], v)
  }

  ghost predicate IsCrossing(w: World, rule: RuleKind, e: Edge, v: Violation) {
    e.gateSafe && Crosses(w, rule, e) && v.file == e.file && v.line == e.line && v.symbol == e.from
  }

  /** By file, then line, then symbol. */
  predicate RowLe(a: Violation, b: Violation) {
    if a.file != b.file then CharsLe(a.file, b.file)
    else if a.line != b.line then a.line < b.line
    else CharsLe(a.symbol, b.symbol)
  }

  lemma RowsCompare(a: Violation, b: Violation)
    ensures Le(ViolationKey(a), ViolationKey(b)) <==> RowLe(a, b)
  {
    assert ViolationKey(a) == [Text(a.file)] + ([Num(a.line)] + [Text(a.symbol)]);
    assert ViolationKey(b) == [Text(b.file)] + ([Num(b.line)] + [Text(b.symbol)]);
    Lex(Text(a.file), Text(b.file), [Num(a.line)] + [Text(a.symbol)], [Num(b.line)] + [Text(b.symbol)]);
    Lex(Num(a.line), Num(b.line), [Text(a.symbol)], [Text(b.symbol)]);
    LastCompares(a.symbol, b.symbol);
    hide CharsLe, Le, ViolationKey;
  }

  ghost predicate InRowOrder(violations: seq<Violation>) {
    forall i, j :: 0 <= i < j < |violations| ==> RowLe(violations[i], violations[j])
  }

  lemma SortedInRowOrder(violations: seq<Violation>)
    ensures SortedBy(ViolationKey, violations) <==> InRowOrder(violations)
  {
    hide RowLe, ViolationKey, Le;
    forall i, j | 0 <= i < j < |violations|
      ensures Le(ViolationKey(violations[i]), ViolationKey(violations[j])) <==> RowLe(violations[i], violations[j])
    {
      RowsCompare(violations[i], violations[j]);
    }
  }

  lemma {:induction false} RowsCount(w: World, rule: RuleKind, es: seq<Edge>, v: Violation)
    requires IsEdgeRule(rule)
    ensures multiset(Rows(w, rule, es))[v] == |Crossings(w, rule, es, v)|
  {
    if |es| > 0 {
      var n := |es| - 1;
      RowsCount(w, rule, es[..n], v);
      CrossesTells(w, rule, es[n]);
      MoreCrossings(w, rule, es, v);
      hide Crosses, Watched, Forbidden, Crossings, IsEdgeRule;
    }
  }

  lemma MoreCrossings(w: World, rule: RuleKind, es: seq<Edge>, v: Violation)
    requires |es| > 0
    ensures var n := |es| - 1;
      |Crossings(w, rule, es, v)| == |Crossings(w, rule, es[..n], v)| + if IsCrossing(w, rule, es[n], v) then 1 else 0
  {
    hide IsCrossing;
    var n := |es| - 1;
    var rest, now := Crossings(w, rule, es[..n], v), IsCrossing(w, rule, es[n], v);
    assert n !in rest;
    forall i: nat ensures i in Crossings(w, rule, es, v) <==> i in rest || (i == n && now) {
      if i < n { assert es[..n][i] == es[i]; }
    }
    hide Crossings;
    assert Crossings(w, rule, es, v) == rest + if now then {n} else {};
  }

  /** A rule about edges reports every resolved edge that breaks it, as often as there
      are such edges, and nothing else; in order. */
  lemma CrossingsAreReported(
    w: World, rule: RuleKind, added: Option<set<SymbolId>>, es: seq<Edge>, violations: seq<Violation>, u: Uncertainty)
    requires IsEdgeRule(rule) && Collected(w, rule, added, es, violations, u)
    ensures forall v :: multiset(violations)[v] == |Crossings(w, rule, es, v)|
    ensures InRowOrder(violations)
  {
    var rows := Rows(w, rule, es);
    Sorts(ViolationKey, rows);
    SortedInRowOrder(violations);
    hide SortBy, Rows;
    forall v ensures multiset(violations)[v] == |Crossings(w, rule, es, v)| { RowsCount(w, rule, es, v); }
  }

  // ── doubt ───────────────────────────────────────────────────

  ghost predicate IsOpen(w: World, rule: RuleKind, e: Edge)
    requires !IsFanRule(rule)
  {
    !e.gateSafe && Matters(w, rule, e)
  }

  ghost function OpenPlaces(w: World, rule: RuleKind, es: seq<Edge>): set<nat>
    requires !IsFanRule(rule)
  {
    set i: nat | i < |es| && IsOpen(w, rule, es[i])
  }

  ghost predicate IsOpenFile(w: World, rule: RuleKind, es: seq<Edge>, file: string)
    requires !IsFanRule(rule)
  {
    exists e :: e in es && IsOpen(w, rule, e) && e.file == file
  }

  lemma {:induction false} DoubtsCount(w: World, rule: RuleKind, es: seq<Edge>)
    requires !IsFanRule(rule)
    ensures DoubtCount(w, rule, es) == |OpenPlaces(w, rule, es)|
  {
    if |es| > 0 {
      var n := |es| - 1;
      DoubtsCount(w, rule, es[..n]);
      MattersTells(w, rule, es[n]);
      MoreOpen(w, rule, es);
      hide Matters, Watched, OpenPlaces;
    }
  }

  lemma MoreOpen(w: World, rule: RuleKind, es: seq<Edge>)
    requires !IsFanRule(rule) && |es| > 0
    ensures var n := |es| - 1;
      |OpenPlaces(w, rule, es)| == |OpenPlaces(w, rule, es[..n])| + if IsOpen(w, rule, es[n]) then 1 else 0
  {
    hide IsOpen;
    var n := |es| - 1;
    var rest := OpenPlaces(w, rule, es[..n]);
    assert n !in rest;
    assert OpenPlaces(w, rule, es) == rest + if IsOpen(w, rule, es[n]) then {n} else {};
  }

  /** The doubt is the weak edges that matter, each counted, and the files they are in. */
  lemma DoubtIsOpen(w: World, rule: RuleKind, es: seq<Edge>)
    requires !IsFanRule(rule)
    ensures Doubt(w, rule, es).unresolvedEdges == |OpenPlaces(w, rule, es)|
    ensures forall file :: file in Doubt(w, rule, es).files <==> IsOpenFile(w, rule, es, file)
  {
    DoubtsCount(w, rule, es);
    forall e ensures Doubtful(w, rule, e) <==> IsOpen(w, rule, e) { MattersTells(w, rule, e); }
    hide Doubtful, IsOpen, DoubtCount, OpenPlaces;
  }

  /** Every rule but those of absence and the fan limits reports its doubt so. */
  lemma DoubtIsReported(
    w: World, rule: RuleKind, added: Option<set<SymbolId>>, es: seq<Edge>, violations: seq<Violation>, u: Uncertainty)
    requires IsEdgeRule(rule) || rule.RequiresDependency? || rule.NoCycles?
    requires Collected(w, rule, added, es, violations, u)
    ensures u.unresolvedEdges == |OpenPlaces(w, rule, es)|
    ensures forall file :: file in u.files <==> IsOpenFile(w, rule, es, file)
  {
    DoubtIsOpen(w, rule, es);
    hide Doubt, Rows, IsOpenFile;
  }

  // ── rules about symbols ─────────────────────────────────────

  /** The word a rule calls a kind of symbol by. */
  predicate Word(kind: SymbolKind, word: string) {
    || (kind == Class && word == "class") || (kind == Interface && word == "interface")
    || (kind == TypeAlias && word == "type_alias") || (kind == Function && word == "function")
    || (kind == Method && word == "method") || (kind == Property && word == "property")
    || (kind == Variable && word == "variable") || (kind == Module && word == "module")
    || (kind == Enum && word == "enum") || (kind == EnumVariant && word == "enum_variant")
    || (kind == ExternalPackage && word == "package")
  }

  lemma WordTells(kind: SymbolKind, word: string)
    ensures KindSuffix(kind) == word <==> Word(kind, word)
  {
  }

  /** A stored symbol whose file the glob accepts, other than a module named as its
      file is. */
  predicate Stands(w: World, pattern: string, id: SymbolId) {
    && id in w.symbols && w.glob(pattern, w.symbols[id].file)
    && !(w.symbols[id].kind == Module && w.symbols[id].name == w.symbols[id].file)
  }

  /** A row for this symbol. */
  predicate IsRow(w: World, id: SymbolId, v: Violation) {
    && id in w.symbols && v.file == w.symbols[id].file && v.line == w.symbols[id].lineStart
    && v.symbol == w.symbols[id].id
  }

  lemma RowTells(w: World, ids: set<SymbolId>, violations: seq<Violation>)
    requires Reports(w, ids, violations)
    ensures forall v :: v in violations <==> exists id :: id in ids && IsRow(w, id, v)
    ensures |violations| == |ids| && InRowOrder(violations)
  {
    SortedInRowOrder(violations);
    hide SortedBy, InRowOrder;
    forall id, v | id in ids ensures v == RowOf(w, id) <==> IsRow(w, id, v) { }
    hide IsRow, RowOf;
  }

  ghost predicate Tested(es: seq<Edge>, id: SymbolId) {
    exists e :: e in es && e.kindName == "tests" && (e.from == id || e.to == id)
  }

  /** What `requires-test` asks a test for. */
  predicate WantsTest(
    w: World, symbols: string, only: Option<string>, newOnly: bool, added: Option<set<SymbolId>>, id: SymbolId)
  {
    && Stands(w, symbols, id)
    && (only.Some? ==> Word(w.symbols[id].kind, only.value))
    && (newOnly && added.Some? ==> id in added.value)
  }

  lemma WantsTestTells(
    w: World, symbols: string, only: Option<string>, newOnly: bool, added: Option<set<SymbolId>>, id: SymbolId)
    ensures Demanded(w, RequiresTest(symbols, only, newOnly), added, id) <==> WantsTest(w, symbols, only, newOnly, added, id)
  {
    if id in w.symbols && only.Some? { WordTells(w.symbols[id].kind, only.value); }
    hide KindSuffix, Word;
  }

  ghost predicate Untested(
    w: World, symbols: string, only: Option<string>, newOnly: bool, added: Option<set<SymbolId>>, es: seq<Edge>, id: SymbolId)
  {
    WantsTest(w, symbols, only, newOnly, added, id) && !Tested(es, id)
  }

  ghost function UntestedIds(
    w: World, symbols: string, only: Option<string>, newOnly: bool, added: Option<set<SymbolId>>, es: seq<Edge>): set<SymbolId>
  {
    set id | id in w.symbols && Untested(w, symbols, only, newOnly, added, es, id)
  }

  ghost predicate EveryEdgeResolved(es: seq<Edge>) { forall e :: e in es ==> e.gateSafe }

  lemma NoneOpen(w: World, rule: RuleKind, es: seq<Edge>)
    requires EveryEdgeResolved(es)
    ensures DoubtCount(w, rule, es) == 0
  {
    NoDoubts(w, rule, es);
  }

  /** With every edge resolved `requires-test` has a row for exactly those symbols that
      it wants a test for and that no edge named `tests` starts or ends at; one each. */
  lemma UntestedIsReported(
    w: World, symbols: string, only: Option<string>, newOnly: bool, added: Option<set<SymbolId>>, es: seq<Edge>,
    violations: seq<Violation>, u: Uncertainty)
    requires Collected(w, RequiresTest(symbols, only, newOnly), added, es, violations, u) && EveryEdgeResolved(es)
    ensures forall v :: v in violations <==>
      exists id :: Untested(w, symbols, only, newOnly, added, es, id) && IsRow(w, id, v)
    ensures |violations| == |UntestedIds(w, symbols, only, newOnly, added, es)| && InRowOrder(violations)
  {
    var rule := RequiresTest(symbols, only, newOnly);
    NoneOpen(w, rule, es);
    forall id ensures Unmet(w, rule, added, es, id) <==> Untested(w, symbols, only, newOnly, added, es, id) {
      WantsTestTells(w, symbols, only, newOnly, added, id);
      hide WantsTest, Demanded;
    }
    assert UnmetIds(w, rule, added, es) == UntestedIds(w, symbols, only, newOnly, added, es);
    RowTells(w, UnmetIds(w, rule, added, es), violations);
    hide *;
  }

  /** Nothing weak to test, or nothing left untested whatever the weak edges are: then
      no doubt is reported. Otherwise nothing is reported but the doubt. */
  ghost predicate OnlyDoubt(es: seq<Edge>, violations: seq<Violation>, u: Uncertainty) {
    && violations == [] && u.unresolvedEdges == |WeakPlaces(es)|
    && forall file :: file in u.files <==> exists e :: e in es && !e.gateSafe && e.file == file
  }

  ghost function WeakPlaces(es: seq<Edge>): set<nat> { set i: nat | i < |es| && !es[i].gateSafe }

  /** A test that stays one however its edge resolves, or that is known to be of this
      symbol. */
  ghost predicate SurelyTested(es: seq<Edge>, id: SymbolId) {
    exists e :: e in es && e.kindName == "tests" && (e.from == id || (e.gateSafe && e.to == id))
  }

  lemma SurelyTestedTells(w: World, rule: RuleKind, es: seq<Edge>, id: SymbolId)
    requires rule.RequiresTest?
    ensures SurelyTested(es, id) <==> exists e :: e in es && Settles(w, rule, id, e)
  {
  }

  lemma AbsenceIsDoubted(
    w: World, rule: RuleKind, added: Option<set<SymbolId>>, es: seq<Edge>, violations: seq<Violation>, u: Uncertainty)
    requires rule.NoOrphans? || rule.RequiresTest?
    requires Collected(w, rule, added, es, violations, u) && !EveryEdgeResolved(es)
    ensures if exists id :: Unmet(w, rule, added, es, id) then OnlyDoubt(es, violations, u)
      else violations == [] && u == NO_DOUBT
  {
    var asked := if rule.NoOrphans? then None else added;
    var missing := UnmetIds(w, rule, asked, es);
    forall id ensures Unmet(w, rule, added, es, id) <==> id in missing { }
    DoubtIsOpen(w, rule, es);
    forall e ensures IsOpen(w, rule, e) <==> !e.gateSafe { }
    assert OpenPlaces(w, rule, es) == WeakPlaces(es);
    SomeWeak(es);
    hide Unmet, UnmetIds, Doubt, IsOpen, WeakPlaces;
  }

  lemma SomeWeak(es: seq<Edge>)
    requires !EveryEdgeResolved(es)
    ensures |WeakPlaces(es)| > 0
  {
    var e :| e in es && !e.gateSafe;
    var i: nat :| i < |es| && es[i] == e;
    assert i in WeakPlaces(es);
  }

  /** While some edge is weak and some symbol wanted has no sure test, only the doubt is
      reported; and where each has one, nothing. */
  lemma UntestedIsDoubted(
    w: World, symbols: string, only: Option<string>, newOnly: bool, added: Option<set<SymbolId>>, es: seq<Edge>,
    violations: seq<Violation>, u: Uncertainty)
    requires Collected(w, RequiresTest(symbols, only, newOnly), added, es, violations, u) && !EveryEdgeResolved(es)
    ensures if exists id :: WantsTest(w, symbols, only, newOnly, added, id) && !SurelyTested(es, id)
      then OnlyDoubt(es, violations, u) else violations == [] && u == NO_DOUBT
  {
    var rule := RequiresTest(symbols, only, newOnly);
    AbsenceIsDoubted(w, rule, added, es, violations, u);
    forall id ensures Unmet(w, rule, added, es, id)
      <==> WantsTest(w, symbols, only, newOnly, added, id) && !SurelyTested(es, id)
    {
      WantsTestTells(w, symbols, only, newOnly, added, id);
      SurelyTestedTells(w, rule, es, id);
      hide WantsTest, Demanded, Settles, SurelyTested;
    }
    hide Unmet, WantsTest, Collected, EveryEdgeResolved, SurelyTested, OnlyDoubt;
  }

  /** A rule about new symbols never reports any other, whatever the edges are. */
  lemma NewOnlyReportsAdded(
    w: World, symbols: string, only: Option<string>, added: set<SymbolId>, es: seq<Edge>,
    violations: seq<Violation>, u: Uncertainty, v: Violation)
    requires WellKeyed(w) && Collected(w, RequiresTest(symbols, only, true), Some(added), es, violations, u)
    requires v in violations
    ensures v.symbol in added
  {
    var rule := RequiresTest(symbols, only, true);
    if EveryEdgeResolved(es) {
      UntestedIsReported(w, symbols, only, true, Some(added), es, violations, u);
      var id :| Untested(w, symbols, only, true, Some(added), es, id) && IsRow(w, id, v);
    } else {
      AbsenceIsDoubted(w, rule, Some(added), es, violations, u);
      assert false;
    }
  }

  /** What `no-orphans` asks a reference to. */
  ghost predicate WantsReference(w: World, scope: string, roots: seq<string>, id: SymbolId) {
    Stands(w, scope, id) && forall root :: root in roots ==> !w.glob(root, w.symbols[id].file)
  }

  lemma WantsReferenceTells(w: World, scope: string, roots: seq<string>, added: Option<set<SymbolId>>, id: SymbolId)
    ensures Demanded(w, NoOrphans(scope, roots), added, id) <==> WantsReference(w, scope, roots, id)
  {
  }

  ghost predicate Referenced(es: seq<Edge>, id: SymbolId) { exists e :: e in es && e.gateSafe && e.to == id }

  ghost predicate Orphaned(w: World, scope: string, roots: seq<string>, es: seq<Edge>, id: SymbolId) {
    WantsReference(w, scope, roots, id) && !Referenced(es, id)
  }

  ghost function OrphanIds(w: World, scope: string, roots: seq<string>, es: seq<Edge>): set<SymbolId> {
    set id | id in w.symbols && Orphaned(w, scope, roots, es, id)
  }

  lemma OrphanIsUnmet(w: World, scope: string, roots: seq<string>, added: Option<set<SymbolId>>, es: seq<Edge>, id: SymbolId)
    ensures Unmet(w, NoOrphans(scope, roots), added, es, id) <==> Orphaned(w, scope, roots, es, id)
  {
    WantsReferenceTells(w, scope, roots, added, id);
    hide Demanded, WantsReference;
  }

  /** With every edge resolved `no-orphans` has a row for exactly those symbols in scope,
      and in no root, that no edge ends at; otherwise it reports only the doubt, and
      that only where some symbol has no resolved edge ending at it. */
  lemma OrphansAreReported(
    w: World, scope: string, roots: seq<string>, added: Option<set<SymbolId>>, es: seq<Edge>,
    violations: seq<Violation>, u: Uncertainty)
    requires Collected(w, NoOrphans(scope, roots), added, es, violations, u)
    ensures EveryEdgeResolved(es) ==>
      && (forall v :: v in violations <==> exists id :: Orphaned(w, scope, roots, es, id) && IsRow(w, id, v))
      && |violations| == |OrphanIds(w, scope, roots, es)| && InRowOrder(violations)
    ensures !EveryEdgeResolved(es) ==>
      if exists id :: Orphaned(w, scope, roots, es, id) then OnlyDoubt(es, violations, u)
      else violations == [] && u == NO_DOUBT
  {
    var rule := NoOrphans(scope, roots);
    forall id, asked ensures Unmet(w, rule, asked, es, id) <==> Orphaned(w, scope, roots, es, id) {
      OrphanIsUnmet(w, scope, roots, asked, es, id);
    }
    hide Unmet, Orphaned;
    assert UnmetIds(w, rule, None, es) == OrphanIds(w, scope, roots, es) by {
      forall id ensures id in UnmetIds(w, rule, None, es) <==> id in OrphanIds(w, scope, roots, es) {
        assert Unmet(w, rule, None, es, id) <==> Orphaned(w, scope, roots, es, id);
        if Orphaned(w, scope, roots, es, id) { OrphanIsStored(w, scope, roots, es, id); }
      }
    }
    forall id ensures id in OrphanIds(w, scope, roots, es) <==> Orphaned(w, scope, roots, es, id) {
      if Orphaned(w, scope, roots, es, id) { OrphanIsStored(w, scope, roots, es, id); }
    }
    hide UnmetIds, OrphanIds;
    if EveryEdgeResolved(es) {
      NoneOpen(w, rule, es);
      RowTells(w, UnmetIds(w, rule, None, es), violations);
      hide *;
    } else {
      AbsenceIsDoubted(w, rule, added, es, violations, u);
      hide *;
    }
  }

  lemma OrphanIsStored(w: World, scope: string, roots: seq<string>, es: seq<Edge>, id: SymbolId)
    requires Orphaned(w, scope, roots, es, id)
    ensures id in w.symbols
  {
  }

  /** A symbol in scope that no resolved edge takes into the target, and no weak one
      could. */
  ghost predicate Unserved(w: World, from: string, to: string, es: seq<Edge>, id: SymbolId) {
    Stands(w, from, id) && forall e :: e in es && e.from == id ==> e.gateSafe && !Under(w, to, e.to)
  }

  ghost function UnservedIds(w: World, from: string, to: string, es: seq<Edge>): set<SymbolId> {
    set id | id in w.symbols && Unserved(w, from, to, es, id)
  }

  lemma UnservedIsUnmet(w: World, from: string, to: string, added: Option<set<SymbolId>>, es: seq<Edge>, id: SymbolId)
    ensures Unmet(w, RequiresDependency(from, to), added, es, id) <==> Unserved(w, from, to, es, id)
  {
    forall e: Edge ensures InScope(w, to, e.to) <==> Under(w, to, e.to) { UnderTells(w, to, e.to); }
    hide Under;
  }

  /** `requires-dependency` has a row for exactly those. */
  lemma UnservedIsReported(
    w: World, from: string, to: string, added: Option<set<SymbolId>>, es: seq<Edge>,
    violations: seq<Violation>, u: Uncertainty)
    requires Collected(w, RequiresDependency(from, to), added, es, violations, u)
    ensures forall v :: v in violations <==> exists id :: Unserved(w, from, to, es, id) && IsRow(w, id, v)
    ensures |violations| == |UnservedIds(w, from, to, es)| && InRowOrder(violations)
  {
    var rule := RequiresDependency(from, to);
    forall id ensures Unmet(w, rule, None, es, id) <==> Unserved(w, from, to, es, id) {
      UnservedIsUnmet(w, from, to, None, es, id);
    }
    assert UnmetIds(w, rule, None, es) == UnservedIds(w, from, to, es);
    RowTells(w, UnmetIds(w, rule, None, es), violations);
    hide Unmet;
    forall id ensures id in UnservedIds(w, from, to, es) <==> Unserved(w, from, to, es, id) { }
    hide *;
  }
}
