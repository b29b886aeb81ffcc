/** Rules, what they mean, and what each verdict claims (rules.rs, rule_eval.rs). */
module RuleModel {
  import opened Wrappers
  import opened Ir
  import opened Ordering
  import opened Reachability

  datatype CycleLevel = FileLevel | ModuleLevel

  datatype Severity = Warn | Error

  datatype RuleKind =
    | ForbidDependency(from: string, to: string)
    | ForbidReference(from: string, to: string)
    | Layers(layers: seq<string>)
    | Independence(modules: seq<string>)
    | RequiresDependency(from: string, to: string)
    | NoOrphans(scope: string, roots: seq<string>)
    | RequiresTest(symbols: string, only: Option<string>, newOnly: bool)
    | NoCycles(scope: string, level: CycleLevel)
    | MaxFanIn(threshold: nat)
    | MaxFanOut(threshold: nat)

  datatype Rule = Rule(name: string, kind: RuleKind, severity: Severity)

  datatype Verdict = Satisfied | Violated | Inconclusive | Skipped

  datatype Violation = Violation(file: string, line: nat, symbol: string)

  datatype Uncertainty = Uncertainty(unresolvedEdges: nat, files: set<string>)

  datatype RuleOutcome = RuleOutcome(
    rule: string, severity: Severity, verdict: Verdict,
    violations: seq<Violation>, uncertainty: Option<Uncertainty>)

  /** One edge of the graph, flattened. */
  datatype Edge = Edge(
    from: SymbolId, to: SymbolId, file: string, line: nat,
    kindName: string, isDependency: bool, gateSafe: bool)

  /** What evaluation reads besides the edges: the glob matcher, of which nothing
      is assumed, and the symbol table. */
  datatype World = World(glob: (string, string) -> bool, symbols: map<SymbolId, Symbol>)

  /** Symbols are stored under their own ids. */
  ghost predicate WellKeyed(w: World) {
    forall id :: id in w.symbols ==> w.symbols[id].id == id
  }

  function ViolationKey(v: Violation): SortKey { [Text(v.file), Num(v.line), Text(v.symbol)] }

  // ── scopes ──────────────────────────────────────────────────

  /** The path a glob is matched against. A stored symbol answers with its file,
      which for an external package node is empty. */
  function ScopePath(w: World, id: SymbolId): Option<string> {
    if id in w.symbols then Some(w.symbols[id].file) else ParseExternalPackage(id)
  }

  predicate InScope(w: World, pattern: string, id: SymbolId) {
    var path := ScopePath(w, id);
    path.Some? && w.glob(pattern, path.value)
  }

  /** The first pattern that claims a path. */
  function FirstMatch(glob: (string, string) -> bool, patterns: seq<string>, path: string): (r: Option<nat>)
    ensures r.Some? ==> r.value < |patterns| && glob(patterns[r.value], path)
    ensures r.Some? ==> forall j :: 0 <= j < r.value ==> !glob(patterns[j], path)
    ensures r.None? ==> forall j :: 0 <= j < |patterns| ==> !glob(patterns[j], path)
  {
    if |patterns| == 0 then None
    else if glob(patterns[0], path) then Some(0)
    else match FirstMatch(glob, patterns[1..], path)
      case None => None
      case Some(i) =>
        assert forall j :: 0 < j <= i ==> patterns[j] == patterns[1..][j - 1];
        Some(i + 1)
  }

  function LayerOf(w: World, stack: seq<string>, id: SymbolId): Option<nat> {
    var path := ScopePath(w, id);
    if path.None? then None else FirstMatch(w.glob, stack, path.value)
  }

  predicate Synthetic(s: Symbol) { s.kind == Module && s.name == s.file }

  function KindSuffix(kind: SymbolKind): string {
    match kind
    case Class => "class" case Interface => "interface" case TypeAlias => "type_alias"
    case Function => "function" case Method => "method" case Property => "property"
    case Variable => "variable" case Module => "module" case Enum => "enum"
    case EnumVariant => "enum_variant" case ExternalPackage => "package"
  }

  // ── what each rule means, all edges being known ─────────────

  /** The edges a rule looks at because of where they start. */
  predicate Watched(w: World, rule: RuleKind, e: Edge) {
    match rule
    case ForbidDependency(from, _) => e.isDependency && InScope(w, from, e.from)
    case ForbidReference(from, _) => InScope(w, from, e.from)
    case Layers(stack) => e.isDependency && LayerOf(w, stack, e.from).Some? && LayerOf(w, stack, e.from).value > 0
    case Independence(modules) => LayerOf(w, modules, e.from).Some?
    case RequiresDependency(from, _) => InScope(w, from, e.from)
    case NoOrphans(_, _) => true
    case RequiresTest(_, _, _) => true
    case NoCycles(scope, _) => e.isDependency && InScope(w, scope, e.from)
    case MaxFanIn(_) => !IsExternalPackage(e.to)
    case MaxFanOut(_) => !IsExternalPackage(e.to)
  }

  /** Where a watched edge must not end. */
  predicate Forbidden(w: World, rule: RuleKind, e: Edge) {
    match rule
    case ForbidDependency(_, to) => InScope(w, to, e.to)
    case ForbidReference(_, to) => InScope(w, to, e.to)
    case Layers(stack) =>
      var a, b := LayerOf(w, stack, e.from), LayerOf(w, stack, e.to);
      a.Some? && b.Some? && b.value < a.value
    case Independence(modules) =>
      var a, b := LayerOf(w, modules, e.from), LayerOf(w, modules, e.to);
      a.Some? && b.Some? && b.value != a.value
    case _ => false
  }

  predicate IsEdgeRule(rule: RuleKind) {
    rule.ForbidDependency? || rule.ForbidReference? || rule.Layers? || rule.Independence?
  }

  predicate IsSymbolRule(rule: RuleKind) {
    rule.RequiresDependency? || rule.NoOrphans? || rule.RequiresTest?
  }

  predicate IsFanRule(rule: RuleKind) { rule.MaxFanIn? || rule.MaxFanOut? }

  /** The symbols a rule makes a demand of. `added` is the change being judged,
      where one is supplied. */
  predicate Demanded(w: World, rule: RuleKind, added: Option<set<SymbolId>>, id: SymbolId)
    requires IsSymbolRule(rule)
  {
    id in w.symbols &&
    var s := w.symbols[id];
    !Synthetic(s) &&
    match rule
    case RequiresDependency(from, _) => w.glob(from, s.file)
    case NoOrphans(scope, roots) => w.glob(scope, s.file) && FirstMatch(w.glob, roots, s.file).None?
    case RequiresTest(symbols, only, newOnly) =>
      && w.glob(symbols, s.file)
      && (only.Some? ==> KindSuffix(s.kind) == only.value)
      && (newOnly && added.Some? ==> id in added.value)
  }

  /** An edge that meets the demand made of a symbol. */
  predicate Serves(w: World, rule: RuleKind, id: SymbolId, e: Edge)
    requires IsSymbolRule(rule)
  {
    match rule
    case RequiresDependency(from, to) => e.from == id && InScope(w, from, e.from) && InScope(w, to, e.to)
    case NoOrphans(_, _) => e.to == id
    case RequiresTest(_, _, _) => e.kindName == "tests" && (e.to == id || e.from == id)
  }

  /** The node a cycle is counted between. */
  function CycleNode(path: string, level: CycleLevel): string {
    if level.FileLevel? then path
    else match LastSlash(path)
      case None => "."
      case Some(cut) => path[..cut]
  }

  function LastSlash(path: string): (r: Option<nat>)
    ensures r.Some? ==> r.value < |path| && path[r.value] == '/' && '/' !in path[r.value + 1..]
    ensures r.None? ==> '/' !in path
  {
    if |path| == 0 then None
    else if path[|path| - 1] == '/' then Some(|path| - 1)
    else
      var r := LastSlash(path[..|path| - 1]);
      assert path == path[..|path| - 1] + [path[|path| - 1]];
      assert r.Some? ==> path[r.value + 1..] == path[..|path| - 1][r.value + 1..] + [path[|path| - 1]];
      r
  }

  predicate Pairs(w: World, scope: string, level: CycleLevel, e: Edge) {
    && Watched(w, NoCycles(scope, level), e) && InScope(w, scope, e.to)
    && NodeOf(w, level, e.from) != NodeOf(w, level, e.to)
  }

  function NodeOf(w: World, level: CycleLevel, id: SymbolId): string {
    CycleNode(ScopePath(w, id).GetOr(""), level)
  }

  /** The in-scope dependency relation between nodes, self-pairs dropped, over
      the edges that may be counted. */
  function DependsOn(w: World, scope: string, level: CycleLevel, es: seq<Edge>): Relation<string> {
    set e | e in es && e.gateSafe && Pairs(w, scope, level, e) :: (NodeOf(w, level, e.from), NodeOf(w, level, e.to))
  }

  /** Two distinct nodes that reach each other. */
  ghost predicate HasCycle(r: Relation<string>) {
    exists a, b :: a != b && Reaches(r, a, b) && Reaches(r, b, a)
  }

  function FanIn(es: seq<Edge>, id: SymbolId, gateSafe: bool): nat {
    if |es| == 0 then 0
    else
      var e := es[|es| - 1];
      FanIn(es[..|es| - 1], id, gateSafe)
      + if e.gateSafe == gateSafe && e.to == id && !IsExternalPackage(e.to) then 1 else 0
  }

  function FanOut(es: seq<Edge>, id: SymbolId, gateSafe: bool): set<SymbolId> {
    set e | e in es && e.gateSafe == gateSafe && e.from == id && !IsExternalPackage(e.to) :: e.to
  }

  /** Whether a rule holds of a graph whose every edge is resolved. */
  ghost predicate Holds(w: World, rule: RuleKind, added: Option<set<SymbolId>>, es: seq<Edge>) {
    if rule.NoCycles? then !HasCycle(DependsOn(w, rule.scope, rule.level, es))
    else if rule.MaxFanIn? then forall id :: FanIn(es, id, true) <= rule.threshold
    else if rule.MaxFanOut? then forall id :: |FanOut(es, id, true)| <= rule.threshold
    else if IsSymbolRule(rule) then
      forall id :: Demanded(w, rule, added, id) ==> exists e :: e in es && Serves(w, rule, id, e)
    else forall e :: e in es ==> !(Watched(w, rule, e) && Forbidden(w, rule, e))
  }

  // ── what the evaluators decide ──────────────────────────────

  predicate Doubtful(w: World, rule: RuleKind, e: Edge) {
    !e.gateSafe && Watched(w, rule, e)
  }

  predicate Breach(w: World, rule: RuleKind, e: Edge) {
    e.gateSafe && Watched(w, rule, e) && Forbidden(w, rule, e)
  }

  /** An edge that settles a demand as the evidence stands: one that serves it on
      resolved evidence, one from a symbol already known to be a test, or one too
      weak to rule it out that only this symbol's demand turns on. */
  predicate Settles(w: World, rule: RuleKind, id: SymbolId, e: Edge)
    requires IsSymbolRule(rule)
  {
    match rule
    case RequiresDependency(_, _) => (e.gateSafe && Serves(w, rule, id, e)) || (Doubtful(w, rule, e) && e.from == id)
    case NoOrphans(_, _) => e.gateSafe && e.to == id
    case RequiresTest(_, _, _) => e.kindName == "tests" && ((e.gateSafe && e.to == id) || e.from == id)
  }

  ghost predicate Unmet(w: World, rule: RuleKind, added: Option<set<SymbolId>>, es: seq<Edge>, id: SymbolId)
    requires IsSymbolRule(rule)
  {
    Demanded(w, rule, added, id) && forall e :: e in es ==> !Settles(w, rule, id, e)
  }

  ghost predicate Weak(es: seq<Edge>) { exists e :: e in es && !e.gateSafe }

  /** A breach is on record. */
  ghost predicate Breached(w: World, rule: RuleKind, added: Option<set<SymbolId>>, es: seq<Edge>) {
    if rule.NoCycles? then HasCycle(DependsOn(w, rule.scope, rule.level, es))
    else if rule.MaxFanIn? then exists id :: FanIn(es, id, true) > rule.threshold
    else if rule.MaxFanOut? then exists id :: |FanOut(es, id, true)| > rule.threshold
    else if IsSymbolRule(rule) then
      (rule.RequiresDependency? || !Weak(es)) && exists id :: Unmet(w, rule, added, es, id)
    else exists e :: e in es && Breach(w, rule, e)
  }

  /** Weak evidence in scope leaves the rule open. */
  ghost predicate Doubted(w: World, rule: RuleKind, added: Option<set<SymbolId>>, es: seq<Edge>) {
    if rule.MaxFanIn? then exists id :: FanIn(es, id, true) + FanIn(es, id, false) > rule.threshold
    else if rule.MaxFanOut? then
      exists id :: |FanOut(es, id, true)| + |FanOut(es, id, false) - FanOut(es, id, true)| > rule.threshold
    else if rule.NoOrphans? || rule.RequiresTest? then
      Weak(es) && exists id :: Unmet(w, rule, added, es, id)
    else exists e :: e in es && Doubtful(w, rule, e)
  }

  ghost predicate IsSkipped(rule: RuleKind, added: Option<set<SymbolId>>) {
    rule.RequiresTest? && rule.newOnly && added.None?
  }

  ghost function VerdictOf(w: World, rule: RuleKind, added: Option<set<SymbolId>>, es: seq<Edge>): Verdict {
    if IsSkipped(rule, added) then Skipped
    else if Breached(w, rule, added, es) then Violated
    else if Doubted(w, rule, added, es) then Inconclusive
    else Satisfied
  }

  // ── what the weak edges might turn out to be ────────────────

  /** Every weak edge resolved: the same source, kind, file and line, and any
      target at all. */
  ghost predicate Completes(es: seq<Edge>, cs: seq<Edge>) {
    && |cs| == |es|
    && forall i :: 0 <= i < |es| ==>
      cs[i] == if es[i].gateSafe then es[i] else es[i].(to := cs[i].to, gateSafe := true)
  }

  /** Each weak edge kept at its recorded target, or dropped. */
  function Keep(es: seq<Edge>, kept: seq<bool>): seq<Edge>
    requires |kept| == |es|
  {
    if |es| == 0 then []
    else
      var e := es[|es| - 1];
      Keep(es[..|es| - 1], kept[..|es| - 1])
      + if e.gateSafe || kept[|es| - 1] then [e.(gateSafe := true)] else []
  }

  ghost predicate AllResolved(es: seq<Edge>) { forall e :: e in es ==> e.gateSafe }
}
