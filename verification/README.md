# OpenInvar, verified

OpenInvar builds a graph of the symbols in a repository and gates changes on it.
Its value is in claims that must hold whatever the repository looks like: a rule
reported satisfied is satisfied, the same two graphs give the same delta, a stored
snapshot is the graph that was stored. This project models the algorithms behind
those claims and proves the claims about the models.

Code that works by changing things step by step is modelled as methods and
classes: loops with invariants, fields that are reassigned, vectors that shrink.
Each is tied to a declarative specification, and what the program promises is then
proved of that specification for all inputs and all runs. Pure code is modelled as
functions. Errors are values of `Wrappers.Result`. Nothing is assumed of what the
model does not contain: the glob matcher and the character classes are parameters.

| file | what it holds |
|---|---|
| `Ir.dfy`, `Wrappers.dfy` | the records every component exchanges |
| `Ordering.dfy`, `Reachability.dfy` | derived orders and the stable sort; reachability over a relation with cycles |
| `RuleModel.dfy`, `RuleSoundness.dfy`, `FanRetargeting.dfy`, `RuleExpansion.dfy`, `RuleOrder.dfy` | what rules mean, and that verdicts are earned, when they agree with their expansion, and that they do not see order |
| `RuleInput.dfy` | what evaluation reads of a graph: its edges, and the paths that packages and per-file modules answer with |
| `Cycles.dfy`, `CycleClosing.dfy`, `FanLimits.dfy`, `RuleEval.dfy` | the evaluators, and when a printed cycle is one |
| `RuleTerms.dfy`, `CycleTerms.dfy`, `FanTerms.dfy`, `VerdictTerms.dfy` | what each rule reports, told by paths, kinds and the ends of edges |
| `Continuity.dfy`, `Delta.dfy`, `EdgeDelta.dfy`, `WholeDelta.dfy` | the graph delta: symbols, edges, and both on two graphs |
| `DeltaLaws.dfy`, `EdgeLaws.dfy` | the same, told by the fields of symbols and edges |
| `GraphModel.dfy`, `Petgraph.dfy`, `Removal.dfy`, `Graph.dfy` | the graph as it is kept and changed in place |
| `Query.dfy`, `QueryRows.dfy`, `SearchLaws.dfy` | bounded search and its rows, and what it meets told by chains of edges |
| `FileImpact.dfy`, `ImpactLaws.dfy`, `ImpactWitnesses.dfy` | the impact of a file, exactly what it tells, and inputs on which it leaves something out |
| `Utf8.dfy`, `Codec.dfy`, `CodecLaws.dfy`, `CodecLayout.dfy`, `SnapshotIo.dfy` | the snapshot format, its laws, its bytes, and the byte-level encoder and decoder |
| `Persistence.dfy`, `Revisions.dfy`, `Recency.dfy`, `StoredGraph.dfy` | graphs to snapshots and back; the two stored tables; a graph through the store and home again |
| `GraphTerms.dfy` | what graphs gain, give to rules and are stored as, field by field |
| `Walk.dfy`, `Wildcard.dfy`, `Cache.dfy` | the tree walk, the wildcard matcher, the query cache |
| `Placeholders.dfy`, `DepthFirst.dfy`, `CSharp.dfy`, `CSharpIndex.dfy`, `CSharpLaws.dfy`, `CIncludes.dfy` | placeholder ids, lookup over links, and the two resolvers |

## What turned out not to hold

Where the program does not do what its documentation says, the model follows the
program, a lemma names an input that shows it, and another says exactly when the
promise is met.

- Removing a file collects positions first and lets the vectors shrink under them.
  No other file's node or edge is ever removed, but some of the file's own can be
  left behind: of a file indexed last, half its nodes (`Graph.LastFileIsHalfRemoved`).
  Removal is complete exactly when each node, in its turn, stands far enough from
  the end (`Graph.RemovalIsCompleteExactly`). A symbol left behind and added again is
  taken for a replacement, and neither its file nor its name lists it any more
  (`Graph.ReaddedIsListedExactly`, `Graph.TwoSymbolsAreEnough`). The count that
  `remove_relationships_in_file` returns is of edges found, not of edges removed.
- `wildcard_match` is right about a text under every pattern exactly when the text
  holds no `*` (`Wildcard.AgreesExactlyWithoutStars`).
- The impact of a file promises every edge that reaches into it from outside. Of the
  edges that give one fact (target, file, line, alias, kind) only the one with the
  first referrer counts, and of the facts of one reference (referrer, target, line)
  only the first is given. So a reference is listed exactly when some edge that makes
  it has the first referrer of its fact (`ImpactLaws.ListedExactly`), and every edge
  has its row exactly when each stands alone: no referrer of its fact sorts before
  its own, and no other edge makes its reference (`ImpactLaws.EveryEdgeListedExactly`).
  Every file that reaches in is named exactly when each gives the first fact of some
  reference (`ImpactLaws.AllDependentsExactly`). `gate_safe` is right exactly when
  everything that reaches in is resolved or a reference that is listed has only
  unresolved edges to stand for it (`ImpactLaws.FlagIsRightExactly`). Two edges are
  enough for each to go wrong (`ImpactWitnesses.SecondReferrerIsLeftOut`,
  `ImpactWitnesses.SecondKindIsLeftOut`, `ImpactWitnesses.SecondFileIsLeftOut`).
- A cycle is printed as a walk whose last hop closes it. That hop is sure to be a
  dependency in components of two nodes, and of no larger size: for every `n >= 3`
  a chain of `n` files that depend on their neighbours prints one that is not there
  (`CycleClosing.ClosingHopIsSureExactly`, `CycleClosing.ChainWalk`). In a larger
  component it is one whenever each node depends on the least
  (`CycleClosing.ClosesWhenAllLeadBack`).
- Storing and restoring a graph is lossless exactly when every edge joins two stored
  symbols (`Persistence.PersistsExactly`). Graphs built by additions always qualify;
  removing a file that holds two symbols, the second calling itself, leaves one that
  does not (`Persistence.RemovalMayLoseAnEdge`).
- A snapshot with a list of 2^32 entries or more encodes without an error and does
  not come back (`CodecLaws.LosslessExactly`, `SnapshotIo.CrowdedIsLost`).
- C# references are accounted for exactly when no placeholder is malformed; a
  malformed one is dropped and not counted (`CSharp.ReferencesConserved`). A resolved
  reference into a directory named `unresolved_imports` is enough, because its id
  begins like a placeholder (`CSharp.InnocentIsLost`). For the same reason no
  placeholder survives, whatever the references, exactly when no symbol has such an
  id (`CSharpIndex.NoPlaceholderExactly`).
- A C# member is looked up by going all the way up from the last base by name first,
  so one declared by a far ancestor can win over one declared by a base
  (`CSharp.FarAncestorWins`). A name that several usings offer is said to be refused
  rather than chosen; it is refused exactly when the global namespace lacks it too
  (`CSharp.UsingsRefusedExactly`, `CSharp.AmbiguousUsingsYield`).
- An external package is said to match on its name. In the graphs that additions
  build every package an edge points at is a stored symbol with no file, so it is
  the empty path that is matched: a package answers by its name exactly while
  nothing refers to it (`RuleInput.PackageAnswersByNameExactly`). A pattern reaches a
  package by name, in every such graph, exactly when it accepts both the name and
  the empty path or neither (`RuleInput.PackageScopeExactly`); a rule against one
  lets a resolved import of it pass when the pattern refuses the empty path
  (`RuleInput.PackageRuleVerdict`).
- Per-file module symbols are said to be exempt from demands. The exemption compares
  a symbol's name, which is always `module`, with its file, so an empty file is
  reported by each rule that makes demands unless its path is `module`
  (`RuleInput.LoneModuleIsReportedExactly`, `RuleInput.ModuleIsExemptExactly`).
- `layers` says that expanding it into one rule per pair would count weak edges that
  leave the top layer. It would exactly for a source that a lower layer's glob
  accepts as well (`RuleExpansion.TopDoubtExactly`, `RuleExpansion.SharedPathParts`).
  The rule and its expansion agree on all edges exactly when nothing is in the scope
  of two of the globs (`RuleExpansion.ExpansionAgreesExactly`).
- A C prototype is said to be ambiguous when more than one file could define it. Two
  entries of one file leave it unlinked too (`CIncludes.LinkedByOneEntry`).
- The query cache evicts what was touched longest ago until its 64-bit tick has been
  through; the order is lost with the last tick, and the next entry put may be the
  one evicted (`Cache.HotQueryCache.PutEntry`, `Cache.PutPastLimit`).

## Model

| member | source | states |
|---|---|---|
| RuleSoundness.SatisfiedIsEarned | crates/openinvar-core/src/rule_eval.rs:10-29 | A rule reported satisfied holds in every completion of the weak edges: each resolved to any target at all. |
| RuleSoundness.ViolatedIsEarned | crates/openinvar-core/src/rule_eval.rs:10-29 | A rule reported violated, fan limits included, fails in every completion of the weak edges. |
| RuleSoundness.FanVerdictIsEarned | crates/openinvar-core/src/rule_eval.rs:918-1104 | Under a fan limit both verdicts stand whichever weak edges are real, each kept at its recorded target or dropped. |
| FanRetargeting.FanBreachStands | crates/openinvar-core/src/rule_eval.rs:918-1104 | A breach of a fan limit stands wherever the weak edges really point. |
| FanRetargeting.FanHoldsExactly | crates/openinvar-core/src/rule_eval.rs:918-1104 | A fan limit is kept wherever the weak edges really point exactly when there is room for every one that could count: all of them inbound, those of one source outbound. |
| RuleSoundness.DecidesWhenResolved | crates/openinvar-core/src/rule_eval.rs:1331-1341 | With every edge resolved no rule is inconclusive, and the verdict is satisfied exactly when the rule holds. |
| RuleSoundness.GateIsStable | crates/openinvar-core/src/rule_eval.rs:107-121 | A gate that fails on weak evidence fails in every completion; one whose every rule is satisfied, with room for the weak edges under each fan limit, passes in every completion. |
| RuleSoundness.KeptGateIsStable | crates/openinvar-core/src/rule_eval.rs:107-121 | With weak edges kept or dropped, a failing gate keeps failing, and one whose rules are all satisfied keeps passing, as long as no demand of a requires-test rule is met by weak edges alone. |
| RuleSoundness.KeptPassExactly | crates/openinvar-core/src/rule_eval.rs:634-732 | A satisfied rule holds whichever weak edges are real exactly when no demand of a requires-test rule is met by weak edges alone. |
| RuleSoundness.WeakTestIsDropped | crates/openinvar-core/src/rule_eval.rs:651-668 | A test known by one weak edge: the rule is satisfied, and fails once the edge is dropped. |
| RuleExpansion.VerdictIsTheWorstPair | crates/openinvar-core/src/rule_eval.rs:287-446 | When nothing is in the scope of two globs, layers and independence reach the worst verdict among the pairwise forbid rules they expand into. |
| RuleExpansion.ExpansionAgreesExactly | crates/openinvar-core/src/rule_eval.rs:287-446 | A rule and its expansion reach one verdict on every list of edges exactly when nothing is in the scope of two of its globs. |
| RuleExpansion.TopDoubtExactly | crates/openinvar-core/src/rule_eval.rs:300-318 | A weak edge leaving the top layer leaves the rule satisfied; the expansion counts it exactly when a lower layer accepts its source as well. |
| RuleExpansion.SharedPathParts | crates/openinvar-core/src/rule_eval.rs:312-318 | Two layers that accept one path, and a weak edge leaving it: the rule is satisfied and its pair inconclusive. |
| RuleOrder.EvaluationIgnoresOrder | crates/openinvar-core/src/rule_eval.rs:177-219 | The same edges in any order give the same violations in the same order and the same doubt, for every rule. |
| RuleInput.EdgesIgnoreInsertion | crates/openinvar-core/src/rule_eval.rs:177-219 | The same edges are read in the same order however they came into the graph. |
| RuleInput.EndsAreStored | crates/openinvar-core/src/rule_eval.rs:143-148 | Every edge of a graph built by additions joins stored symbols, so rules read their files and never a name out of an id. |
| RuleInput.PackageAnswersByNameExactly | crates/openinvar-core/src/rule_eval.rs:138-148 | In such a graph a package answers by its name exactly while it is not stored; a stored one answers with the empty path. |
| RuleInput.PackageScopeExactly | crates/openinvar-core/src/rule_eval.rs:138-148 | A pattern reaches a package by name in all such graphs exactly when it accepts the name and the empty path alike. |
| RuleInput.PackageRuleVerdict | crates/openinvar-core/src/graph.rs:175-214 | The verdict of a dependency rule on one resolved import of a package turns on what the pattern says of the empty path. |
| RuleInput.LoneModuleIsReportedExactly | crates/openinvar-core/src/symbol_id.rs:54-75 | An empty file in scope is reported by each rule that makes demands of symbols, unless it is named as module symbols are. |
| RuleInput.ModuleIsExemptExactly | crates/openinvar-core/src/rule_eval.rs:500-505 | In any graph a stored module symbol of a file in scope is exempt from a demand exactly when its file is named as module symbols are. |
| RuleEval.ForbidEdges | crates/openinvar-core/src/rule_eval.rs:227-285 | Collects exactly the resolved in-scope edges into the forbidden scope, sorted, and counts the weak in-scope edges and their files. |
| RuleEval.LayersEdges | crates/openinvar-core/src/rule_eval.rs:307-378 | Collects exactly the upward resolved dependencies; weak edges count only where a layer above exists. |
| RuleEval.IndependenceEdges | crates/openinvar-core/src/rule_eval.rs:389-446 | Collects exactly the resolved references between different modules, and every weak edge leaving a module. |
| RuleEval.RequiresDependencyOf | crates/openinvar-core/src/rule_eval.rs:459-528 | Reports exactly the demanded symbols with neither a serving edge nor any weak outbound edge. |
| RuleEval.NoOrphansOf | crates/openinvar-core/src/rule_eval.rs:540-609 | Reports exactly the unreferenced symbols when nothing is weak; otherwise, if any would be reported, only the doubt. |
| RuleEval.RequiresTestOf | crates/openinvar-core/src/rule_eval.rs:634-732 | Reports exactly the demanded symbols no test edge reaches or leaves, or only the doubt while any edge is weak. |
| RuleEval.NoCyclesOf | crates/openinvar-core/src/rule_eval.rs:763-867 | One row per component of two nodes or more, named by its least member, with its walk; some row exactly when two distinct nodes reach each other. |
| RuleEval.CollectPairs | crates/openinvar-core/src/rule_eval.rs:773-818 | Gathers exactly the resolved in-scope dependency pairs, self-pairs dropped, and the weak edges in scope. |
| RuleEval.FindCycles | crates/openinvar-core/src/rule_eval.rs:836-857 | Visits every component once, whatever order they come in. |
| FanLimits.MaxFanInOf | crates/openinvar-core/src/rule_eval.rs:1048-1104 | Reports exactly the symbols with more resolved inbound edges than the limit; the doubt is what the symbols that may be over it turn on. |
| FanLimits.MaxFanOutOf | crates/openinvar-core/src/rule_eval.rs:918-982 | The same over distinct targets, a weak target already reached on resolved evidence not counting again. |
| FanLimits.FanVerdict | crates/openinvar-core/src/rule_eval.rs:1068-1095 | The report is non-empty exactly on a breach, and the doubt positive exactly when weak evidence could carry a symbol over. |
| RuleEval.EvaluateOne | crates/openinvar-core/src/rule_eval.rs:1236-1344 | The verdict is the one the evidence calls for; violations are carried exactly when violated, doubt exactly when inconclusive, and both are what the evaluator collected. |
| RuleEval.Evaluate | crates/openinvar-core/src/rule_eval.rs:1224-1234 | One such outcome per rule, in the order the rules were written. |
| RuleEval.Gate | crates/openinvar-core/src/rule_eval.rs:107-121 | A gate fails exactly on a violation at error severity; a failure stands in every completion, and so does a pass in which every rule's pass stands. |
| RuleEval.CollectedDecides | crates/openinvar-core/src/rule_eval.rs:1331-1341 | What a rule collects is non-empty exactly on a breach on record, and otherwise doubtful exactly when weak evidence in scope leaves it open. |
| RuleTerms.CrossingsAreReported | crates/openinvar-core/src/rule_eval.rs:227-446 | Forbid rules, layers and independence have a row for every resolved edge between paths the globs name, as often as there are such edges and for nothing else, by file, line and symbol. |
| RuleTerms.DoubtIsReported | crates/openinvar-core/src/rule_eval.rs:227-528 | Their doubt counts the weak edges that start where the rule looks, wherever they point, and names the files they are in. |
| RuleTerms.UntestedIsReported | crates/openinvar-core/src/rule_eval.rs:634-732 | With every edge resolved a row for exactly those stored symbols that the glob, the kind asked for and the change let in, no module named as its file among them, that no edge named `tests` starts or ends at; one each. |
| RuleTerms.UntestedIsDoubted | crates/openinvar-core/src/rule_eval.rs:646-732 | While some edge is weak only the doubt is reported, and that only where some such symbol has no sure test. |
| RuleTerms.NewOnlyReportsAdded | crates/openinvar-core/src/rule_eval.rs:672-699 | A rule about new symbols never reports any other, whatever the edges are. |
| RuleTerms.OrphansAreReported | crates/openinvar-core/src/rule_eval.rs:540-609 | A row for exactly the symbols in scope, and in no root, that no edge ends at; while some edge is weak only the doubt, where some symbol has no resolved edge ending at it. |
| RuleTerms.UnservedIsReported | crates/openinvar-core/src/rule_eval.rs:459-528 | A row for exactly the symbols in scope all of whose edges are resolved and end outside the target. |
| CycleTerms.CycleNodeTells | crates/openinvar-core/src/rule_eval.rs:735-746 | A file is its own node; at module level its node is what stands before the last slash of its path, and `.` where there is none. |
| CycleTerms.CyclesAreReported | crates/openinvar-core/src/rule_eval.rs:763-867 | One row for every cycle of two nodes or more, at the first node on it, over the resolved dependencies in scope. |
| FanTerms.FanInIsReported | crates/openinvar-core/src/rule_eval.rs:1048-1104 | A row for each symbol more resolved edges end at than allowed; the doubt counts the weak edges into each symbol they could take over the limit. |
| FanTerms.FanOutIsReported | crates/openinvar-core/src/rule_eval.rs:918-982 | A row for each symbol whose resolved edges reach more targets than allowed; the doubt counts the further targets of each symbol they could take over the limit. |
| VerdictTerms.OutcomeIsRead | crates/openinvar-core/src/rule_eval.rs:1236-1344 | Skipped exactly for a rule about new symbols with no change supplied; otherwise violated by a row, in doubt over a weak edge where there is none, and satisfied where there is neither. |
| VerdictTerms.GateFailsOnError | crates/openinvar-core/src/rule_eval.rs:107-121 | A gate fails exactly when some rule at error severity has a row. |
| VerdictTerms.CompletionsRetarget | crates/openinvar-core/src/rule_eval.rs:10-29 | A completion is the same edges with any targets at all for the weak ones. |
| VerdictTerms.KeepCounts | crates/openinvar-core/src/rule_eval.rs:10-29 | What is kept are the resolved edges and the weak ones chosen, each as often as it occurs. |
| GraphTerms.EdgesAreRead | crates/openinvar-core/src/rule_eval.rs:173-219 | Rules read each edge of the graph as often as it is there: imports and re-exports as dependencies, its kind by name, and counted where it is resolved. |
| RuleModel.FirstMatch | crates/openinvar-core/src/rule_eval.rs:314-318 | The first pattern that accepts a path claims it, and none does when no pattern accepts it. |
| RuleModel.LastSlash | crates/openinvar-core/src/rule_eval.rs:735-746 | Where the directory part of a path ends. |
| Cycles.ReachSet | crates/openinvar-core/src/rule_eval.rs:826-837 | Exactly the nodes reachable from a node, itself included. |
| Cycles.Component | crates/openinvar-core/src/rule_eval.rs:837-845 | Exactly the nodes that a node reaches and that reach it. |
| Cycles.CyclePath | crates/openinvar-core/src/rule_eval.rs:874-902 | Ends; the walk takes the least open hop at each step until none is open, and then returns to its start. |
| Cycles.WalkHops | crates/openinvar-core/src/rule_eval.rs:869-902 | The printed walk stays in the component, repeats no member before closing, and every hop before the last is a dependency. |
| Cycles.TwoMemberWalkCloses | crates/openinvar-core/src/rule_eval.rs:874-902 | In a component of two the closing hop is a dependency as well. |
| Cycles.ClosingHopMayBeNoEdge | crates/openinvar-core/src/rule_eval.rs:874-902 | A component of three whose printed closing hop is no dependency. |
| CycleClosing.ClosingHopIsSureExactly | crates/openinvar-core/src/rule_eval.rs:869-902 | Of the sizes a reported component can have, two is the only one in which the closing hop is always a dependency. |
| CycleClosing.ChainWalk | crates/openinvar-core/src/rule_eval.rs:874-902 | For every size from three on, a component whose printed closing hop is no dependency. |
| CycleClosing.ClosesWhenAllLeadBack | crates/openinvar-core/src/rule_eval.rs:874-902 | Where every member depends on the least one the closing hop is a dependency at any size. |
| Cycles.FileCycleIsModuleCycle | crates/openinvar-core/src/rule_eval.rs:735-746 | A cycle of files spanning two directories is a cycle of directories. |
| Continuity.WordCount | crates/openinvar-core/src/delta.rs:277-293 | One pass counts the maximal runs of word characters. |
| Continuity.PairingVouches | crates/openinvar-core/src/delta.rs:314-356 | A pairing keeps kind and language; of the six ranks only 0, 1, 2 and 4 are given, and a move is ranked by its signatures being equal. |
| Continuity.NameAloneNeverPairs | crates/openinvar-core/src/delta.rs:241-273 | A declaration with at most two characters left once its name is a space never supports a rename. |
| Continuity.RunsAreSparse | crates/openinvar-core/src/delta.rs:277-293 | A text has at most one word for every two of its characters. |
| Continuity.ReplaceBySelf | crates/openinvar-core/src/delta.rs:395-405 | Substituting a name by itself is a no-op, which is why a move's rank reduces to signature equality. |
| DeltaLaws.ContinuationExactly | crates/openinvar-core/src/delta.rs:314-340 | Two symbols are one moved exactly when they agree in kind, language and name and not in file; renamed, in place or elsewhere, exactly when only a declaration that says more than the name carries over. |
| DeltaLaws.RankIsStanding | crates/openinvar-core/src/delta.rs:342-356 | A rename in place ranks 0, a move with its declaration 1, a rename elsewhere 2, and a move without 4. |
| DeltaLaws.RunsAreWords | crates/openinvar-core/src/delta.rs:277-293 | The words counted are the maximal runs of letters, digits and underscores. |
| DeltaLaws.TrimTells | crates/openinvar-core/src/delta.rs:190-200 | A signature is taken without the space around it, and is of no use when nothing is left. |
| DeltaLaws.FirstReplaced | crates/openinvar-core/src/delta.rs:225-236 | Substitution changes the first occurrence and goes on behind it. |
| Delta.Greedy | crates/openinvar-core/src/delta.rs:410-433 | The pairing loop chooses a one-to-one set in which every candidate left out shares an end with a strictly smaller chosen one. |
| Delta.GreedyIsUnique | crates/openinvar-core/src/delta.rs:385-433 | There is only one such set, whatever order the candidates were found in. |
| Delta.GreedyIsMaximal | crates/openinvar-core/src/delta.rs:385-433 | No candidate left out could be added. |
| Delta.Compare | crates/openinvar-core/src/delta.rs:363-384 | Removed, added and changed symbols are exactly those, each in id order. |
| Delta.Enumerate | crates/openinvar-core/src/delta.rs:391-408 | Every compatible pair of a removed and an added symbol, once, with its rank. |
| Delta.Continue | crates/openinvar-core/src/delta.rs:414-430 | The chosen pairs with their symbols, in the order of the ids they had. |
| Delta.CompareSymbols | crates/openinvar-core/src/delta.rs:359-456 | The symbol half of a comparison is the one the greedy pairing determines. |
| DeltaLaws.PairsExactly | crates/openinvar-core/src/delta.rs:385-433 | Each continuity is a pair of a symbol gone and one new that are one; no symbol has two; a pair left out gave way to one of better rank or earlier ids at one of its ends. |
| DeltaLaws.UnrivalledIsPaired | crates/openinvar-core/src/delta.rs:385-433 | A pair with no rival at either end is always made. |
| DeltaLaws.LoneMove | crates/openinvar-core/src/delta.rs:385-456 | One symbol gone and one new that differ in file and not in kind, language or name: that pair as a move, and nothing added or removed. |
| Delta.DeltaIsDetermined | crates/openinvar-core/src/delta.rs:68-81 | Two graphs have one symbol delta. |
| Delta.IdsRebuilt | crates/openinvar-core/src/delta.rs:359-456 | Removed, added and continued ids rebuild the ids after from the ids before, none counted twice. |
| Delta.SignaturesAccountedFor | crates/openinvar-core/src/delta.rs:367-378 | A kept id is reported exactly when its signature changed, with both signatures. |
| Delta.EmptyMeansSame | crates/openinvar-core/src/delta.rs:83-93 | The symbol delta is empty exactly when ids and signatures are the same on both sides. |
| EdgeDelta.Group | crates/openinvar-core/src/delta.rs:163-169 | Edges gathered by identity, each group in the order it came. |
| EdgeDelta.Cancel | crates/openinvar-core/src/delta.rs:171-181 | Of each identity on both sides as many are dropped from the front as the smaller side has. |
| EdgeDelta.CancelMovedEdges | crates/openinvar-core/src/delta.rs:162-187 | What is left of each side is, per identity, the rows beyond as many as the other side has, in edge order. |
| EdgeDelta.CompareEdges | crates/openinvar-core/src/delta.rs:435-440 | The survivors are the edges of the set difference with at least as many lower lines of their identity as the other side has edges of it. |
| EdgeDelta.EdgesConserved | crates/openinvar-core/src/delta.rs:141-161 | Per identity, reported added is max(0, after - before) and reported removed max(0, before - after). |
| EdgeLaws.LinesConserved | crates/openinvar-core/src/delta.rs:141-161 | Of every edge as many lines are reported added as it has more after than before, and as many removed as it has fewer. |
| EdgeLaws.HighestReported | crates/openinvar-core/src/delta.rs:162-187 | What is reported is on one side only, and the highest lines of it. |
| EdgeLaws.ReportsInOrder | crates/openinvar-core/src/delta.rs:435-440 | Both lists are in order of their fields and hold nothing twice. |
| EdgeLaws.EdgesAreLinks | crates/openinvar-core/src/delta.rs:103-128 | The edges compared are the links of a graph: the ids at their ends, and their kind, file, line and resolution. |
| EdgeDelta.NothingReported | crates/openinvar-core/src/delta.rs:141-161 | No edge change is reported exactly when every identity holds as often before as after. |
| EdgeDelta.RenumberingIsNoChange | crates/openinvar-core/src/delta.rs:141-161 | Renumbering lines, no two edges of an identity run together, is reported as no change. |
| WholeDelta.Compute | crates/openinvar-core/src/delta.rs:359-456 | The delta of two graphs: the symbol half their tables determine and the edge half their edge sets determine. |
| WholeDelta.EmptyExactly | crates/openinvar-core/src/delta.rs:83-93 | A delta is empty exactly when ids, signatures and the number of edges of every identity agree. |
| WholeDelta.DeltaIsDetermined | crates/openinvar-core/src/delta.rs:68-81 | Graphs with the same symbols and the same set of edges give the same delta, however they were built. |
| Query.Search | crates/openinvar-core/src/query.rs:356-429 | The rows are, as often as held, the admitted edges leaving a node at distance below the limit, with that distance plus one as hop. |
| Query.Expand | crates/openinvar-core/src/query.rs:380-426 | One node's edges give their rows in order, and a place on the queue for each node met first. |
| Query.DistanceIsUnique | crates/openinvar-core/src/query.rs:371-380 | A node has one distance from the root. |
| QueryRows.SearchMeans | crates/openinvar-core/src/query.rs:349-429 | An edge is reported exactly when admitted and within reach, with its multiplicity. |
| SearchLaws.SearchMeets | crates/openinvar-core/src/query.rs:356-429 | Outgoing, an edge is a row at hop n exactly when a chain of n admitted edges, head to tail from the root, ends with it and no shorter one arrives at its source; incoming, the mirror image. |
| SearchLaws.AnswerTells | crates/openinvar-core/src/query.rs:435-474 | Every row answered is met at its hop; every fact met has a row no further and of no later referrer; no fact has two, and rows come by hop, file, line, target, kind, alias and referrer. |
| SearchLaws.AnswerAtRoot | crates/openinvar-core/src/query.rs:380-395 | Every admitted edge that leaves the root has a row of its fact at one hop, and every row at one hop leaves the root; arrives at it, for an incoming search. |
| SearchLaws.QueryAnswers | crates/openinvar-core/src/query.rs:272-310 | A query without a depth goes three hops, one deeper than ten fails, and an unknown root is not found. |
| QueryRows.DeeperOnlyAdds | crates/openinvar-core/src/query.rs:375-378 | A deeper search has the same rows up to the shallower depth, and only further ones besides. |
| QueryRows.NarrowingNeverAdds | crates/openinvar-core/src/query.rs:349-390 | With fewer kinds or a higher floor no edge is met that was not, and none sooner. |
| QueryRows.DedupeEdges | crates/openinvar-core/src/query.rs:450-474 | Sorted rows, exactly one per identity that occurs, and that one the first in row order. |
| QueryRows.SurvivorIsNearest | crates/openinvar-core/src/query.rs:443-449 | The surviving row has the least hop of its identity, and of those the least referrer. |
| QueryRows.Traverse | crates/openinvar-core/src/query.rs:356-474 | Fails exactly on an unknown root; otherwise one row for each identity met, the nearest of it. |
| QueryRows.NarrowerAnswers | crates/openinvar-core/src/query.rs:349-474 | A narrower question answers no fact the wider one does not, and none nearer. |
| QueryRows.QueryFrom | crates/openinvar-core/src/query.rs:272-310 | Depth defaults to 3 and fails above 10; otherwise the answer of the search. |
| FileImpact.FileImpactOf | crates/openinvar-core/src/query.rs:511-594 | Rows from outside, sorted and tallied by file, no reference twice: exactly the references of the edges that reach in and have the first referrer of their fact, each by the first of its facts. |
| FileImpact.AnswerLeads | crates/openinvar-core/src/query.rs:435-474 | Which row of a fact survives an incoming search does not turn on the root: it is the first referrer's among all admitted edges of that fact. |
| ImpactLaws.ListedExactly | crates/openinvar-core/src/query.rs:540-569 | A reference is listed exactly when an edge that makes it reaches in and has the first referrer of its fact. |
| ImpactLaws.AllReferencesListedExactly | crates/openinvar-core/src/query.rs:489-490 | Every reference that reaches in is listed exactly when each is made by such an edge. |
| ImpactLaws.EveryEdgeListedExactly | crates/openinvar-core/src/query.rs:489-490 | Every edge that reaches in has its row exactly when each has the first referrer of its fact and shares its reference with no other. |
| ImpactLaws.DependentExactly | crates/openinvar-core/src/query.rs:577-580 | A file is named exactly when the first fact of some reference comes from it. |
| ImpactLaws.DependentCounts | crates/openinvar-core/src/query.rs:577-580 | It is named with the number of those references. |
| ImpactLaws.AllDependentsExactly | crates/openinvar-core/src/query.rs:491-492 | Every file that reaches in is named exactly when each gives the first fact of some reference. |
| ImpactLaws.OneFileEachIsEnough | crates/openinvar-core/src/query.rs:491-492 | So it is where the references of each symbol lie in one file. |
| ImpactLaws.SafeIsReported | crates/openinvar-core/src/query.rs:493-497 | The flag is raised when everything that reaches in is resolved, and lowered when a listed reference has only unresolved edges to stand for it. |
| ImpactLaws.FlagIsRightExactly | crates/openinvar-core/src/query.rs:493-497 | The flag tells whether everything that reaches in is resolved, in whatever order edges are walked, exactly in these two cases. |
| ImpactLaws.SafestImpact | crates/openinvar-core/src/query.rs:540-594 | Every graph and file have an impact, and one in which each reference is stood for by a resolved edge wherever it can be. |
| ImpactLaws.RowsInOrder | crates/openinvar-core/src/query.rs:571-594 | Rows come by file, line, source and target; the flag is raised when all of them are resolved; the blind spots are the files with an unresolved edge anywhere. |
| ImpactWitnesses.SecondReferrerIsLeftOut | crates/openinvar-core/src/query.rs:489-497 | Two referrers on one line: the second is not listed, and its unresolved edge does not lower the flag. |
| ImpactWitnesses.SecondKindIsLeftOut | crates/openinvar-core/src/query.rs:560-568 | Two kinds of reference on one line: two facts, of which the second has no row and does not lower the flag. |
| ImpactWitnesses.SecondFileIsLeftOut | crates/openinvar-core/src/query.rs:491-492 | One symbol referring from the same line of two files: the second file is not named. |
| Petgraph.SwapRemoveTakesOne | crates/openinvar-core/src/graph.rs:229-231 | Swap-removal takes out exactly one occurrence. |
| Petgraph.DropNode | crates/openinvar-core/src/graph.rs:249-251 | Removing a node removes the edges at it; every other edge still joins the ids it joined, as often. |
| GraphModel.WithSymbolKeeps | crates/openinvar-core/src/graph.rs:103-173 | Adding or replacing a symbol keeps every index exact and touches no edge. |
| GraphModel.WithRelationshipKeeps | crates/openinvar-core/src/graph.rs:175-214 | Adding a relationship, package nodes included, keeps every index exact and every edge landing. |
| GraphTerms.RelationshipIsAdded | crates/openinvar-core/src/graph.rs:175-214 | An edge between the nodes of its ends, carrying what the relationship does; a package is stored first, named by its id without the markers; nothing for an unknown source or target. |
| Graph.InvarGraph.AddSymbol | crates/openinvar-core/src/graph.rs:103-134 | The whole new state: node, indexes and table, or a replacement. |
| Graph.InvarGraph.ReplaceSymbol | crates/openinvar-core/src/graph.rs:136-173 | The whole new state: moved between the name and file lists only where name or file changed. |
| Graph.InvarGraph.AddRelationship | crates/openinvar-core/src/graph.rs:175-214 | The whole new state: nothing for an unknown source, a package node where one is due, and one edge. |
| Graph.InvarGraph.RemoveRelationshipsInFile | crates/openinvar-core/src/graph.rs:216-233 | Every other file's edges stay, each as often; returns how many this file had and says how many went. |
| Graph.InvarGraph.RebuildNodeIndex | crates/openinvar-core/src/graph.rs:262-269 | The index is the exact inverse of the node weights. |
| Graph.InvarGraph.RemoveFile | crates/openinvar-core/src/graph.rs:235-260 | Exactly the file's reachable nodes go, with the edges at them; its symbols and every listing of them go; all else stays. |
| Graph.OtherFilesStay | crates/openinvar-core/src/graph.rs:235-260 | No node, symbol or edge of other files is removed. |
| Graph.RunsStaySound | crates/openinvar-core/src/graph.rs:103-269 | After any run of additions and removals the node index is exact, no edge dangles, and no index lists what is not there. |
| Graph.AddingRunsAreExact | crates/openinvar-core/src/graph.rs:103-214 | After any run of additions every index is exact and the node weights are the symbol keys. |
| Graph.RemovalIsCompleteExactly | crates/openinvar-core/src/graph.rs:243-259 | Removing a file leaves a well-formed graph exactly when each of its nodes in turn stands far enough from the end. |
| Graph.LastFileIsHalfRemoved | crates/openinvar-core/src/graph.rs:243-259 | Of a file indexed last, exactly the first half of the nodes goes. |
| Graph.ReaddedIsListedExactly | crates/openinvar-core/src/graph.rs:103-173 | A symbol added again after its file was removed is listed under its file and name exactly when its node had gone. |
| Graph.TwoSymbolsAreEnough | crates/openinvar-core/src/graph.rs:235-260 | A run that adds two symbols of one file and removes the file: the second is left behind, and is lost to the file index when added again. |
| Graph.TwoEdgesAreEnough | crates/openinvar-core/src/graph.rs:216-233 | Of two edges in one file, one is left behind. |
| Removal.EdgesGoneExactly | crates/openinvar-core/src/graph.rs:216-233 | None of a file's edges is left exactly when the last of them sat as many places from the end as the file has edges. |
| GraphTerms.OwnEdgesGo | crates/openinvar-core/src/graph.rs:216-233 | Other files' edges stay, each as often; none of the file's own is left exactly when each stands as many places from the end as the file has edges. |
| Removal.AllReachedExactly | crates/openinvar-core/src/graph.rs:243-254 | Every removal by stored index finds its node exactly when each stood far enough from the end for its turn. |
| Removal.NextNode | crates/openinvar-core/src/graph.rs:249-251 | A stored index still in range names its own node, and removing it keeps that true of the ones still pending. |
| CodecLaws.SnapshotRoundTrip | crates/openinvar-store/src/sqlite.rs:554-792 | Decoding an encoding gives the snapshot back, in every format version that can hold it. |
| CodecLayout.OneOfEverything | crates/openinvar-store/src/sqlite.rs:554-635 | A snapshot with one of everything, byte by byte. |
| CodecLayout.KindCodes | crates/openinvar-store/src/sqlite.rs:885-918 | Symbol kinds are 1 to 11 in declaration order, and no other byte is one. |
| CodecLayout.LanguageCodes | crates/openinvar-store/src/sqlite.rs:920-964 | Languages are 1 to 15 in declaration order, and no other byte is one. |
| CodecLayout.RelationshipCodes | crates/openinvar-store/src/sqlite.rs:985-1017 | Relationship kinds are 1 to 9 in declaration order, and no other byte is one. |
| CodecLayout.ScopeCodes | crates/openinvar-store/src/sqlite.rs:1019-1038 | Alias scopes are 1 to 4 in declaration order, and no other byte is one. |
| CodecLayout.OddResolutionIsWeak | crates/openinvar-store/src/sqlite.rs:965-983 | Every byte but one reads as the weakest resolution. |
| CodecLayout.OddFlagIsSet | crates/openinvar-store/src/sqlite.rs:841-848 | Any mark but zero has a string after it, and any flag but zero is set. |
| CodecLaws.LosslessExactly | crates/openinvar-store/src/sqlite.rs:554-792 | A snapshot survives exactly when every string and list length fits in 32 bits. |
| SnapshotIo.CrowdedIsLost | crates/openinvar-store/src/sqlite.rs:554-635 | A snapshot with a list of 2^32 short strings is written without an error and does not read back. |
| CodecLaws.SnapshotYields | crates/openinvar-store/src/sqlite.rs:637-792 | An accepted blob holds only what its version can hold. |
| CodecLaws.PrefixFree | crates/openinvar-store/src/sqlite.rs:777-781 | An accepted blob with bytes appended is rejected. |
| CodecLaws.TruncatedIsRejected | crates/openinvar-store/src/sqlite.rs:805-853 | Every proper prefix of an encoding is rejected. |
| CodecLaws.RewriteIsStable | crates/openinvar-store/src/sqlite.rs:554-792 | An accepted blob, re-encoded and decoded again, gives the same snapshot. |
| CodecLaws.OldLayoutReads | crates/openinvar-store/src/sqlite.rs:637-792 | A version's own layout reads as the snapshot with missing sections empty and missing resolutions structural. |
| Utf8.RoundTrip | crates/openinvar-store/src/sqlite.rs:828-840 | Decoding the bytes of a string gives the string back (RFC 3629, section 3). |
| CodecLayout.ScalarBytes | crates/openinvar-store/src/sqlite.rs:828-840 | A character comes out in one of the four forms of section 3 of RFC 3629. |
| Utf8.Canonical | crates/openinvar-store/src/sqlite.rs:828-840 | Accepted bytes are the encoding of what they decode to (RFC 3629, section 3). |
| SnapshotIo.ByteCursor.TakeU32 | crates/openinvar-store/src/sqlite.rs:816-827 | Takes four bytes, little-endian, or fails where fewer are left. |
| SnapshotIo.ByteCursor.TakeString | crates/openinvar-store/src/sqlite.rs:828-840 | Takes a length and that much valid UTF-8, or fails. |
| SnapshotIo.FromBytes | crates/openinvar-store/src/sqlite.rs:637-792 | The decoder accepts exactly what the format parses, and returns that. |
| SnapshotIo.ToBytes | crates/openinvar-store/src/sqlite.rs:554-635 | The encoder fails exactly on an overlong string, and otherwise writes the current layout. |
| SnapshotIo.SaveAndLoad | crates/openinvar-store/src/sqlite.rs:245-266 | What was stored is what is loaded, exactly when it fits. |
| Persistence.FromGraph | crates/openinvar-store/src/sqlite.rs:394-516 | Every collection of the graph, each in its order. |
| GraphTerms.EdgesAreStored | crates/openinvar-store/src/sqlite.rs:405-441 | Every edge is stored as often as it is there with all it carries, by file, line, source and target. |
| GraphTerms.TablesAreStored | crates/openinvar-store/src/sqlite.rs:394-516 | Symbols are stored by id and each count table as it is, by key. |
| GraphTerms.ListsAreStored | crates/openinvar-store/src/sqlite.rs:442-471 | Aliases are stored by file and then name, re-exports by name and then source, and both by key. |
| Persistence.IntoGraph | crates/openinvar-store/src/sqlite.rs:518-552 | A graph built by adding the stored symbols and then the stored edges, the side tables as stored. |
| Persistence.SnapshotIsDetermined | crates/openinvar-store/src/sqlite.rs:394-516 | One graph has one snapshot, whatever order its maps are walked in. |
| Persistence.PersistenceIsAFixedPoint | crates/openinvar-store/src/sqlite.rs:394-552 | For every graph additions can build, storing, restoring and storing again gives the same snapshot, edge for edge. |
| Persistence.PersistsExactly | crates/openinvar-store/src/sqlite.rs:394-552 | For any graph, that holds exactly when every edge joins two stored symbols. |
| Persistence.RemovalMayLoseAnEdge | crates/openinvar-store/src/sqlite.rs:394-552 | A run of additions and one removal arrives at a graph that loses an edge by being stored. |
| Persistence.RestoredIsWellFormed | crates/openinvar-store/src/sqlite.rs:518-552 | Any snapshot at all is restored to a well-formed graph. |
| Persistence.SameSnapshotSameGraph | crates/openinvar-store/src/sqlite.rs:394-516 | Graphs with one snapshot have the same symbols, the same edges as often, and the same side tables. |
| StoredGraph.StoreAndRestore | crates/openinvar-store/src/sqlite.rs:245-266 | A graph built by additions comes back from its own bytes with the same content and the same snapshot, whenever its lengths fit in 32 bits. |
| Revisions.GraphStore.SaveSnapshot | crates/openinvar-store/src/sqlite.rs:245-253 | Replaces the stored graph exactly when the snapshot encodes. |
| Revisions.GraphStore.SaveRevision | crates/openinvar-store/src/sqlite.rs:279-300 | The revision becomes the most recent, new or rewritten; one that does not encode changes nothing. |
| Revisions.GraphStore.LoadRevision | crates/openinvar-store/src/sqlite.rs:302-314 | What was last written under the name, or not found. |
| Revisions.GraphStore.ListRevisions | crates/openinvar-store/src/sqlite.rs:324-341 | Every revision once, the most recently written first. |
| Revisions.GraphStore.DeleteRevision | crates/openinvar-store/src/sqlite.rs:343-349 | Removes that revision and leaves the order of the rest. |
| Revisions.GraphStore.PruneRevisions | crates/openinvar-store/src/sqlite.rs:362-375 | Keeps exactly the newest `keep` and returns the rest, newest first. |
| Revisions.GraphStore.NextSequence | crates/openinvar-store/src/sqlite.rs:383-390 | One more than the highest sequence present, so above every row. |
| Revisions.RunOrder | crates/openinvar-store/src/sqlite.rs:279-390 | After any run of saves, deletes and prunes the revisions are listed by last write, each holding what was last written. |
| Revisions.Replay | crates/openinvar-store/src/sqlite.rs:279-390 | Played on a fresh store, any run ends with the list its last writes call for, under strictly falling sequences. |
| Revisions.SaveThenPrune | crates/openinvar-store/src/sqlite.rs:279-375 | A save followed by a prune that keeps at least one still loads what was saved, and leaves the newest. |
| Walk.WalkFrom | crates/openinvar-core/src/ast.rs:48-82 | The iterative walk visits exactly the recursive pre-order below the depth limit, counts it, and counts the subtrees it skips. |
| Walk.MoveOn | crates/openinvar-core/src/ast.rs:68-80 | Climbing finds the next node in pre-order or ends at the root, never leaving its subtree. |
| Walk.PreorderCovers | crates/openinvar-core/src/ast.rs:40-47 | The visited nodes are exactly those below the root within the limit. |
| Walk.PreorderNoRepeats | crates/openinvar-core/src/ast.rs:40-47 | No node is visited twice. |
| Walk.TruncatedExactly | crates/openinvar-core/src/ast.rs:21-38 | A walk reports truncation exactly when some node of the tree was not visited. |
| Wildcard.WildcardMatch | crates/openinvar-core/src/scan.rs:70-100 | An accepted pattern matches; on a text without a star the answer is the meaning of the pattern. |
| Wildcard.AgreesExactlyWithoutStars | crates/openinvar-core/src/scan.rs:79-82 | The matcher is right about a text under every pattern exactly when the text holds no star. |
| Wildcard.WitnessFails | crates/openinvar-core/src/scan.rs:79-82 | For every text with a star, a pattern that matches it and is refused. |
| Cache.HotQueryCache.PutEntry | crates/openinvar-store/src/cache.rs:40-52 | The entry goes to the front of the recency list, cut to the bound, evictions counted; the order is lost exactly with the last 64-bit tick. |
| Cache.HotQueryCache.Get | crates/openinvar-store/src/cache.rs:54-65 | Answers what is held and counts hit or miss; moves a hit to the front of the recency list, until the last 64-bit tick. |
| Cache.HotQueryCache.Invalidate | crates/openinvar-store/src/cache.rs:67-71 | Drops that entry and keeps the order of the rest. |
| Cache.EvictIfNeeded | crates/openinvar-store/src/cache.rs:95-121 | Eviction takes the oldest entries only, whatever order the map is walked in, and keeps exactly the newest while none has the largest tick. |
| Cache.OldestKey | crates/openinvar-store/src/cache.rs:101-113 | The scan finds a key of the least tick, or none when every entry has the largest. |
| Cache.Replay | crates/openinvar-store/src/cache.rs:40-93 | Under any run every get answers as the recency list does; the size keeps its bound and hits plus misses count the gets. |
| Cache.RunOrder | crates/openinvar-store/src/cache.rs:40-121 | After any run the resident keys are in order of last touch, each with the value last put under it. |
| Cache.PutPastLimit | crates/openinvar-store/src/cache.rs:40-52 | Past the last tick, with room for one entry, the one put next is the one evicted. |
| Placeholders.PlaceholdersRoundTrip | crates/openinvar-core/src/symbol_id.rs:98-138 | A placeholder parses as what it was written from, and as no other kind. |
| Placeholders.PlaceholdersRead | crates/openinvar-core/src/symbol_id.rs:91-138 | An id reads as a placeholder of either kind exactly when it is written as one. |
| DepthFirst.LookupTells | crates/openinvar-lang/src/lang/csharp/import_resolver.rs:320-344 | Looking a name up over links, cycles and all, answers exactly when a node reached has it, with what one of them has; a node comes before what is behind it. |
| CSharp.LookupMember | crates/openinvar-lang/src/lang/csharp/import_resolver.rs:320-344 | Ends on cyclic hierarchies, finds a member exactly when some type reachable over the bases declares it, and gives the one of the first such type depth first, the last name of each type's bases leading. |
| CSharp.FarAncestorWins | crates/openinvar-lang/src/lang/csharp/import_resolver.rs:320-344 | A member of a base's base wins over one that a base of a lesser name declares. |
| CSharp.ResolveFqn | crates/openinvar-lang/src/lang/csharp/import_resolver.rs:233-284 | An alias first, then the nearest enclosing namespace, then the one using that offers the name, then the global namespace. |
| CSharp.MeansOneThing | crates/openinvar-lang/src/lang/csharp/import_resolver.rs:233-284 | A name means one thing in a file. |
| CSharpLaws.FirstAliasDecides | crates/openinvar-lang/src/lang/csharp/import_resolver.rs:233-241 | The first alias of a name decides what it means, and means nothing where its target is no type. |
| CSharpLaws.NearestNamespaceDecides | crates/openinvar-lang/src/lang/csharp/import_resolver.rs:243-284 | Without an alias: the longest namespace that has the type, among those the file declares into and their prefixes up to a dot; then the one type that usings offer; then the global namespace. |
| CSharp.InnermostWins | crates/openinvar-lang/src/lang/csharp/import_resolver.rs:243-263 | A type in an inner namespace hides one of its name further out, the global namespace included. |
| CSharp.UsingsRefusedExactly | crates/openinvar-lang/src/lang/csharp/import_resolver.rs:265-284 | A name several usings offer, and nothing nearer, is refused exactly when the global namespace lacks it. |
| CSharp.AmbiguousUsingsYield | crates/openinvar-lang/src/lang/csharp/import_resolver.rs:265-284 | Two usings and the global namespace each offer a type of one name: the global one is chosen. |
| CSharp.ResolveType | crates/openinvar-lang/src/lang/csharp/import_resolver.rs:286-288 | Finds the symbol a name means, or says that it means none. |
| CSharp.ResolveMember | crates/openinvar-lang/src/lang/csharp/import_resolver.rs:290-318 | Finds what the first type to have one has: the type the owner names, and then for each `using static` in turn the type of its path and the one its simple name means. |
| CSharp.NamesOneMember | crates/openinvar-lang/src/lang/csharp/import_resolver.rs:290-318 | A member name names one member. |
| CSharpLaws.SimpleNameFollows | crates/openinvar-lang/src/lang/csharp/extractor.rs:470-472 | A path's simple name is what follows its last dot. |
| CSharp.OwnMemberShadows | crates/openinvar-lang/src/lang/csharp/import_resolver.rs:296-304 | A member on the type the owner names shadows one brought in statically. |
| CSharp.MemberIsNamedExactly | crates/openinvar-lang/src/lang/csharp/import_resolver.rs:290-318 | A member is found exactly when the type the owner names or one brought in statically has it. |
| CSharp.ResolveFile | crates/openinvar-lang/src/lang/csharp/import_resolver.rs:174-229 | Each reference bound, counted as unbound when nothing binds it, or dropped as an own namespace; only targets change. |
| CSharp.ResolvesOneWay | crates/openinvar-lang/src/lang/csharp/import_resolver.rs:174-229 | A file is resolved in one way. |
| CSharpLaws.LocalReference | crates/openinvar-lang/src/lang/csharp/import_resolver.rs:186-194 | A name is bound to the symbol of the type it means. |
| CSharpLaws.NamespaceReference | crates/openinvar-lang/src/lang/csharp/import_resolver.rs:196-217 | A using of a namespace the repository declares is passed over; of any other it becomes an import of a package. |
| CSharpLaws.MemberReference | crates/openinvar-lang/src/lang/csharp/import_resolver.rs:218-223 | Any other import is bound to the member it names. |
| CSharpLaws.MalformedReference | crates/openinvar-lang/src/lang/csharp/import_resolver.rs:181-226 | What begins like a placeholder and is written as none of them is passed over, and nothing else is. |
| CSharp.ResolveWithoutFacts | crates/openinvar-lang/src/lang/csharp/import_resolver.rs:163-172 | A file nothing is known of keeps its resolved references in order and counts every other one. |
| CSharp.ReferencesConserved | crates/openinvar-lang/src/lang/csharp/import_resolver.rs:174-230 | Kept, unbound and own-namespace usings account for every reference exactly when no placeholder is malformed. |
| CSharp.NoPlaceholderSurvives | crates/openinvar-lang/src/lang/csharp/import_resolver.rs:20-27 | With an index of proper ids no placeholder is left, and nothing but a target was changed. |
| CSharp.InnocentIsLost | crates/openinvar-lang/src/lang/csharp/import_resolver.rs:183-223 | A resolved reference whose path begins like a placeholder is dropped and not counted. |
| CSharpIndex.BuildIndex | crates/openinvar-lang/src/lang/csharp/import_resolver.rs:66-116 | A type's full name stands for its first declaration; a partial type's members are together under it, the last of a name standing. |
| CSharpLaws.TypesAreIndexed | crates/openinvar-lang/src/lang/csharp/import_resolver.rs:80-92 | Classes, interfaces and enums are indexed under the namespace of the last declaration of their name, and nothing else is. |
| CSharpLaws.MembersAreIndexed | crates/openinvar-lang/src/lang/csharp/import_resolver.rs:94-113 | Methods and properties are indexed under the full name of the type their id names, and nothing else is. |
| CSharpLaws.OwnerIsFirst | crates/openinvar-core/src/symbol_id.rs:77-89 | The id of a member names its owner before its own name. |
| CSharpLaws.TypeNamedTells | crates/openinvar-lang/src/lang/csharp/import_resolver.rs:128-143 | The last type of an id gives the full name that its references start at. |
| CSharpIndex.FillBases | crates/openinvar-lang/src/lang/csharp/import_resolver.rs:123-161 | A type's bases are exactly those some file's references name, as that file understands the names. |
| CSharpIndex.Resolve | crates/openinvar-lang/src/lang/csharp/import_resolver.rs:118-230 | The whole pass: the index of the files' symbols with those bases, and every file resolved against it. |
| CSharpIndex.PassLeavesNoPlaceholder | crates/openinvar-lang/src/lang/csharp/import_resolver.rs:20-27 | After the pass, where no symbol's id begins like a placeholder, none is left in any file and only targets were changed. |
| CSharpIndex.NoPlaceholderExactly | crates/openinvar-lang/src/lang/csharp/import_resolver.rs:20-27 | No placeholder survives, whatever the references, exactly when no symbol that can be asked for has an id that begins like one. |
| CIncludes.VisibleSymbols | crates/openinvar-lang/src/lang/c/include_resolver.rs:410-435 | A file sees a name as the definition that comes first going depth first, into the last include first. |
| CIncludes.SeenAsTells | crates/openinvar-lang/src/lang/c/include_resolver.rs:410-435 | A name is seen exactly when some file reached over includes defines it, and as one of those files has it, the file's own definition winning. |
| CIncludes.ReachableHeaders | crates/openinvar-lang/src/lang/c/include_resolver.rs:386-399 | Exactly the headers reached by one include or more, cycles allowed. |
| CIncludes.LinkPrototypes | crates/openinvar-lang/src/lang/c/include_resolver.rs:87-142 | A prototype is linked exactly when one function symbol of its name lies in a file that includes its header, and to that one. |
| CIncludes.LinkedByOneEntry | crates/openinvar-lang/src/lang/c/include_resolver.rs:104-137 | A prototype is linked exactly when a relationship of a file of its header's path is written to it and one entry of a function of its name stands in a file that includes the header, equal entries counting each. |
| CIncludes.LinkedToTheEntry | crates/openinvar-lang/src/lang/c/include_resolver.rs:104-137 | It is linked to the symbol of that entry. |
| CIncludes.PrototypeReads | crates/openinvar-lang/src/lang/c/include_resolver.rs:57-59 | An id reads as the prototype of a name exactly when it is written as one. |
| CIncludes.CandidateTells | crates/openinvar-lang/src/lang/c/include_resolver.rs:104-127 | The candidates are the function symbols of that name in files that include that header directly. |
| CIncludes.AmbiguousIsUnlinked | crates/openinvar-lang/src/lang/c/include_resolver.rs:129-137 | Two entries a header could mean leave it linked to neither, two of one file included. |
| CIncludes.ViaPrototypes | crates/openinvar-lang/src/lang/c/include_resolver.rs:223-233 | A name is reached through a prototype exactly when a reachable header's prototype of it is linked, and the last such header in path order decides. |

## Left out

- SQLite, schema creation, file-system checks, `created_at` and subprocesses: the two tables are a map and an optional blob.
- Parsing, extraction, scope analysis, the command line, rendering, the server and the watcher: I/O and grammars.
- Locks and parallel scans: every operation is modelled as one step at a time.
- The internals of petgraph's strongly-connected-components routine: components are computed by reachability instead.
- `glob::Pattern` and Unicode character classes: parameters of the model, of which nothing is assumed.
- The `naming-convention` and `no-field-removal` rules, audit, findings and coverage: filters and tables that would add only easy members.
- The rendered detail of a violation, which also breaks ties in its sort: violations here are told apart by file, line and symbol.
- Widths of counters and lines other than those the format writes and the cache's tick: sequences and counts are unbounded.
- The 16-bit kind mask: a set of kinds.
- Include-path resolution, typedef aliases and the rewriting sweep in the C resolver: the include graph is an input here.
- `symbol_usages`, alias labelling and root lookup by name: the root is an id.
- Incremental re-indexing, whose result is not promised to equal a rebuild.
- RuleEval.NoCyclesOf: the walk is returned beside the rows rather than rendered into them.
- A C# id with three colons in a row, on which the splitting of ids would panic: it is taken for an id without a name.
