/** Fan limits when a weak edge may turn out to point anywhere (rule_eval.rs): a
    breach stays a breach, and a pass survives exactly when there is room for every
    weak edge that could add to the count. */
module FanRetargeting {
  import opened Wrappers
  import opened Ir
  import opened RuleModel

  /** How many weak edges there are. */
  function WeakEdges(es: seq<Edge>): nat {
    if |es| == 0 then 0 else WeakEdges(es[..|es| - 1]) + if es[|es| - 1].gateSafe then 0 else 1
  }

  /** How many weak edges leave a symbol. */
  function WeakFrom(es: seq<Edge>, id: SymbolId): nat {
    if |es| == 0 then 0
    else WeakFrom(es[..|es| - 1], id) + if !es[|es| - 1].gateSafe && es[|es| - 1].from == id then 1 else 0
  }

  /** Room for every weak edge that could count against one symbol. */
  ghost predicate HasRoom(rule: RuleKind, es: seq<Edge>)
    requires IsFanRule(rule)
  {
    if rule.MaxFanIn? then forall id :: !IsExternalPackage(id) ==> FanIn(es, id, true) + WeakEdges(es) <= rule.threshold
    else forall id :: |FanOut(es, id, true)| + WeakFrom(es, id) <= rule.threshold
  }

  lemma FanInOfOneMore(es: seq<Edge>, e: Edge, id: SymbolId, gateSafe: bool)
    ensures FanIn(es + [e], id, gateSafe)
         == FanIn(es, id, gateSafe) + if e.gateSafe == gateSafe && e.to == id && !IsExternalPackage(e.to) then 1 else 0
  {
    assert (es + [e])[..|es|] == es;
  }

  /** What the last edge of a list adds to a symbol's targets. */
  lemma FanOutOfLast(es: seq<Edge>, id: SymbolId)
    requires |es| > 0
    ensures var e := es[|es| - 1]; var rest := FanOut(es[..|es| - 1], id, true);
      FanOut(es, id, true) == if e.gateSafe && e.from == id && !IsExternalPackage(e.to) then rest + {e.to} else rest
  {
    var n := |es| - 1;
    assert es == es[..n] + [es[n]];
  }

  lemma CompletesFront(es: seq<Edge>, cs: seq<Edge>)
    requires Completes(es, cs) && |es| > 0
    ensures Completes(es[..|es| - 1], cs[..|cs| - 1])
  {
  }

  // ── bounds on every completion ──────────────────────────────

  lemma {:induction false} FanInCompleted(es: seq<Edge>, cs: seq<Edge>, id: SymbolId)
    requires Completes(es, cs)
    ensures FanIn(es, id, true) <= FanIn(cs, id, true) <= FanIn(es, id, true) + WeakEdges(es)
  {
    if |es| > 0 {
      CompletesFront(es, cs);
      FanInCompleted(es[..|es| - 1], cs[..|cs| - 1], id);
    }
  }

  lemma {:induction false} ExternalCountsNothing(es: seq<Edge>, id: SymbolId)
    requires IsExternalPackage(id)
    ensures FanIn(es, id, true) == 0
  {
    if |es| > 0 { ExternalCountsNothing(es[..|es| - 1], id); }
  }

  lemma CountWith<T>(a: set<T>, x: T)
    ensures |a| <= |a + {x}| <= |a| + 1
  {
    if x in a { assert a + {x} == a; }
  }

  /** One edge more on either side. */
  lemma CountsTogether<T>(strong: set<T>, all: set<T>, weak: nat, x: T)
    requires strong <= all && |all| <= |strong| + weak
    ensures strong + {x} <= all + {x} && |all + {x}| <= |strong + {x}| + weak
    ensures strong <= all + {x} && |all + {x}| <= |strong| + weak + 1
  {
    CountWith(all, x);
    if x in all { assert all + {x} == all; }
    CountWith(strong, x);
  }

  lemma FanOutStep(es: seq<Edge>, cs: seq<Edge>, id: SymbolId)
    requires |es| == |cs| > 0
    requires var e, c := es[|es| - 1], cs[|cs| - 1]; c == if e.gateSafe then e else e.(to := c.to, gateSafe := true)
    requires var n := |es| - 1;
      && FanOut(es[..n], id, true) <= FanOut(cs[..n], id, true)
      && |FanOut(cs[..n], id, true)| <= |FanOut(es[..n], id, true)| + WeakFrom(es[..n], id)
    ensures FanOut(es, id, true) <= FanOut(cs, id, true)
    ensures |FanOut(cs, id, true)| <= |FanOut(es, id, true)| + WeakFrom(es, id)
  {
    hide FanOut, IsExternalPackage;
    var n := |es| - 1;
    FanOutOfLast(es, id);
    FanOutOfLast(cs, id);
    CountsTogether(FanOut(es[..n], id, true), FanOut(cs[..n], id, true), WeakFrom(es[..n], id), cs[n].to);
  }

  lemma {:induction false} FanOutCompleted(es: seq<Edge>, cs: seq<Edge>, id: SymbolId)
    requires Completes(es, cs)
    ensures FanOut(es, id, true) <= FanOut(cs, id, true)
    ensures |FanOut(cs, id, true)| <= |FanOut(es, id, true)| + WeakFrom(es, id)
  {
    if |es| == 0 {
      assert es == cs == [];
    } else {
      CompletesFront(es, cs);
      FanOutCompleted(es[..|es| - 1], cs[..|cs| - 1], id);
      FanOutStep(es, cs, id);
      hide FanOut, IsExternalPackage;
    }
  }

  lemma CompletesOneMore(es: seq<Edge>, cs: seq<Edge>, c: Edge)
    requires |es| > 0 && Completes(es[..|es| - 1], cs)
    requires c == if es[|es| - 1].gateSafe then es[|es| - 1] else es[|es| - 1].(to := c.to, gateSafe := true)
    ensures Completes(es, cs + [c])
  {
  }

  // ── completions that reach the bounds ───────────────────────

  /** Every weak edge turned on one symbol. */
  function AllTo(es: seq<Edge>, id: SymbolId): seq<Edge> {
    if |es| == 0 then []
    else
      var e := es[|es| - 1];
      AllTo(es[..|es| - 1], id) + [if e.gateSafe then e else e.(to := id, gateSafe := true)]
  }

  lemma {:induction false} AllToReaches(es: seq<Edge>, id: SymbolId)
    requires !IsExternalPackage(id)
    ensures Completes(es, AllTo(es, id))
    ensures FanIn(AllTo(es, id), id, true) == FanIn(es, id, true) + WeakEdges(es)
  {
    if |es| > 0 {
      var n := |es| - 1;
      AllToReaches(es[..n], id);
      var c := if es[n].gateSafe then es[n] else es[n].(to := id, gateSafe := true);
      CompletesOneMore(es, AllTo(es[..n], id), c);
      FanInOfOneMore(AllTo(es[..n], id), c, id, true);
      hide Completes, IsExternalPackage;
    }
  }

  /** Names of a given length, none of them a package. */
  function Fresh(k: nat): (s: string)
    ensures |s| == k && (k > 0 ==> s[0] == 'z')
  {
    if k == 0 then "" else "z" + Fresh(k - 1)
  }

  /** Every weak edge turned on a symbol of its own. */
  function Spread(es: seq<Edge>, base: nat): seq<Edge> {
    if |es| == 0 then []
    else
      var e := es[|es| - 1];
      Spread(es[..|es| - 1], base) + [if e.gateSafe then e else e.(to := Fresh(base + |es|), gateSafe := true)]
  }

  function FreshTargets(es: seq<Edge>, id: SymbolId, base: nat): set<SymbolId> {
    if |es| == 0 then {}
    else
      var e := es[|es| - 1];
      FreshTargets(es[..|es| - 1], id, base) + if !e.gateSafe && e.from == id then {Fresh(base + |es|)} else {}
  }

  lemma {:induction false} FreshTargetsAreNew(es: seq<Edge>, id: SymbolId, base: nat)
    ensures |FreshTargets(es, id, base)| == WeakFrom(es, id)
    ensures forall t :: t in FreshTargets(es, id, base) ==> base < |t| <= base + |es|
  {
    if |es| > 0 { FreshTargetsAreNew(es[..|es| - 1], id, base); }
  }

  lemma SpreadOfLast(es: seq<Edge>, id: SymbolId, base: nat)
    requires |es| > 0
    ensures var e := es[|es| - 1]; var all := FanOut(Spread(es[..|es| - 1], base), id, true);
      FanOut(Spread(es, base), id, true)
      == if e.from != id || (e.gateSafe && IsExternalPackage(e.to)) then all
         else if e.gateSafe then all + {e.to}
         else all + {Fresh(base + |es|)}
  {
    var cs := Spread(es, base);
    assert cs[..|cs| - 1] == Spread(es[..|es| - 1], base);
    FanOutOfLast(cs, id);
    hide FanOut;
    assert !IsExternalPackage(Fresh(base + |es|)) by { assert "ext::"[0] == 'e'; }
  }

  lemma {:induction false} SpreadCompletes(es: seq<Edge>, base: nat)
    ensures Completes(es, Spread(es, base))
  {
    if |es| > 0 {
      var n := |es| - 1;
      SpreadCompletes(es[..n], base);
      var c := if es[n].gateSafe then es[n] else es[n].(to := Fresh(base + |es|), gateSafe := true);
      CompletesOneMore(es, Spread(es[..n], base), c);
      hide Completes;
    }
  }

  lemma {:induction false} SpreadReaches(es: seq<Edge>, id: SymbolId, base: nat)
    ensures FanOut(Spread(es, base), id, true) == FanOut(es, id, true) + FreshTargets(es, id, base)
  {
    if |es| == 0 {
    } else {
      SpreadReaches(es[..|es| - 1], id, base);
      FanOutOfLast(es, id);
      SpreadOfLast(es, id, base);
      hide FanOut, Fresh, Spread, IsExternalPackage;
    }
  }

  lemma {:induction false} LengthBound(ids: set<SymbolId>) returns (bound: nat)
    ensures forall t :: t in ids ==> |t| <= bound
    decreases ids
  {
    if ids == {} {
      bound := 0;
    } else {
      var t :| t in ids;
      var rest := LengthBound(ids - {t});
      bound := rest + |t|;
    }
  }

  lemma SpreadCounts(es: seq<Edge>, id: SymbolId) returns (cs: seq<Edge>)
    ensures Completes(es, cs) && |FanOut(cs, id, true)| == |FanOut(es, id, true)| + WeakFrom(es, id)
  {
    var base := LengthBound(FanOut(es, id, true));
    cs := Spread(es, base);
    SpreadCompletes(es, base);
    SpreadReaches(es, id, base);
    FreshTargetsAreNew(es, id, base);
    var strong, more := FanOut(es, id, true), FreshTargets(es, id, base);
    hide FanOut, FreshTargets, Spread, Completes;
    assert strong !! more;
  }

  // ── the verdicts ────────────────────────────────────────────

  /** A breach of a fan limit stands wherever the weak edges really point. */
  lemma FanBreachStands(w: World, rule: RuleKind, added: Option<set<SymbolId>>, es: seq<Edge>, cs: seq<Edge>)
    requires IsFanRule(rule) && Completes(es, cs) && VerdictOf(w, rule, added, es) == Violated
    ensures !Holds(w, rule, added, cs)
  {
    if rule.MaxFanIn? {
      var id :| FanIn(es, id, true) > rule.threshold;
      FanInCompleted(es, cs, id);
    } else {
      var id :| |FanOut(es, id, true)| > rule.threshold;
      FanOutCompleted(es, cs, id);
      CountBelow(FanOut(es, id, true), FanOut(cs, id, true));
    }
  }

  lemma CountBelow<T>(a: set<T>, b: set<T>)
    requires a <= b
    ensures |a| <= |b|
  {
    assert b == a + (b - a);
  }

  /** A fan limit is kept wherever the weak edges really point exactly when there is
      room for all of them. */
  lemma FanHoldsExactly(w: World, rule: RuleKind, added: Option<set<SymbolId>>, es: seq<Edge>)
    requires IsFanRule(rule)
    ensures (forall cs :: Completes(es, cs) ==> Holds(w, rule, added, cs)) <==> HasRoom(rule, es)
  {
    hide FanIn, FanOut, Completes, IsExternalPackage;
    if HasRoom(rule, es) {
      forall cs | Completes(es, cs) ensures Holds(w, rule, added, cs) { RoomHolds(w, rule, added, es, cs); }
    } else if rule.MaxFanIn? {
      var id :| !IsExternalPackage(id) && FanIn(es, id, true) + WeakEdges(es) > rule.threshold;
      AllToReaches(es, id);
      assert !Holds(w, rule, added, AllTo(es, id));
    } else {
      var id :| |FanOut(es, id, true)| + WeakFrom(es, id) > rule.threshold;
      var cs := SpreadCounts(es, id);
      assert !Holds(w, rule, added, cs);
    }
  }

  lemma RoomHolds(w: World, rule: RuleKind, added: Option<set<SymbolId>>, es: seq<Edge>, cs: seq<Edge>)
    requires IsFanRule(rule) && HasRoom(rule, es) && Completes(es, cs)
    ensures Holds(w, rule, added, cs)
  {
    hide FanIn, FanOut, Completes, IsExternalPackage;
    if rule.MaxFanIn? {
      forall id ensures FanIn(cs, id, true) <= rule.threshold {
        if IsExternalPackage(id) { ExternalCountsNothing(cs, id); } else { FanInCompleted(es, cs, id); }
      }
    } else {
      forall id ensures |FanOut(cs, id, true)| <= rule.threshold { FanOutCompleted(es, cs, id); }
    }
  }
}
