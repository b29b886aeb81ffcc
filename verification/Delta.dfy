/** The symbol half of a graph delta (delta.rs): a greedy, one-to-one pairing of
    removals with additions over a totally ordered list of candidates. */
module Delta {
  import opened Wrappers
  import opened Ir
  import opened Ordering
  import opened Continuity

  /** Two symbol tables, each keyed by id, and the character classes. */
  datatype Change = Change(cc: CharClass, before: map<SymbolId, Symbol>, after: map<SymbolId, Symbol>) {
    ghost predicate WellKeyed() {
      && (forall id :: id in before ==> before[id].id == id)
      && (forall id :: id in after ==> after[id].id == id)
    }

    function Gone(): set<SymbolId> { before.Keys - after.Keys }

    function New(): set<SymbolId> { after.Keys - before.Keys }
  }

  datatype Candidate = Candidate(rank: nat, gone: SymbolId, came: SymbolId, how: Continuation)

  datatype ContinuedSymbol = ContinuedSymbol(before: Symbol, after: Symbol, how: Continuation)

  datatype SignatureChange = SignatureChange(before: Symbol, after: Symbol)

  datatype SymbolDelta = SymbolDelta(
    added: seq<Symbol>, removed: seq<Symbol>,
    continuities: seq<ContinuedSymbol>, signatureChanges: seq<SignatureChange>)

  function CandidateKey(c: Candidate): SortKey { [Num(c.rank), Text(c.gone), Text(c.came), Num(c.how.Rank())] }
  function SymbolKey(s: Symbol): SortKey { TextKey(s.id) }
  function ContinuedKey(c: ContinuedSymbol): SortKey { TextKey(c.before.id) }
  function ChangedKey(c: SignatureChange): SortKey { TextKey(c.before.id) }

  lemma CandidateKeyTells(a: Candidate, b: Candidate)
    requires CandidateKey(a) == CandidateKey(b)
    ensures a == b
  {
    assert CandidateKey(a)[0] == CandidateKey(b)[0] && CandidateKey(a)[1] == CandidateKey(b)[1];
    assert CandidateKey(a)[2] == CandidateKey(b)[2] && CandidateKey(a)[3] == CandidateKey(b)[3];
  }

  // ── what the pairing is ─────────────────────────────────────

  function CandidateFor(ch: Change, o: SymbolId, n: SymbolId): Option<Candidate>
    requires o in ch.before && n in ch.after
  {
    match ContinuationBetween(ch.cc, ch.before[o], ch.after[n])
    case None => None
    case Some(how) => Some(Candidate(RankOf(ch.cc, ch.before[o], ch.after[n], how), o, n, how))
  }

  function Candidates(ch: Change): set<Candidate> {
    set o, n | o in ch.Gone() && n in ch.New() && CandidateFor(ch, o, n).Some? :: CandidateFor(ch, o, n).value
  }

  predicate Share(a: Candidate, b: Candidate) { a.gone == b.gone || a.came == b.came }

  ghost predicate OneToOne(m: set<Candidate>) {
    forall a, b :: a in m && b in m && Share(a, b) ==> a == b
  }

  /** A better candidate that was chosen stands in this one's way. */
  ghost predicate Blocked(m: set<Candidate>, c: Candidate) {
    exists b :: b in m && Share(b, c) && Less(CandidateKey(b), CandidateKey(c))
  }

  ghost predicate IsGreedyMatching(cs: set<Candidate>, m: set<Candidate>) {
    m <= cs && OneToOne(m) && forall c :: c in cs && c !in m ==> Blocked(m, c)
  }

  /** Nothing more could be paired: every candidate left out touches a chosen one. */
  lemma GreedyIsMaximal(cs: set<Candidate>, m: set<Candidate>, more: Candidate)
    requires IsGreedyMatching(cs, m) && more in cs && more !in m
    ensures !OneToOne(m + {more})
  {
    var b :| b in m && Share(b, more) && Less(CandidateKey(b), CandidateKey(more));
    assert b in m + {more} && more in m + {more};
  }

  lemma {:induction false} LeastCandidate(cs: set<Candidate>) returns (least: Candidate)
    requires cs != {}
    ensures least in cs && forall c :: c in cs ==> Le(CandidateKey(least), CandidateKey(c))
    decreases cs
  {
    var some :| some in cs;
    least := some;
    Reflexive(CandidateKey(some));
    if cs != {some} {
      assert cs - {some} != {};
      var other := LeastCandidate(cs - {some});
      Total(CandidateKey(some), CandidateKey(other));
      if Le(CandidateKey(other), CandidateKey(some)) {
        least := other;
      } else {
        forall c | c in cs - {some} ensures Le(CandidateKey(some), CandidateKey(c)) {
          Transitive(CandidateKey(some), CandidateKey(other), CandidateKey(c));
        }
      }
    }
  }

  lemma NotOnlyInOne(cs: set<Candidate>, m: set<Candidate>, n: set<Candidate>, c: Candidate)
    requires IsGreedyMatching(cs, m) && IsGreedyMatching(cs, n) && c in m
    requires forall x :: x in m - n || x in n - m ==> Le(CandidateKey(c), CandidateKey(x))
    ensures c in n
  {
    if c !in n {
      var b :| b in n && Share(b, c) && Less(CandidateKey(b), CandidateKey(c));
      if b !in m {
        Total(CandidateKey(b), CandidateKey(c));
        assert false;
      }
      assert false;
    }
  }

  /** There is only one such pairing, so neither the order the graphs were built
      in nor the order candidates were found in can matter. */
  lemma GreedyIsUnique(cs: set<Candidate>, m: set<Candidate>, n: set<Candidate>)
    requires IsGreedyMatching(cs, m) && IsGreedyMatching(cs, n)
    ensures m == n
  {
    var differ := (m - n) + (n - m);
    if differ != {} {
      var c := LeastCandidate(differ);
      if c in m { NotOnlyInOne(cs, m, n, c); } else { NotOnlyInOne(cs, n, m, c); }
      assert false;
    }
  }

  function AsSet(cs: seq<Candidate>): set<Candidate> { set c | c in cs }

  // ── choosing ────────────────────────────────────────────────

  /** The pairing loop: best candidate first, each side used once. */
  method Greedy(candidates: seq<Candidate>)
    returns (chosen: seq<Candidate>, pairedBefore: set<SymbolId>, pairedAfter: set<SymbolId>)
    requires StrictlySortedBy(CandidateKey, candidates)
    ensures IsGreedyMatching(AsSet(candidates), AsSet(chosen))
    ensures forall i, j :: 0 <= i < j < |chosen| ==> chosen[i] != chosen[j]
    ensures pairedBefore == set c | c in chosen :: c.gone
    ensures pairedAfter == set c | c in chosen :: c.came
  {
    chosen, pairedBefore, pairedAfter := [], {}, {};
    for i := 0 to |candidates|
      invariant Chosen(candidates, i, chosen)
      invariant pairedBefore == set c | c in chosen :: c.gone
      invariant pairedAfter == set c | c in chosen :: c.came
    {
      var c := candidates[i];
      ChosenNext(candidates, i, chosen);
      if c.gone in pairedBefore || c.came in pairedAfter {
        var b :| b in chosen && Share(b, c);
        continue;
      }
      assert forall b :: b in chosen ==> !Share(b, c);
      pairedBefore, pairedAfter := pairedBefore + {c.gone}, pairedAfter + {c.came};
      chosen := chosen + [c];
    }
    ChosenAll(candidates, chosen);
  }

  ghost predicate Chosen(candidates: seq<Candidate>, n: nat, chosen: seq<Candidate>)
    requires n <= |candidates|
  {
    && (forall c :: c in chosen ==> c in candidates[..n])
    && (forall i, j :: 0 <= i < j < |chosen| ==> !Share(chosen[i], chosen[j]))
    && (forall c :: c in candidates[..n] && c !in chosen ==> Stopped(chosen, c))
  }

  ghost predicate Stopped(chosen: seq<Candidate>, c: Candidate) {
    exists b :: b in chosen && Share(b, c) && Less(CandidateKey(b), CandidateKey(c))
  }

  lemma ChosenNext(candidates: seq<Candidate>, i: nat, chosen: seq<Candidate>)
    requires i < |candidates| && StrictlySortedBy(CandidateKey, candidates) && Chosen(candidates, i, chosen)
    ensures (exists b :: b in chosen && Share(b, candidates[i])) ==> Chosen(candidates, i + 1, chosen)
    ensures (forall b :: b in chosen ==> !Share(b, candidates[i])) ==>
      Chosen(candidates, i + 1, chosen + [candidates[i]])
  {
    var c := candidates[i];
    assert candidates[..i + 1] == candidates[..i] + [c];
    forall b | b in chosen ensures Less(CandidateKey(b), CandidateKey(c)) {
      var k :| 0 <= k < i && candidates[k] == b;
    }
    forall x | x in candidates[..i] && x !in chosen
      ensures Stopped(chosen, x) && Stopped(chosen + [c], x)
    {
      var b :| b in chosen && Share(b, x) && Less(CandidateKey(b), CandidateKey(x));
      assert b in chosen + [c];
    }
  }

  lemma ChosenAll(candidates: seq<Candidate>, chosen: seq<Candidate>)
    requires Chosen(candidates, |candidates|, chosen)
    ensures IsGreedyMatching(AsSet(candidates), AsSet(chosen))
    ensures forall i, j :: 0 <= i < j < |chosen| ==> chosen[i] != chosen[j]
  {
    assert candidates[..|candidates|] == candidates;
    var cs, m := AsSet(candidates), AsSet(chosen);
    forall a, b | a in m && b in m && Share(a, b) ensures a == b {
      var i :| 0 <= i < |chosen| && chosen[i] == a;
      var j :| 0 <= j < |chosen| && chosen[j] == b;
      assert Share(b, a);
    }
    forall c | c in cs && c !in m ensures Blocked(m, c) {
      var b :| b in chosen && Share(b, c) && Less(CandidateKey(b), CandidateKey(c));
      assert b in m;
    }
    forall i, j | 0 <= i < j < |chosen| ensures chosen[i] != chosen[j] { assert !Share(chosen[i], chosen[j]); }
  }

  // ── the delta ───────────────────────────────────────────────

  function ContinuedFor(ch: Change, c: Candidate): ContinuedSymbol
    requires c.gone in ch.before && c.came in ch.after
  {
    ContinuedSymbol(ch.before[c.gone], ch.after[c.came], c.how)
  }

  function GoneIn(m: set<Candidate>): set<SymbolId> { set c | c in m :: c.gone }
  function CameIn(m: set<Candidate>): set<SymbolId> { set c | c in m :: c.came }

  function ChangedIds(ch: Change): set<SymbolId> {
    set id | id in ch.before && id in ch.after && ch.before[id].signature != ch.after[id].signature
  }

  /** The symbols with these ids, each once, in id order. */
  ghost predicate ListsSymbols(table: map<SymbolId, Symbol>, ids: set<SymbolId>, xs: seq<Symbol>) {
    && ids <= table.Keys && StrictlySortedBy(SymbolKey, xs)
    && forall s :: s in xs <==> s.id in ids && s == table[s.id]
  }

  ghost predicate ListsChanges(ch: Change, ids: set<SymbolId>, xs: seq<SignatureChange>) {
    && ids <= ch.before.Keys && ids <= ch.after.Keys && StrictlySortedBy(ChangedKey, xs)
    && forall x :: x in xs <==> x.before.id in ids && x == SignatureChange(ch.before[x.before.id], ch.after[x.before.id])
  }

  ghost predicate ListsContinued(ch: Change, m: set<Candidate>, xs: seq<ContinuedSymbol>) {
    && m <= Candidates(ch) && StrictlySortedBy(ContinuedKey, xs)
    && forall x :: x in xs <==> exists c :: c in m && x == ContinuedFor(ch, c)
  }

  ghost predicate Describes(ch: Change, m: set<Candidate>, d: SymbolDelta) {
    && IsGreedyMatching(Candidates(ch), m)
    && ListsSymbols(ch.after, ch.New() - CameIn(m), d.added)
    && ListsSymbols(ch.before, ch.Gone() - GoneIn(m), d.removed)
    && ListsContinued(ch, m, d.continuities)
    && ListsChanges(ch, ChangedIds(ch), d.signatureChanges)
  }

  ghost predicate IsSymbolDelta(ch: Change, d: SymbolDelta) { exists m :: Describes(ch, m, d) }

  lemma AppendSorted<T(!new)>(key: T -> SortKey, xs: seq<T>, y: T)
    requires StrictlySortedBy(key, xs) && forall x :: x in xs ==> Less(key(x), key(y))
    ensures StrictlySortedBy(key, xs + [y])
  {
  }

  lemma EarlierId(order: seq<SymbolId>, i: nat)
    requires i < |order| && StrictlySortedBy(TextKey, order)
    ensures forall id :: id in order[..i] ==> Less(TextKey(id), TextKey(order[i]))
    ensures order[i] !in order[..i] && order[..i + 1] == order[..i] + [order[i]]
  {
    forall id | id in order[..i] ensures Less(TextKey(id), TextKey(order[i])) {
      var k :| 0 <= k < i && order[k] == id;
    }
  }

  function Among(order: seq<SymbolId>, ids: set<SymbolId>): set<SymbolId> { set id | id in order && id in ids }

  lemma ListNextSymbol(table: map<SymbolId, Symbol>, order: seq<SymbolId>, i: nat, ids: set<SymbolId>, xs: seq<Symbol>)
    requires i < |order| && StrictlySortedBy(TextKey, order)
    requires ids <= table.Keys && forall id :: id in table ==> table[id].id == id
    requires ListsSymbols(table, Among(order[..i], ids), xs)
    ensures ListsSymbols(table, Among(order[..i + 1], ids), if order[i] in ids then xs + [table[order[i]]] else xs)
  {
    EarlierId(order, i);
    if order[i] in ids {
      AppendSorted(SymbolKey, xs, table[order[i]]);
    }
  }

  lemma ListNextChange(ch: Change, order: seq<SymbolId>, i: nat, xs: seq<SignatureChange>)
    requires i < |order| && StrictlySortedBy(TextKey, order) && ch.WellKeyed()
    requires ListsChanges(ch, Among(order[..i], ChangedIds(ch)), xs)
    ensures ListsChanges(ch, Among(order[..i + 1], ChangedIds(ch)),
      if order[i] in ChangedIds(ch) then xs + [SignatureChange(ch.before[order[i]], ch.after[order[i]])] else xs)
  {
    EarlierId(order, i);
    if order[i] in ChangedIds(ch) {
      AppendSorted(ChangedKey, xs, SignatureChange(ch.before[order[i]], ch.after[order[i]]));
    }
  }

  /** Removals, additions and changed signatures, each in id order. */
  method Compare(ch: Change) returns (removed: seq<Symbol>, added: seq<Symbol>, changes: seq<SignatureChange>)
    requires ch.WellKeyed()
    ensures ListsSymbols(ch.before, ch.Gone(), removed)
    ensures ListsSymbols(ch.after, ch.New(), added)
    ensures ListsChanges(ch, ChangedIds(ch), changes)
  {
    var order := InOrder(TextKey, ch.before.Keys);
    removed, added, changes := [], [], [];
    for i := 0 to |order|
      invariant ListsSymbols(ch.before, Among(order[..i], ch.Gone()), removed)
      invariant ListsChanges(ch, Among(order[..i], ChangedIds(ch)), changes)
    {
      var id := order[i];
      assert id in ch.before;
      ListNextSymbol(ch.before, order, i, ch.Gone(), removed);
      ListNextChange(ch, order, i, changes);
      if id !in ch.after {
        removed := removed + [ch.before[id]];
      } else if ch.after[id].signature != ch.before[id].signature {
        changes := changes + [SignatureChange(ch.before[id], ch.after[id])];
      }
    }
    assert order[..|order|] == order;
    assert Among(order, ch.Gone()) == ch.Gone() && Among(order, ChangedIds(ch)) == ChangedIds(ch);
    order := InOrder(TextKey, ch.after.Keys);
    for i := 0 to |order|
      invariant ListsSymbols(ch.after, Among(order[..i], ch.New()), added)
    {
      assert order[i] in ch.after;
      ListNextSymbol(ch.after, order, i, ch.New(), added);
      if order[i] !in ch.before { added := added + [ch.after[order[i]]]; }
    }
    assert order[..|order|] == order;
    assert Among(order, ch.New()) == ch.New();
  }

  lemma CandidateEnds(ch: Change, c: Candidate)
    requires c in Candidates(ch)
    ensures c.gone in ch.Gone() && c.came in ch.New() && CandidateFor(ch, c.gone, c.came) == Some(c)
  {
  }

  /** Every compatible pair, each once. */
  method Enumerate(ch: Change, removed: seq<Symbol>, added: seq<Symbol>) returns (found: set<Candidate>)
    requires ch.WellKeyed()
    requires ListsSymbols(ch.before, ch.Gone(), removed) && ListsSymbols(ch.after, ch.New(), added)
    ensures found == Candidates(ch)
  {
    found := {};
    for i := 0 to |removed|
      invariant found == CandidatesOf(ch, removed[..i], added)
    {
      var gone := removed[i];
      assert gone in removed;
      ghost var before := found;
      for j := 0 to |added|
        invariant found == before + CandidatesOf(ch, [gone], added[..j])
      {
        var came := added[j];
        assert came in added;
        var how := ContinuationBetween(ch.cc, gone, came);
        MoreCandidates(ch, gone, added, j);
        if how.Some? {
          found := found + {Candidate(RankOf(ch.cc, gone, came, how.value), gone.id, came.id, how.value)};
        }
      }
      assert added[..|added|] == added;
      RowOfCandidates(ch, removed, i, added);
    }
    assert removed[..|removed|] == removed;
    AllCandidates(ch, removed, added);
  }

  ghost function CandidatesOf(ch: Change, removed: seq<Symbol>, added: seq<Symbol>): set<Candidate> {
    set o, n | o in removed && n in added && ContinuationBetween(ch.cc, o, n).Some? :: Made(ch, o, n)
  }

  function Made(ch: Change, o: Symbol, n: Symbol): Candidate
    requires ContinuationBetween(ch.cc, o, n).Some?
  {
    var how := ContinuationBetween(ch.cc, o, n).value;
    Candidate(RankOf(ch.cc, o, n, how), o.id, n.id, how)
  }

  lemma MoreCandidates(ch: Change, gone: Symbol, added: seq<Symbol>, j: nat)
    requires j < |added|
    ensures CandidatesOf(ch, [gone], added[..j + 1]) == CandidatesOf(ch, [gone], added[..j])
      + if ContinuationBetween(ch.cc, gone, added[j]).Some? then {Made(ch, gone, added[j])} else {}
  {
    hide ContinuationBetween, RankOf;
    assert added[..j + 1] == added[..j] + [added[j]];
    assert gone in [gone];
  }

  lemma RowOfCandidates(ch: Change, removed: seq<Symbol>, i: nat, added: seq<Symbol>)
    requires i < |removed|
    ensures CandidatesOf(ch, removed[..i + 1], added)
         == CandidatesOf(ch, removed[..i], added) + CandidatesOf(ch, [removed[i]], added)
  {
    hide ContinuationBetween, RankOf;
    assert removed[..i + 1] == removed[..i] + [removed[i]];
  }

  lemma AllCandidates(ch: Change, removed: seq<Symbol>, added: seq<Symbol>)
    requires ch.WellKeyed()
    requires ListsSymbols(ch.before, ch.Gone(), removed) && ListsSymbols(ch.after, ch.New(), added)
    ensures CandidatesOf(ch, removed, added) == Candidates(ch)
  {
    hide ContinuationBetween, RankOf;
    forall o, n | o in ch.Gone() && n in ch.New() ensures ch.before[o] in removed && ch.after[n] in added { }
    forall c | c in Candidates(ch) ensures c in CandidatesOf(ch, removed, added) {
      CandidateEnds(ch, c);
      assert c == Made(ch, ch.before[c.gone], ch.after[c.came]);
    }
    forall c | c in CandidatesOf(ch, removed, added) ensures c in Candidates(ch) {
      var o, n :| o in removed && n in added && ContinuationBetween(ch.cc, o, n).Some? && c == Made(ch, o, n);
      assert CandidateFor(ch, o.id, n.id) == Some(c);
    }
  }

  /** The symbols a pairing leaves over. */
  method Retain(table: map<SymbolId, Symbol>, ghost ids: set<SymbolId>, xs: seq<Symbol>, paired: set<SymbolId>)
    returns (kept: seq<Symbol>)
    requires ListsSymbols(table, ids, xs)
    requires forall id :: id in table ==> table[id].id == id
    ensures ListsSymbols(table, ids - paired, kept)
  {
    kept := [];
    for i := 0 to |xs|
      invariant StrictlySortedBy(SymbolKey, kept)
      invariant forall s :: s in kept <==> s in xs[..i] && s.id !in paired
    {
      if xs[i].id !in paired {
        forall s | s in kept ensures Less(SymbolKey(s), SymbolKey(xs[i])) {
          var k :| 0 <= k < i && xs[k] == s;
        }
        AppendSorted(SymbolKey, kept, xs[i]);
        kept := kept + [xs[i]];
      }
    }
    assert xs[..|xs|] == xs;
  }

  /** The chosen pairs with their symbols, in the order of the ids they had. */
  method Continue(ch: Change, chosen: seq<Candidate>) returns (continuities: seq<ContinuedSymbol>)
    requires ch.WellKeyed()
    requires AsSet(chosen) <= Candidates(ch) && OneToOne(AsSet(chosen))
    requires forall i, j :: 0 <= i < j < |chosen| ==> chosen[i] != chosen[j]
    ensures ListsContinued(ch, AsSet(chosen), continuities)
  {
    ghost var m := AsSet(chosen);
    forall c | c in chosen ensures c.gone in ch.before && c.came in ch.after {
      assert c in m;
      CandidateEnds(ch, c);
    }
    continuities := [];
    for i := 0 to |chosen|
      invariant |continuities| == i
      invariant forall j :: 0 <= j < i ==> continuities[j] == ContinuedFor(ch, chosen[j])
    {
      assert chosen[i] in chosen;
      continuities := continuities + [ContinuedFor(ch, chosen[i])];
    }
    ContinuedOnce(ch, chosen, continuities);
    continuities := SortBy(ContinuedKey, continuities);
  }

  /** `xs` is `chosen` with the symbols filled in. */
  ghost predicate Fills(ch: Change, chosen: seq<Candidate>, xs: seq<ContinuedSymbol>) {
    && (forall c :: c in chosen ==> c.gone in ch.before && c.came in ch.after)
    && |xs| == |chosen| && forall j :: 0 <= j < |xs| ==> xs[j] == ContinuedFor(ch, chosen[j])
  }

  lemma ContinuedDiffer(ch: Change, chosen: seq<Candidate>, xs: seq<ContinuedSymbol>, i: nat, j: nat)
    requires ch.WellKeyed() && OneToOne(AsSet(chosen)) && Fills(ch, chosen, xs)
    requires i < j < |xs| && chosen[i] != chosen[j]
    ensures xs[i].before.id != xs[j].before.id
  {
    assert chosen[i] in AsSet(chosen) && chosen[j] in AsSet(chosen);
    assert !Share(chosen[i], chosen[j]);
  }

  lemma FilledMembers(ch: Change, chosen: seq<Candidate>, xs: seq<ContinuedSymbol>, x: ContinuedSymbol)
    requires Fills(ch, chosen, xs)
    ensures x in xs <==> exists c :: c in AsSet(chosen) && x == ContinuedFor(ch, c)
  {
    if x in xs {
      var j :| 0 <= j < |xs| && xs[j] == x;
      assert chosen[j] in AsSet(chosen);
    }
    if c :| c in AsSet(chosen) && x == ContinuedFor(ch, c) {
      var j :| 0 <= j < |chosen| && chosen[j] == c;
      assert xs[j] == x;
    }
  }

  lemma ContinuedOnce(ch: Change, chosen: seq<Candidate>, xs: seq<ContinuedSymbol>)
    requires ch.WellKeyed() && Fills(ch, chosen, xs)
    requires AsSet(chosen) <= Candidates(ch) && OneToOne(AsSet(chosen))
    requires forall i, j :: 0 <= i < j < |chosen| ==> chosen[i] != chosen[j]
    ensures ListsContinued(ch, AsSet(chosen), SortBy(ContinuedKey, xs))
  {
    forall i: nat, j: nat | i < j < |xs| ensures xs[i].before.id != xs[j].before.id {
      ContinuedDiffer(ch, chosen, xs, i, j);
    }
    forall x, y | x in xs && y in xs && ContinuedKey(x) == ContinuedKey(y) ensures x == y {
      assert ContinuedKey(x)[0] == ContinuedKey(y)[0];
    }
    DistinctSortsStrictly(ContinuedKey, xs);
    SortKeeps(ContinuedKey, xs);
    forall x { FilledMembers(ch, chosen, xs, x); }
  }

  /** The symbol half of the comparison. */
  method CompareSymbols(ch: Change) returns (d: SymbolDelta)
    requires ch.WellKeyed()
    ensures IsSymbolDelta(ch, d)
  {
    hide CandidateFor, ContinuationBetween, RankOf;
    var removed, added, changes := Compare(ch);
    var found := Enumerate(ch, removed, added);
    forall a, b | a in found && b in found && CandidateKey(a) == CandidateKey(b) ensures a == b {
      CandidateKeyTells(a, b);
    }
    var candidates := InOrder(CandidateKey, found);
    assert AsSet(candidates) == found;
    var chosen, pairedBefore, pairedAfter := Greedy(candidates);
    ghost var m := AsSet(chosen);
    var continuities := Continue(ch, chosen);
    removed := Retain(ch.before, ch.Gone(), removed, pairedBefore);
    added := Retain(ch.after, ch.New(), added, pairedAfter);
    assert GoneIn(m) == pairedBefore && CameIn(m) == pairedAfter;
    d := SymbolDelta(added, removed, continuities, changes);
    assert Describes(ch, m, d);
  }

  // ── what the delta tells ────────────────────────────────────

  function Ids(xs: seq<Symbol>): set<SymbolId> { set s | s in xs :: s.id }
  function OldIds(xs: seq<ContinuedSymbol>): set<SymbolId> { set x | x in xs :: x.before.id }
  function NewIds(xs: seq<ContinuedSymbol>): set<SymbolId> { set x | x in xs :: x.after.id }

  lemma IdsListed(table: map<SymbolId, Symbol>, ids: set<SymbolId>, xs: seq<Symbol>)
    requires ListsSymbols(table, ids, xs) && forall id :: id in table ==> table[id].id == id
    ensures Ids(xs) == ids
  {
    forall id | id in ids ensures id in Ids(xs) { assert table[id] in xs; }
  }

  lemma IdsContinued(ch: Change, m: set<Candidate>, xs: seq<ContinuedSymbol>)
    requires ch.WellKeyed() && ListsContinued(ch, m, xs)
    ensures OldIds(xs) == GoneIn(m) <= ch.Gone() && NewIds(xs) == CameIn(m) <= ch.New()
  {
    forall c | c in m ensures c.gone in ch.Gone() && c.came in ch.New() && ContinuedFor(ch, c) in xs {
      CandidateEnds(ch, c);
    }
    forall x | x in xs ensures x.before.id in GoneIn(m) && x.after.id in CameIn(m) {
      var c :| c in m && x == ContinuedFor(ch, c);
    }
    forall c | c in m ensures c.gone in OldIds(xs) && c.came in NewIds(xs) {
      assert ContinuedFor(ch, c) in xs;
    }
  }

  /** The ids that were removed, added and continued account for the whole change,
      none of them twice. */
  lemma IdsRebuilt(ch: Change, d: SymbolDelta)
    requires ch.WellKeyed() && IsSymbolDelta(ch, d)
    ensures Ids(d.removed) !! OldIds(d.continuities) && Ids(d.added) !! NewIds(d.continuities)
    ensures Ids(d.removed) + OldIds(d.continuities) == ch.before.Keys - ch.after.Keys
    ensures Ids(d.added) + NewIds(d.continuities) == ch.after.Keys - ch.before.Keys
    ensures ch.after.Keys == ch.before.Keys - Ids(d.removed) - OldIds(d.continuities) + Ids(d.added) + NewIds(d.continuities)
    ensures |OldIds(d.continuities)| == |NewIds(d.continuities)| == |d.continuities|
  {
    var m :| Describes(ch, m, d);
    IdsListed(ch.before, ch.Gone() - GoneIn(m), d.removed);
    IdsListed(ch.after, ch.New() - CameIn(m), d.added);
    IdsContinued(ch, m, d.continuities);
    PairedOnce(ch, m, d.continuities);
    hide *;
    SetsRebuilt(ch.before.Keys, ch.after.Keys, ch.Gone(), ch.New(), GoneIn(m), CameIn(m));
  }

  lemma SetsRebuilt(
    before: set<SymbolId>, after: set<SymbolId>, gone: set<SymbolId>, new_: set<SymbolId>,
    paired: set<SymbolId>, came: set<SymbolId>)
    requires gone == before - after && new_ == after - before && paired <= gone && came <= new_
    ensures (gone - paired) + paired == gone && (new_ - came) + came == new_
    ensures after == before - (gone - paired) - paired + (new_ - came) + came
  {
  }

  lemma PairedOnce(ch: Change, m: set<Candidate>, xs: seq<ContinuedSymbol>)
    requires ch.WellKeyed() && ListsContinued(ch, m, xs) && OneToOne(m)
    ensures |OldIds(xs)| == |NewIds(xs)| == |xs|
  {
    forall i, j | 0 <= i < j < |xs| ensures xs[i].before.id != xs[j].before.id && xs[i].after.id != xs[j].after.id {
      assert xs[i] in xs && xs[j] in xs;
      var a :| a in m && xs[i] == ContinuedFor(ch, a);
      var b :| b in m && xs[j] == ContinuedFor(ch, b);
      CandidateEnds(ch, a);
      CandidateEnds(ch, b);
      assert ContinuedKey(xs[i]) != ContinuedKey(xs[j]);
      assert !Share(a, b);
    }
    CountsBoth(xs);
  }

  lemma {:induction false} CountsBoth(xs: seq<ContinuedSymbol>)
    requires forall i, j :: 0 <= i < j < |xs| ==> xs[i].before.id != xs[j].before.id && xs[i].after.id != xs[j].after.id
    ensures |OldIds(xs)| == |NewIds(xs)| == |xs|
  {
    if |xs| > 0 {
      var n := |xs| - 1;
      CountsBoth(xs[..n]);
      OneMoreContinued(xs[..n], xs[n]);
      assert xs == xs[..n] + [xs[n]];
      hide OldIds, NewIds;
    }
  }

  lemma OneMoreContinued(xs: seq<ContinuedSymbol>, x: ContinuedSymbol)
    requires forall y :: y in xs ==> y.before.id != x.before.id && y.after.id != x.after.id
    ensures |OldIds(xs + [x])| == |OldIds(xs)| + 1 && |NewIds(xs + [x])| == |NewIds(xs)| + 1
  {
    assert OldIds(xs + [x]) == OldIds(xs) + {x.before.id};
    assert NewIds(xs + [x]) == NewIds(xs) + {x.after.id};
  }

  /** The same two graphs always produce the same delta: every list is in a strict
      order, and what it lists is decided by the tables alone. */
  lemma DeltaIsDetermined(ch: Change, d: SymbolDelta, e: SymbolDelta)
    requires IsSymbolDelta(ch, d) && IsSymbolDelta(ch, e)
    ensures d == e
  {
    var m :| Describes(ch, m, d);
    var n :| Describes(ch, n, e);
    GreedyIsUnique(Candidates(ch), m, n);
    StrictOrderIsUnique(SymbolKey, d.added, e.added);
    StrictOrderIsUnique(SymbolKey, d.removed, e.removed);
    StrictOrderIsUnique(ContinuedKey, d.continuities, e.continuities);
    StrictOrderIsUnique(ChangedKey, d.signatureChanges, e.signatureChanges);
  }

  function ChangedTo(xs: seq<SignatureChange>): set<SymbolId> { set x | x in xs :: x.before.id }

  /** A symbol that kept its id is reported exactly when its signature changed, and
      with both signatures. */
  lemma SignaturesAccountedFor(ch: Change, d: SymbolDelta, id: SymbolId)
    requires ch.WellKeyed() && IsSymbolDelta(ch, d) && id in ch.before && id in ch.after
    ensures ch.before[id].signature == ch.after[id].signature <==> id !in ChangedTo(d.signatureChanges)
    ensures ch.before[id].signature != ch.after[id].signature ==>
      SignatureChange(ch.before[id], ch.after[id]) in d.signatureChanges
  {
    assert id in ChangedIds(ch) <==> ch.before[id].signature != ch.after[id].signature;
    if ch.before[id].signature != ch.after[id].signature {
      var x := SignatureChange(ch.before[id], ch.after[id]);
      assert x.before.id == id && x in d.signatureChanges;
    }
  }

  predicate IsEmpty(d: SymbolDelta) {
    d.added == [] && d.removed == [] && d.continuities == [] && d.signatureChanges == []
  }

  /** An empty delta says neither more nor less than that the ids and their
      signatures are the same on both sides. */
  lemma EmptyMeansSame(ch: Change, d: SymbolDelta)
    requires ch.WellKeyed() && IsSymbolDelta(ch, d)
    ensures IsEmpty(d) <==>
      && ch.before.Keys == ch.after.Keys
      && forall id :: id in ch.before && id in ch.after ==> ch.before[id].signature == ch.after[id].signature
  {
    IdsRebuilt(ch, d);
    IdsEmpty(d.added);
    IdsEmpty(d.removed);
    ContinuedEmpty(d.continuities);
    ChangedEmpty(ch, d);
    NoDifference(ch.before.Keys, ch.after.Keys, Ids(d.removed), OldIds(d.continuities), Ids(d.added), NewIds(d.continuities));
    hide IsSymbolDelta, Ids, OldIds, NewIds;
  }

  lemma NoDifference<T>(before: set<T>, after: set<T>, r: set<T>, o: set<T>, a: set<T>, n: set<T>)
    requires r + o == before - after && a + n == after - before
    ensures before == after <==> r == {} && o == {} && a == {} && n == {}
  {
    assert r == {} && o == {} <==> before - after == {};
    assert a == {} && n == {} <==> after - before == {};
  }

  lemma IdsEmpty(xs: seq<Symbol>)
    ensures Ids(xs) == {} <==> xs == []
  {
    if xs != [] { assert xs[0].id in Ids(xs); }
  }

  lemma ContinuedEmpty(xs: seq<ContinuedSymbol>)
    ensures OldIds(xs) == {} <==> xs == []
    ensures NewIds(xs) == {} <==> xs == []
  {
    if xs != [] { assert xs[0].before.id in OldIds(xs) && xs[0].after.id in NewIds(xs); }
  }

  lemma ChangedEmpty(ch: Change, d: SymbolDelta)
    requires ch.WellKeyed() && IsSymbolDelta(ch, d)
    ensures d.signatureChanges == [] <==>
      forall id :: id in ch.before && id in ch.after ==> ch.before[id].signature == ch.after[id].signature
  {
    if d.signatureChanges == [] {
      forall id | id in ch.before && id in ch.after ensures ch.before[id].signature == ch.after[id].signature {
        SignaturesAccountedFor(ch, d, id);
      }
    } else {
      assert d.signatureChanges[0] in d.signatureChanges;
      assert d.signatureChanges[0].before.id in ChangedIds(ch);
    }
  }
}
