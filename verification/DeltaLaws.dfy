/** When two symbols are taken for one, and which pairs a comparison makes, told of the
    symbols' own fields (delta.rs). */
module DeltaLaws {
  import opened Wrappers
  import opened Ir
  import opened Ordering
  import opened Continuity
  import opened Delta

  // ── text ────────────────────────────────────────────────────

  /** A text without the space around it. */
  ghost predicate TrimmedTo(cc: CharClass, s: string, t: string) {
    exists i, j :: 0 <= i <= j <= |s| && IsCore(cc, s, i, j) && t == s[i..j]
  }

  ghost predicate IsCore(cc: CharClass, s: string, i: nat, j: nat)
    requires i <= j <= |s|
  {
    && (forall k :: 0 <= k < i || j <= k < |s| ==> cc.isSpace(s[k]))
    && (i < j ==> !cc.isSpace(s[i]) && !cc.isSpace(s[j - 1]))
  }

  lemma {:induction false} StartTrimmed(cc: CharClass, s: string) returns (i: nat)
    ensures i <= |s| && TrimStart(cc, s) == s[i..] && (i < |s| ==> !cc.isSpace(s[i]))
    ensures forall k :: 0 <= k < i ==> cc.isSpace(s[k])
  {
    if |s| > 0 && cc.isSpace(s[0]) {
      var j := StartTrimmed(cc, s[1..]);
      i := j + 1;
      assert s[1..][j..] == s[i..];
      forall k | 0 <= k < i ensures cc.isSpace(s[k]) { if k > 0 { assert s[k] == s[1..][k - 1]; } }
    } else {
      i := 0;
    }
  }

  lemma {:induction false} EndTrimmed(cc: CharClass, s: string) returns (j: nat)
    ensures j <= |s| && TrimEnd(cc, s) == s[..j] && (j > 0 ==> !cc.isSpace(s[j - 1]))
    ensures forall k :: j <= k < |s| ==> cc.isSpace(s[k])
  {
    if |s| > 0 && cc.isSpace(s[|s| - 1]) {
      j := EndTrimmed(cc, s[..|s| - 1]);
      assert s[..|s| - 1][..j] == s[..j];
    } else {
      j := |s|;
      assert s[..j] == s;
    }
  }

  /** Trimming takes off exactly the space around a text. */
  lemma TrimTells(cc: CharClass, s: string)
    ensures TrimmedTo(cc, s, Trim(cc, s))
    ensures forall t :: TrimmedTo(cc, s, t) ==> t == Trim(cc, s)
  {
    var i := StartTrimmed(cc, s);
    var j := EndTrimmed(cc, s[i..]);
    assert s[i..][..j] == s[i..i + j];
    forall k | i + j <= k < |s| ensures cc.isSpace(s[k]) { assert s[k] == s[i..][k - i]; }
    if j > 0 { assert s[i..][0] == s[i] && s[i..][j - 1] == s[i + j - 1]; }
    assert IsCore(cc, s, i, i + j);
    forall t | TrimmedTo(cc, s, t) ensures t == Trim(cc, s) {
      var a, b :| 0 <= a <= b <= |s| && IsCore(cc, s, a, b) && t == s[a..b];
      OneCore(cc, s, i, i + j, a, b);
    }
  }

  lemma OneCore(cc: CharClass, s: string, i: nat, j: nat, a: nat, b: nat)
    requires i <= j <= |s| && a <= b <= |s| && IsCore(cc, s, i, j) && IsCore(cc, s, a, b)
    ensures s[i..j] == s[a..b]
  {
  }

  predicate OccursAt(s: string, what: string, i: nat) { i + |what| <= |s| && s[i..i + |what|] == what }

  lemma OccursLater(s: string, what: string, i: nat)
    requires |s| > 0
    ensures OccursAt(s[1..], what, i) <==> OccursAt(s, what, i + 1)
  {
    if i + 1 + |what| <= |s| { assert s[1..][i..i + |what|] == s[i + 1..i + 1 + |what|]; }
  }

  lemma OccursFirst(s: string, what: string)
    ensures OccursAt(s, what, 0) <==> what <= s
  {
    if |what| <= |s| { assert s[0..|what|] == s[..|what|]; }
  }

  /** Where a pattern does not occur, nothing is replaced. */
  lemma {:induction false} NothingReplaced(s: string, what: string, with: string)
    requires what != "" && forall i: nat :: !OccursAt(s, what, i)
    ensures Replace(s, what, with) == s
  {
    if |s| > 0 {
      OccursFirst(s, what);
      forall i: nat ensures !OccursAt(s[1..], what, i) { OccursLater(s, what, i); }
      hide OccursAt;
      NothingReplaced(s[1..], what, with);
      assert s == [s[0]] + s[1..];
    }
  }

  lemma ReplaceAtStart(s: string, what: string, with: string)
    requires what != "" && |s| > 0
    ensures Replace(s, what, with) ==
      if what <= s then with + Replace(s[|what|..], what, with) else [s[0]] + Replace(s[1..], what, with)
  {
  }

  lemma Parts(s: string, i: nat, n: nat)
    requires 0 < i && i + n <= |s|
    ensures s[1..][i - 1 + n..] == s[i + n..] && s[..i] == [s[0]] + s[1..][..i - 1]
  {
  }

  /** The first occurrence is replaced, and then what follows it. */
  lemma {:induction false} FirstReplaced(s: string, what: string, with: string, i: nat)
    requires what != "" && OccursAt(s, what, i) && forall j: nat :: j < i ==> !OccursAt(s, what, j)
    ensures i + |what| <= |s| && Replace(s, what, with) == s[..i] + with + Replace(s[i + |what|..], what, with)
    decreases i
  {
    hide OccursAt, Replace;
    OccursInside(s, what, i);
    OccursFirst(s, what);
    ReplaceAtStart(s, what, with);
    if i == 0 {
      assert s[..0] == "";
    } else {
      forall j: nat | j < i - 1 ensures !OccursAt(s[1..], what, j) { OccursLater(s, what, j); }
      OccursLater(s, what, i - 1);
      assert !OccursAt(s, what, 0);
      FirstReplaced(s[1..], what, with, i - 1);
      Parts(s, i, |what|);
      Prepended(s[0], s[1..][..i - 1], with, Replace(s[i + |what|..], what, with));
    }
  }

  lemma OccursInside(s: string, what: string, i: nat)
    requires OccursAt(s, what, i)
    ensures i + |what| <= |s|
  {
  }

  lemma Prepended(c: char, a: string, b: string, d: string)
    ensures [c] + (a + b + d) == ([c] + a) + b + d
  {
  }

  /** The empty pattern is found before each character and at the end. */
  lemma {:induction false} EmptyReplaced(s: string, with: string)
    requires |with| == 1
    ensures |Replace(s, "", with)| == 2 * |s| + 1
    ensures forall k :: 0 <= k <= 2 * |s| ==>
      Replace(s, "", with)[k] == if k % 2 == 0 then with[0] else s[k / 2]
  {
    if |s| > 0 {
      EmptyReplaced(s[1..], with);
      var rest := Interleave(s[1..], with);
      assert Replace(s[1..], "", with) == rest;
      assert Interleave(s, with) == with + [s[0]] + rest;
      forall k | 0 <= k <= 2 * |s| ensures Interleave(s, with)[k] == if k % 2 == 0 then with[0] else s[k / 2] {
        if k >= 2 { assert Interleave(s, with)[k] == rest[k - 2]; }
      }
    }
  }

  predicate WordAt(cc: CharClass, s: string, i: nat) {
    i < |s| && (cc.isAlphanumeric(s[i]) || s[i] == '_')
  }

  predicate WordStartsAt(cc: CharClass, s: string, i: nat) {
    WordAt(cc, s, i) && (i == 0 || !WordAt(cc, s, i - 1))
  }

  /** The places where a word starts. */
  ghost function WordStarts(cc: CharClass, s: string): set<nat> {
    set i: nat | i < |s| && WordStartsAt(cc, s, i)
  }

  lemma RunsAreWords(cc: CharClass, s: string)
    ensures Runs(cc, s) == WordStarts(cc, s)
  {
  }

  // ── when two symbols are one ────────────────────────────────

  /** A signature worth comparing, the space around it off. */
  ghost predicate Declares(cc: CharClass, s: Symbol, text: string) {
    s.signature.Some? && TrimmedTo(cc, s.signature.value, text) && text != ""
  }

  /** Two words are left of a declaration when its name is taken out. */
  ghost predicate SaysMore(cc: CharClass, text: string, name: string) {
    |WordStarts(cc, Replace(text, name, " "))| >= 2
  }

  /** The new declaration is the old one with the name substituted, and each says more
      than its name. */
  ghost predicate Rewrites(cc: CharClass, before: Symbol, after: Symbol) {
    before.name != "" && exists p, q :: Declares(cc, before, p) && Declares(cc, after, q) && RewritesAs(cc, before, after, p, q)
  }

  ghost predicate RewritesAs(cc: CharClass, before: Symbol, after: Symbol, p: string, q: string) {
    q == Replace(p, before.name, after.name) && SaysMore(cc, p, before.name) && SaysMore(cc, q, after.name)
  }

  lemma UsableTells(cc: CharClass, s: Symbol)
    ensures forall t :: Declares(cc, s, t) <==> UsableSignature(cc, s) == Some(t)
  {
    hide Trim, TrimmedTo;
    if s.signature.Some? { TrimTells(cc, s.signature.value); }
  }

  lemma RewritesIsEvidence(cc: CharClass, before: Symbol, after: Symbol)
    ensures Rewrites(cc, before, after) <==> RenamesWithEvidence(cc, before, after)
  {
    UsableTells(cc, before);
    UsableTells(cc, after);
    forall s ensures Runs(cc, s) == WordStarts(cc, s) { RunsAreWords(cc, s); }
    hide Declares, UsableSignature, Runs, WordStarts, Replace;
    if RenamesWithEvidence(cc, before, after) {
      var p, q := UsableSignature(cc, before).value, UsableSignature(cc, after).value;
      assert Declares(cc, before, p) && Declares(cc, after, q) && RewritesAs(cc, before, after, p, q);
    }
  }

  predicate Alike(a: Symbol, b: Symbol) { a.kind == b.kind && a.language == b.language }

  /** A symbol moved when only its file changed, and was renamed when its declaration
      says so. */
  lemma ContinuationExactly(cc: CharClass, b: Symbol, a: Symbol)
    ensures ContinuationBetween(cc, b, a) == Some(Moved) <==> Alike(b, a) && b.name == a.name && b.file != a.file
    ensures ContinuationBetween(cc, b, a) == Some(Renamed)
      <==> Alike(b, a) && b.name != a.name && b.file == a.file && Rewrites(cc, b, a)
    ensures ContinuationBetween(cc, b, a) == Some(RenamedAndMoved)
      <==> Alike(b, a) && b.name != a.name && b.file != a.file && Rewrites(cc, b, a)
  {
    RewritesIsEvidence(cc, b, a);
    hide RenamesWithEvidence, Rewrites;
  }

  /** How good the evidence is: a rename in place before a move whose declaration stayed,
      then a rename elsewhere, and a move of a changed declaration last. */
  ghost function Standing(cc: CharClass, b: Symbol, a: Symbol): nat {
    if b.name != a.name then if b.file == a.file then 0 else 2
    else if b.name != "" && exists p :: Declares(cc, b, p) && Declares(cc, a, p) then 1
    else 4
  }

  lemma RankIsStanding(cc: CharClass, b: Symbol, a: Symbol, how: Continuation)
    requires ContinuationBetween(cc, b, a) == Some(how)
    ensures RankOf(cc, b, a, how) == Standing(cc, b, a)
  {
    PairingVouches(cc, b, a, how);
    UsableTells(cc, b);
    UsableTells(cc, a);
    hide Declares, UsableSignature, Replace;
  }

  // ── which pairs are made ────────────────────────────────────

  /** A symbol gone and a symbol new that are one. */
  ghost predicate Pairs(ch: Change, o: SymbolId, n: SymbolId, how: Continuation) {
    && o in ch.before && o !in ch.after && n in ch.after && n !in ch.before
    && ContinuationBetween(ch.cc, ch.before[o], ch.after[n]) == Some(how)
  }

  /** By standing, then by the old id, then by the new. */
  ghost predicate Sooner(ch: Change, o: SymbolId, n: SymbolId, p: SymbolId, q: SymbolId)
    requires o in ch.before && n in ch.after && p in ch.before && q in ch.after
  {
    var r, s := Standing(ch.cc, ch.before[o], ch.after[n]), Standing(ch.cc, ch.before[p], ch.after[q]);
    if r != s then r < s else if o != p then CharsLe(o, p) else n != q && CharsLe(n, q)
  }

  lemma PairIsCandidate(ch: Change, o: SymbolId, n: SymbolId, how: Continuation)
    requires o in ch.before && n in ch.after
    ensures Pairs(ch, o, n, how) <==> Candidate(Standing(ch.cc, ch.before[o], ch.after[n]), o, n, how) in Candidates(ch)
  {
    if ContinuationBetween(ch.cc, ch.before[o], ch.after[n]) == Some(how) {
      RankIsStanding(ch.cc, ch.before[o], ch.after[n], how);
    }
    hide ContinuationBetween, RankOf, Standing;
    var c := Candidate(Standing(ch.cc, ch.before[o], ch.after[n]), o, n, how);
    if Pairs(ch, o, n, how) { assert CandidateFor(ch, o, n) == Some(c); }
    if c in Candidates(ch) {
      var x, y :| x in ch.Gone() && y in ch.New() && CandidateFor(ch, x, y).Some? && CandidateFor(ch, x, y).value == c;
    }
  }

  lemma CandidateIsPair(ch: Change, c: Candidate)
    requires c in Candidates(ch)
    ensures Pairs(ch, c.gone, c.came, c.how) && c.rank == Standing(ch.cc, ch.before[c.gone], ch.after[c.came])
  {
    hide ContinuationBetween, RankOf, Standing;
    var x, y :| x in ch.Gone() && y in ch.New() && CandidateFor(ch, x, y).Some? && CandidateFor(ch, x, y).value == c;
    RankIsStanding(ch.cc, ch.before[x], ch.after[y], c.how);
  }

  lemma LessIsSooner(ch: Change, a: Candidate, b: Candidate)
    requires a in Candidates(ch) && b in Candidates(ch) && Less(CandidateKey(a), CandidateKey(b)) && a != b
    ensures a.gone in ch.before && a.came in ch.after && b.gone in ch.before && b.came in ch.after
    ensures Sooner(ch, a.gone, a.came, b.gone, b.came)
  {
    CandidateIsPair(ch, a);
    CandidateIsPair(ch, b);
    hide ContinuationBetween, Standing, Candidates;
    KeysCompare(a, b);
  }

  lemma KeysCompare(a: Candidate, b: Candidate)
    requires Le(CandidateKey(a), CandidateKey(b))
    ensures a.rank < b.rank || (a.rank == b.rank && a.gone != b.gone && CharsLe(a.gone, b.gone))
      || (a.rank == b.rank && a.gone == b.gone && CharsLe(a.came, b.came))
  {
    var k, l := CandidateKey(a), CandidateKey(b);
    assert k == [] + [Num(a.rank)] + k[1..] && l == [] + [Num(b.rank)] + l[1..];
    assert k[1..] == [Text(a.gone)] + k[2..] && l[1..] == [Text(b.gone)] + l[2..];
    if a.rank != b.rank {
      LeTells([], Num(a.rank), Num(b.rank), k[1..], l[1..]);
    } else if a.gone != b.gone {
      assert k == [Num(a.rank)] + [Text(a.gone)] + k[2..] && l == [Num(a.rank)] + [Text(b.gone)] + l[2..];
      LeTells([Num(a.rank)], Text(a.gone), Text(b.gone), k[2..], l[2..]);
    } else if a.came != b.came {
      var p := [Num(a.rank), Text(a.gone)];
      assert k == p + [Text(a.came)] + k[3..] && l == p + [Text(b.came)] + l[3..];
      LeTells(p, Text(a.came), Text(b.came), k[3..], l[3..]);
    } else {
      CharsTotal(a.came, a.came);
    }
  }

  lemma ContinuitiesArePairs(ch: Change, d: SymbolDelta, x: ContinuedSymbol)
    requires ch.WellKeyed() && IsSymbolDelta(ch, d) && x in d.continuities
    ensures Pairs(ch, x.before.id, x.after.id, x.how)
    ensures x.before == ch.before[x.before.id] && x.after == ch.after[x.after.id]
  {
    var m :| Describes(ch, m, d);
    hide ContinuationBetween, Standing, Candidates, Blocked;
    var c :| c in m && x == ContinuedFor(ch, c);
    CandidateIsPair(ch, c);
  }

  lemma OneContinuityEach(ch: Change, d: SymbolDelta, x: ContinuedSymbol, y: ContinuedSymbol)
    requires ch.WellKeyed() && IsSymbolDelta(ch, d) && x in d.continuities && y in d.continuities && OneEnd(x, y)
    ensures x == y
  {
    var m :| Describes(ch, m, d);
    hide ContinuationBetween, Standing, Candidates, Blocked;
    var a :| a in m && x == ContinuedFor(ch, a);
    var b :| b in m && y == ContinuedFor(ch, b);
    CandidateIsPair(ch, a);
    CandidateIsPair(ch, b);
    assert Share(a, b);
  }

  lemma LeftOutGaveWay(ch: Change, d: SymbolDelta, o: SymbolId, n: SymbolId, how: Continuation)
    requires ch.WellKeyed() && IsSymbolDelta(ch, d) && Pairs(ch, o, n, how)
    ensures ContinuedSymbol(ch.before[o], ch.after[n], how) in d.continuities || GaveWay(ch, d, o, n)
  {
    var m :| Describes(ch, m, d);
    hide ContinuationBetween, Standing, Candidates, Blocked, Sooner;
    PairIsCandidate(ch, o, n, how);
    var c := Candidate(Standing(ch.cc, ch.before[o], ch.after[n]), o, n, how);
    if c in m { assert ContinuedFor(ch, c) in d.continuities; } else { BlockedGivesWay(ch, m, d, c); }
  }

  /** What a comparison reports as continued, told of pairs: each continuity is one; no
      symbol has two; and a pair left out gave way to a sooner one at one of its ends. */
  lemma PairsExactly(ch: Change, d: SymbolDelta)
    requires ch.WellKeyed() && IsSymbolDelta(ch, d)
    ensures forall x :: x in d.continuities ==>
      && Pairs(ch, x.before.id, x.after.id, x.how)
      && x.before == ch.before[x.before.id] && x.after == ch.after[x.after.id]
    ensures forall x, y :: x in d.continuities && y in d.continuities && OneEnd(x, y) ==> x == y
    ensures forall o, n, how :: Pairs(ch, o, n, how) ==>
      ContinuedSymbol(ch.before[o], ch.after[n], how) in d.continuities || GaveWay(ch, d, o, n)
  {
    hide IsSymbolDelta, OneEnd, GaveWay, ContinuationBetween;
    forall x | x in d.continuities
      ensures Pairs(ch, x.before.id, x.after.id, x.how)
      ensures x.before == ch.before[x.before.id] && x.after == ch.after[x.after.id]
    {
      ContinuitiesArePairs(ch, d, x);
    }
    forall x, y | x in d.continuities && y in d.continuities && OneEnd(x, y) ensures x == y {
      OneContinuityEach(ch, d, x, y);
    }
    forall o, n, how | Pairs(ch, o, n, how)
      ensures ContinuedSymbol(ch.before[o], ch.after[n], how) in d.continuities || GaveWay(ch, d, o, n)
    {
      LeftOutGaveWay(ch, d, o, n, how);
    }
  }

  predicate OneEnd(x: ContinuedSymbol, y: ContinuedSymbol) {
    x.before.id == y.before.id || x.after.id == y.after.id
  }

  ghost predicate GaveWay(ch: Change, d: SymbolDelta, o: SymbolId, n: SymbolId)
    requires o in ch.before && n in ch.after
  {
    exists x :: x in d.continuities && (x.before.id == o || x.after.id == n)
      && x.before.id in ch.before && x.after.id in ch.after && Sooner(ch, x.before.id, x.after.id, o, n)
  }

  lemma ContinuedIs(ch: Change, c: Candidate)
    requires c.gone in ch.before && c.came in ch.after
    ensures ContinuedFor(ch, c) == ContinuedSymbol(ch.before[c.gone], ch.after[c.came], c.how)
  {
  }

  lemma BlockedGivesWay(ch: Change, m: set<Candidate>, d: SymbolDelta, c: Candidate)
    requires ch.WellKeyed() && Describes(ch, m, d) && c in Candidates(ch) && c !in m
    ensures c.gone in ch.before && c.came in ch.after && GaveWay(ch, d, c.gone, c.came)
  {
    hide ContinuationBetween, Standing, Candidates, Sooner;
    CandidateIsPair(ch, c);
    var b :| b in m && Share(b, c) && Less(CandidateKey(b), CandidateKey(c));
    CandidateIsPair(ch, b);
    ContinuedIs(ch, b);
    LessIsSooner(ch, b, c);
    assert ContinuedFor(ch, b) in d.continuities;
  }

  /** A pair with no rival at either end is made. */
  lemma UnrivalledIsPaired(ch: Change, d: SymbolDelta, o: SymbolId, n: SymbolId, how: Continuation)
    requires ch.WellKeyed() && IsSymbolDelta(ch, d) && Pairs(ch, o, n, how)
    requires forall p, q, h :: Pairs(ch, p, q, h) && (p == o || q == n) ==> p == o && q == n
    ensures ContinuedSymbol(ch.before[o], ch.after[n], how) in d.continuities
  {
    PairsExactly(ch, d);
    NotSoonerThanItself(ch, o, n);
    assert o in ch.before && n in ch.after;
    hide Pairs, Sooner, IsSymbolDelta;
    forall x | x in d.continuities && (x.before.id == o || x.after.id == n) ensures x.before.id == o && x.after.id == n { }
    assert !GaveWay(ch, d, o, n);
  }

  lemma NotSoonerThanItself(ch: Change, o: SymbolId, n: SymbolId)
    requires o in ch.before && n in ch.after
    ensures !Sooner(ch, o, n, o, n)
  {
  }

  /** One symbol gone and one come, alike and of one name: a move, and nothing else. */
  lemma LoneMove(ch: Change, d: SymbolDelta, o: SymbolId, n: SymbolId)
    requires ch.WellKeyed() && IsSymbolDelta(ch, d)
    requires ch.before.Keys - ch.after.Keys == {o} && ch.after.Keys - ch.before.Keys == {n}
    requires Alike(ch.before[o], ch.after[n]) && ch.before[o].name == ch.after[n].name && ch.before[o].file != ch.after[n].file
    ensures d.continuities == [ContinuedSymbol(ch.before[o], ch.after[n], Moved)] && d.added == [] && d.removed == []
  {
    LonePair(ch, d, o, n, Moved);
  }

  /** One symbol, told of its fields: it moved, or its declaration says it was renamed. */
  ghost predicate IsOne(cc: CharClass, b: Symbol, a: Symbol, how: Continuation) {
    && Alike(b, a) && (how == Moved <==> b.name == a.name) && (how == Renamed <==> b.file == a.file)
    && (b.name != a.name ==> Rewrites(cc, b, a))
  }

  /** And whenever they are one symbol by their declarations. */
  lemma LonePair(ch: Change, d: SymbolDelta, o: SymbolId, n: SymbolId, how: Continuation)
    requires ch.WellKeyed() && IsSymbolDelta(ch, d)
    requires ch.before.Keys - ch.after.Keys == {o} && ch.after.Keys - ch.before.Keys == {n}
    requires IsOne(ch.cc, ch.before[o], ch.after[n], how)
    ensures d.continuities == [ContinuedSymbol(ch.before[o], ch.after[n], how)] && d.added == [] && d.removed == []
  {
    ContinuationExactly(ch.cc, ch.before[o], ch.after[n]);
    hide ContinuationBetween, Rewrites, Alike;
    assert o in ch.before.Keys - ch.after.Keys && n in ch.after.Keys - ch.before.Keys;
    assert Pairs(ch, o, n, how);
    forall p, q, h | Pairs(ch, p, q, h) ensures p == o && q == n {
      assert p in ch.before.Keys - ch.after.Keys && q in ch.after.Keys - ch.before.Keys;
    }
    UnrivalledIsPaired(ch, d, o, n, how);
    IdsRebuilt(ch, d);
    OnlyPair(ch, d, o, n, ContinuedSymbol(ch.before[o], ch.after[n], how));
  }

  lemma OnlyPair(ch: Change, d: SymbolDelta, o: SymbolId, n: SymbolId, x: ContinuedSymbol)
    requires x in d.continuities && x.before.id == o && x.after.id == n
    requires Ids(d.removed) !! OldIds(d.continuities) && Ids(d.removed) + OldIds(d.continuities) == {o}
    requires Ids(d.added) !! NewIds(d.continuities) && Ids(d.added) + NewIds(d.continuities) == {n}
    requires |OldIds(d.continuities)| == |d.continuities|
    ensures d.continuities == [x] && d.added == [] && d.removed == []
  {
    IdsEmpty(d.added);
    IdsEmpty(d.removed);
    assert o in OldIds(d.continuities) && n in NewIds(d.continuities);
    assert OldIds(d.continuities) == {o};
    assert |d.continuities| == 1;
  }
}
