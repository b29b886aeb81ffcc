/** Whether a removed symbol and an added one are the same symbol, and how good the
    evidence is (delta.rs). */
module Continuity {
  import opened Wrappers
  import opened Ir

  /** The two character classes the comparison asks about; nothing is assumed of
      them. */
  datatype CharClass = CharClass(isSpace: char -> bool, isAlphanumeric: char -> bool)

  datatype Continuation = Renamed | Moved | RenamedAndMoved {
    function Rank(): nat { match this case Renamed => 0 case Moved => 1 case RenamedAndMoved => 2 }
  }

  // ── text ────────────────────────────────────────────────────

  function TrimStart(cc: CharClass, s: string): string {
    if |s| > 0 && cc.isSpace(s[0]) then TrimStart(cc, s[1..]) else s
  }

  function TrimEnd(cc: CharClass, s: string): string {
    if |s| > 0 && cc.isSpace(s[|s| - 1]) then TrimEnd(cc, s[..|s| - 1]) else s
  }

  function Trim(cc: CharClass, s: string): string { TrimEnd(cc, TrimStart(cc, s)) }

  /** Every occurrence replaced, left to right, none overlapping. The empty
      pattern occurs before each character and at the end. */
  function Replace(s: string, what: string, with: string): string {
    if what == "" then Interleave(s, with)
    else if |s| == 0 then ""
    else if what <= s then with + Replace(s[|what|..], what, with)
    else [s[0]] + Replace(s[1..], what, with)
  }

  function Interleave(s: string, with: string): string {
    if |s| == 0 then with else with + [s[0]] + Interleave(s[1..], with)
  }

  /** Replacing a text by itself changes nothing. */
  lemma {:induction false} ReplaceBySelf(s: string, x: string)
    requires x != ""
    ensures Replace(s, x, x) == s
  {
    if |s| == 0 {
    } else if x <= s {
      ReplaceBySelf(s[|x|..], x);
      assert s == x + s[|x|..];
    } else {
      ReplaceBySelf(s[1..], x);
      assert s == [s[0]] + s[1..];
    }
  }

  predicate IsWord(cc: CharClass, c: char) { cc.isAlphanumeric(c) || c == '_' }

  /** A maximal run of word characters starts at `i`. */
  predicate RunStartsAt(cc: CharClass, s: string, i: nat)
    requires i < |s|
  {
    IsWord(cc, s[i]) && (i == 0 || !IsWord(cc, s[i - 1]))
  }

  function Runs(cc: CharClass, s: string): set<nat> {
    set i: nat | i < |s| && RunStartsAt(cc, s, i)
  }

  /** Counts the maximal runs in one pass. */
  method WordCount(cc: CharClass, text: string) returns (count: nat)
    ensures count == |Runs(cc, text)|
  {
    count := 0;
    var inside := false;
    for i := 0 to |text|
      invariant count == |Runs(cc, text[..i])|
      invariant inside <==> i > 0 && IsWord(cc, text[i - 1])
    {
      var isWord := IsWord(cc, text[i]);
      OneMoreRun(cc, text, i);
      if isWord && !inside {
        count := count + 1;
      }
      inside := isWord;
    }
    assert text[..|text|] == text;
  }

  lemma OneMoreRun(cc: CharClass, s: string, i: nat)
    requires i < |s|
    ensures |Runs(cc, s[..i + 1])| == |Runs(cc, s[..i])| + if RunStartsAt(cc, s, i) then 1 else 0
  {
    forall j: nat | j < i ensures RunStartsAt(cc, s[..i + 1], j) == RunStartsAt(cc, s[..i], j) { }
    assert RunStartsAt(cc, s[..i + 1], i) == RunStartsAt(cc, s, i);
    assert Runs(cc, s[..i + 1]) == Runs(cc, s[..i]) + if RunStartsAt(cc, s, i) then {i} else {};
  }

  // ── evidence ────────────────────────────────────────────────

  function UsableSignature(cc: CharClass, s: Symbol): Option<string> {
    if s.signature.None? then None
    else
      var t := Trim(cc, s.signature.value);
      if t == "" then None else Some(t)
  }

  predicate RenamesTo(cc: CharClass, before: Symbol, after: Symbol) {
    var b, a := UsableSignature(cc, before), UsableSignature(cc, after);
    b.Some? && a.Some? && before.name != "" && Replace(b.value, before.name, after.name) == a.value
  }

  predicate SignatureIdentifies(cc: CharClass, s: Symbol, signature: string) {
    |Runs(cc, Replace(signature, s.name, " "))| >= 2
  }

  predicate RenamesWithEvidence(cc: CharClass, before: Symbol, after: Symbol) {
    && RenamesTo(cc, before, after)
    && SignatureIdentifies(cc, before, UsableSignature(cc, before).value)
    && SignatureIdentifies(cc, after, UsableSignature(cc, after).value)
  }

  function ContinuationBetween(cc: CharClass, before: Symbol, after: Symbol): Option<Continuation> {
    if before.kind != after.kind || before.language != after.language then None
    else if before.name == after.name then
      if before.file == after.file then None else Some(Moved)
    else if !RenamesWithEvidence(cc, before, after) then None
    else if before.file == after.file then Some(Renamed)
    else Some(RenamedAndMoved)
  }

  function PairingRank(how: Continuation, signatureMatches: bool): nat {
    how.Rank() + if signatureMatches then 0 else 3
  }

  function RankOf(cc: CharClass, before: Symbol, after: Symbol, how: Continuation): nat {
    PairingRank(how, RenamesTo(cc, before, after))
  }

  /** What a pairing vouches for: the kind and the language never change, a rename
      is read off the declarations, and of the six ranks two are never given. For
      a move the rank turns on the signatures being the same. */
  lemma PairingVouches(cc: CharClass, before: Symbol, after: Symbol, how: Continuation)
    requires ContinuationBetween(cc, before, after) == Some(how)
    ensures before.kind == after.kind && before.language == after.language
    ensures how.Moved? <==> before.name == after.name
    ensures how.Renamed? <==> before.file == after.file
    ensures RankOf(cc, before, after, how) in {0, 1, 2, 4}
    ensures how.Moved? && before.name != "" ==>
      (RankOf(cc, before, after, how) == 1 <==>
       UsableSignature(cc, before).Some? && UsableSignature(cc, before) == UsableSignature(cc, after))
    ensures !how.Moved? ==>
      var b, a := UsableSignature(cc, before), UsableSignature(cc, after);
      b.Some? && a.Some? && a.value == Replace(b.value, before.name, after.name)
  {
    if how.Moved? && before.name != "" && UsableSignature(cc, before).Some? {
      ReplaceBySelf(UsableSignature(cc, before).value, before.name);
    }
  }

  /** A declaration that says nothing besides its name is no evidence: with fewer
      than two words left once the name is taken out, a rename is never claimed. */
  lemma BareNamesNeverPair(cc: CharClass, before: Symbol, after: Symbol)
    requires UsableSignature(cc, before).Some?
    requires |Runs(cc, Replace(UsableSignature(cc, before).value, before.name, " "))| < 2
    requires before.name != after.name
    ensures ContinuationBetween(cc, before, after).None?
  {
  }

  /** Every other place at most can start a run. */
  lemma {:induction false} RunsAreSparse(cc: CharClass, s: string)
    ensures 2 * |Runs(cc, s)| <= |s| + 1
    ensures |s| > 0 && !IsWord(cc, s[|s| - 1]) ==> 2 * |Runs(cc, s)| <= |s|
  {
    if |s| == 0 {
      assert Runs(cc, s) == {};
    } else {
      var n := |s| - 1;
      RunsAreSparse(cc, s[..n]);
      OneMoreRun(cc, s, n);
      assert s[..n + 1] == s;
      if n > 0 { assert s[..n][n - 1] == s[n - 1]; }
    }
  }

  /** So a declaration that is only the name, or the name and one character beside it,
      never supports a rename. */
  lemma NameAloneNeverPairs(cc: CharClass, before: Symbol, after: Symbol)
    requires before.name != after.name && UsableSignature(cc, before).Some?
    requires |Replace(UsableSignature(cc, before).value, before.name, " ")| <= 2
    ensures ContinuationBetween(cc, before, after).None?
  {
    RunsAreSparse(cc, Replace(UsableSignature(cc, before).value, before.name, " "));
    BareNamesNeverPair(cc, before, after);
  }
}
