/** The glob matcher behind include and exclude patterns (scan.rs).

    The matcher keeps a single backtracking point, the most recent `*`. What it
    must decide is `Matches`, the usual reading of `*` and `?`. */
module Wildcard {
  import opened Wrappers
  import opened Bytes

  /** What a pattern means: `*` stands for any run of bytes, `?` for any one. */
  predicate Matches(p: seq<byte>, t: seq<byte>)
    decreases |p| + |t|
  {
    if |p| == 0 then |t| == 0
    else if p[0] == STAR then Matches(p[1..], t) || (|t| > 0 && Matches(p, t[1..]))
    else |t| > 0 && (p[0] == QUESTION || p[0] == t[0]) && Matches(p[1..], t[1..])
  }

  predicate AllStars(p: seq<byte>) {
    forall i :: 0 <= i < |p| ==> p[i] == STAR
  }

  /** The matcher's registers: the next text and pattern positions, the last
      star met, and the text position that star currently resumes from. */
  datatype Registers = Registers(ti: nat, pi: nat, star: Option<nat>, resume: nat)

  const START := Registers(0, 0, None, 0)

  predicate InRange(p: seq<byte>, t: seq<byte>, r: Registers) {
    && r.ti <= |t| && r.pi <= |p| && r.resume <= r.ti
    && (r.star.Some? ==> r.star.value < r.pi)
  }

  predicate Accepts(p: seq<byte>, t: seq<byte>, r: Registers)
    requires InRange(p, t, r) && r.ti < |t|
  {
    r.pi < |p| && (p[r.pi] == QUESTION || p[r.pi] == t[r.ti])
  }

  function LastStar(p: seq<byte>, r: Registers): int {
    if r.star.Some? then |p| - r.star.value else |p| + 1
  }

  /** One turn of the matching loop; `None` is the early `return false`. */
  function Step(p: seq<byte>, t: seq<byte>, r: Registers): (n: Option<Registers>)
    requires InRange(p, t, r) && r.ti < |t|
    ensures n.Some? ==> InRange(p, t, n.value)
    ensures n.Some? ==>
      || |t| - n.value.resume < |t| - r.resume
      || (n.value.resume == r.resume && LastStar(p, n.value) < LastStar(p, r))
      || (n.value.resume == r.resume && n.value.star == r.star && n.value.ti > r.ti)
  {
    if Accepts(p, t, r) then Some(r.(ti := r.ti + 1, pi := r.pi + 1))
    else if r.pi < |p| && p[r.pi] == STAR then
      Some(Registers(r.ti, r.pi + 1, Some(r.pi), r.ti))
    else if r.star.Some? then
      Some(Registers(r.resume + 1, r.star.value + 1, r.star, r.resume + 1))
    else None
  }

  predicate Run(p: seq<byte>, t: seq<byte>, r: Registers)
    requires InRange(p, t, r)
    decreases |t| - r.resume, LastStar(p, r), |t| - r.ti
  {
    if r.ti == |t| then AllStars(p[r.pi..])
    else
      var n := Step(p, t, r);
      n.Some? && Run(p, t, n.value)
  }

  /** The loop of scan.rs, register by register. */
  method WildcardMatch(text: seq<byte>, pattern: seq<byte>) returns (matched: bool)
    ensures matched == Run(pattern, text, START)
    ensures matched ==> Matches(pattern, text)
    ensures STAR !in text ==> matched == Matches(pattern, text)
  {
    hide Matches;
    StartIsSound(pattern, text);
    if STAR !in text { StartIsComplete(pattern, text); }
    var ti: nat, pi: nat, star: Option<nat>, resume: nat := 0, 0, None, 0;
    while ti < |text|
      invariant InRange(pattern, text, Registers(ti, pi, star, resume))
      invariant Run(pattern, text, Registers(ti, pi, star, resume)) == Run(pattern, text, START)
      decreases |text| - resume, LastStar(pattern, Registers(ti, pi, star, resume)), |text| - ti
    {
      if pi < |pattern| && (pattern[pi] == QUESTION || pattern[pi] == text[ti]) {
        ti := ti + 1;
        pi := pi + 1;
      } else if pi < |pattern| && pattern[pi] == STAR {
        star := Some(pi);
        pi := pi + 1;
        resume := ti;
      } else if star.Some? {
        pi := star.value + 1;
        resume := resume + 1;
        ti := resume;
      } else {
        return false;
      }
    }
    ghost var rest: nat := pi;
    while pi < |pattern| && pattern[pi] == STAR
      invariant rest <= pi <= |pattern|
      invariant forall i :: rest <= i < pi ==> pattern[i] == STAR
    {
      pi := pi + 1;
    }
    if pi < |pattern| { assert pattern[rest..][pi - rest] != STAR; }
    matched := pi == |pattern|;
  }

  // ── facts about the meaning ─────────────────────────────────

  lemma {:induction false} StarsMatchNothing(p: seq<byte>)
    ensures Matches(p, []) <==> AllStars(p)
  {
    if |p| > 0 {
      StarsMatchNothing(p[1..]);
      assert AllStars(p) <==> p[0] == STAR && AllStars(p[1..]) by {
        assert p == [p[0]] + p[1..];
      }
    }
  }

  /** A star absorbs any run of text in front of a match of what follows it. */
  lemma {:induction false} StarAbsorbs(p: seq<byte>, t: seq<byte>, a: nat, i: nat, k: nat)
    requires a < |p| && p[a] == STAR && i <= k <= |t|
    requires Matches(p[a + 1..], t[k..])
    ensures Matches(p[a..], t[i..])
    decreases k - i
  {
    assert p[a..][1..] == p[a + 1..];
    if i < k {
      StarAbsorbs(p, t, a, i + 1, k);
      assert t[i..][1..] == t[i + 1..];
    }
  }

  /** And that is all a star can do. */
  lemma {:induction false} StarSplits(p: seq<byte>, t: seq<byte>, a: nat, i: nat) returns (k: nat)
    requires a < |p| && p[a] == STAR && i <= |t|
    requires Matches(p[a..], t[i..])
    ensures i <= k <= |t| && Matches(p[a + 1..], t[k..])
    decreases |t| - i
  {
    assert p[a..][1..] == p[a + 1..];
    if Matches(p[a + 1..], t[i..]) {
      k := i;
    } else {
      assert t[i..][1..] == t[i + 1..];
      k := StarSplits(p, t, a, i + 1);
    }
  }

  /** A stretch of pattern holding no star takes exactly its own length. */
  lemma {:induction false} SegmentConsumes(p: seq<byte>, t: seq<byte>, a: nat, b: nat, k: nat)
    requires a <= b <= |p| && k <= |t| && STAR !in p[a..b]
    requires Matches(p[a..], t[k..])
    ensures k + (b - a) <= |t| && Matches(p[b..], t[k + (b - a)..])
    decreases b - a
  {
    if a < b {
      assert p[a..b][0] == p[a];
      assert p[a..][1..] == p[a + 1..] && t[k..][1..] == t[k + 1..];
      forall x | x in p[a + 1..b] ensures x in p[a..b] {
        assert p[a..b] == [p[a]] + p[a + 1..b];
      }
      SegmentConsumes(p, t, a + 1, b, k + 1);
    }
  }

  // ── the loop decides the meaning ────────────────────────────

  /** Still possible from these registers: the rest matches here, or some later
      placement of the last star works. */
  ghost predicate Viable(p: seq<byte>, t: seq<byte>, r: Registers)
    requires InRange(p, t, r)
  {
    || Matches(p[r.pi..], t[r.ti..])
    || (r.star.Some? && exists k :: r.resume < k <= |t| && Matches(p[r.star.value + 1..], t[k..]))
  }

  /** The registers remember their last star truthfully. */
  ghost predicate StarKnown(p: seq<byte>, r: Registers) {
    r.star.Some? ==> r.star.value < |p| && p[r.star.value] == STAR
  }

  lemma {:induction false} RunIsSound(p: seq<byte>, t: seq<byte>, r: Registers)
    requires InRange(p, t, r) && StarKnown(p, r)
    ensures Run(p, t, r) ==> Viable(p, t, r)
    decreases |t| - r.resume, LastStar(p, r), |t| - r.ti
  {
    if !Run(p, t, r) {
    } else if r.ti == |t| {
      StarsMatchNothing(p[r.pi..]);
    } else {
      RunIsSound(p, t, Step(p, t, r).value);
      StepIsSound(p, t, r);
      hide Viable, Step;
    }
  }

  /** What is possible after a turn was possible before it. */
  lemma StepIsSound(p: seq<byte>, t: seq<byte>, r: Registers)
    requires InRange(p, t, r) && StarKnown(p, r) && r.ti < |t| && Step(p, t, r).Some?
    requires Viable(p, t, Step(p, t, r).value)
    ensures Viable(p, t, r)
  {
    var n := Step(p, t, r).value;
    if Accepts(p, t, r) {
      assert p[r.pi..][1..] == p[n.pi..] && t[r.ti..][1..] == t[n.ti..];
      if Matches(p[n.pi..], t[n.ti..]) && p[r.pi] == STAR { StarAbsorbs(p, t, r.pi, r.ti, n.ti); }
    } else if r.pi < |p| && p[r.pi] == STAR {
      var k :| r.ti <= k <= |t| && Matches(p[n.pi..], t[k..]);
      StarAbsorbs(p, t, r.pi, r.ti, k);
    }
  }

  /** Since the last star, the pattern has been consumed byte for byte. */
  ghost predicate SegmentAligned(p: seq<byte>, r: Registers) {
    r.star.Some? ==>
      && r.star.value < r.pi <= |p|
      && r.ti - r.resume == r.pi - (r.star.value + 1)
      && STAR !in p[r.star.value + 1..r.pi]
  }

  /** A later placement of the last star carries over to the present position,
      the segment in between having a fixed length. */
  lemma LaterPlacement(p: seq<byte>, t: seq<byte>, r: Registers) returns (k: nat)
    requires InRange(p, t, r) && SegmentAligned(p, r) && Viable(p, t, r)
    ensures r.ti <= k <= |t| && Matches(p[r.pi..], t[k..])
    ensures !Matches(p[r.pi..], t[r.ti..]) ==> r.star.Some? && r.ti < k
  {
    if Matches(p[r.pi..], t[r.ti..]) {
      k := r.ti;
    } else {
      var j :| r.resume < j <= |t| && Matches(p[r.star.value + 1..], t[j..]);
      SegmentConsumes(p, t, r.star.value + 1, r.pi, j);
      k := j + (r.ti - r.resume);
    }
  }

  lemma AcceptKeepsViable(p: seq<byte>, t: seq<byte>, r: Registers)
    requires InRange(p, t, r) && SegmentAligned(p, r) && Viable(p, t, r)
    requires r.ti < |t| && t[r.ti] != STAR && Accepts(p, t, r)
    ensures SegmentAligned(p, Step(p, t, r).value) && Viable(p, t, Step(p, t, r).value)
  {
    assert p[r.pi..][0] == p[r.pi] && p[r.pi..][1..] == p[r.pi + 1..];
    assert t[r.ti..][0] == t[r.ti] && t[r.ti..][1..] == t[r.ti + 1..];
    if r.star.Some? {
      assert p[r.star.value + 1..r.pi + 1] == p[r.star.value + 1..r.pi] + [p[r.pi]];
    }
  }

  lemma NewStarKeepsViable(p: seq<byte>, t: seq<byte>, r: Registers)
    requires InRange(p, t, r) && SegmentAligned(p, r) && Viable(p, t, r)
    requires r.ti < |t| && !Accepts(p, t, r) && r.pi < |p| && p[r.pi] == STAR
    ensures SegmentAligned(p, Step(p, t, r).value) && Viable(p, t, Step(p, t, r).value)
  {
    var k := LaterPlacement(p, t, r);
    var j := StarSplits(p, t, r.pi, k);
    assert p[r.pi + 1..r.pi + 1] == [];
  }

  lemma BacktrackKeepsViable(p: seq<byte>, t: seq<byte>, r: Registers)
    requires InRange(p, t, r) && SegmentAligned(p, r) && Viable(p, t, r)
    requires r.ti < |t| && !Accepts(p, t, r) && !(r.pi < |p| && p[r.pi] == STAR)
    ensures r.star.Some?
    ensures SegmentAligned(p, Step(p, t, r).value) && Viable(p, t, Step(p, t, r).value)
  {
    assert r.pi < |p| ==> p[r.pi..][0] == p[r.pi];
    assert t[r.ti..][0] == t[r.ti];
    assert !Matches(p[r.pi..], t[r.ti..]);
    hide Matches;
    assert p[r.star.value + 1..r.star.value + 1] == [];
  }

  lemma {:induction false} RunIsComplete(p: seq<byte>, t: seq<byte>, r: Registers)
    requires InRange(p, t, r) && StarKnown(p, r) && SegmentAligned(p, r)
    requires STAR !in t
    requires Viable(p, t, r)
    ensures Run(p, t, r)
    decreases |t| - r.resume, LastStar(p, r), |t| - r.ti
  {
    if r.ti == |t| {
      var k := LaterPlacement(p, t, r);
      assert t[k..] == [];
      StarsMatchNothing(p[r.pi..]);
    } else {
      assert t[r.ti] in t;
      if Accepts(p, t, r) {
        AcceptKeepsViable(p, t, r);
      } else if r.pi < |p| && p[r.pi] == STAR {
        NewStarKeepsViable(p, t, r);
      } else {
        BacktrackKeepsViable(p, t, r);
      }
      RunIsComplete(p, t, Step(p, t, r).value);
    }
  }

  /** Whatever the text holds, an accepted pattern really matches. */
  lemma StartIsSound(p: seq<byte>, t: seq<byte>)
    ensures Run(p, t, START) ==> Matches(p, t)
  {
    RunIsSound(p, t, START);
    assert p[0..] == p && t[0..] == t;
  }

  lemma StartIsComplete(p: seq<byte>, t: seq<byte>)
    requires STAR !in t
    ensures Matches(p, t) ==> Run(p, t, START)
  {
    assert p[0..] == p && t[0..] == t;
    if Matches(p, t) { RunIsComplete(p, t, START); }
  }

  // ── exactly which texts are safe ────────────────────────────

  lemma {:induction false} LiteralPrefix(p: seq<byte>, t: seq<byte>, j: nat)
    requires j <= |t| <= |p|
    requires forall i :: j <= i < |t| ==> p[i] == QUESTION || p[i] == t[i]
    ensures Run(p, t, Registers(j, j, None, 0)) == AllStars(p[|t|..])
    decreases |t| - j
  {
    if j < |t| { LiteralPrefix(p, t, j + 1); }
  }

  lemma {:induction false} AlignedMatches(p: seq<byte>, t: seq<byte>)
    requires |p| == |t|
    requires forall i :: 0 <= i < |p| ==> p[i] != STAR && (p[i] == QUESTION || p[i] == t[i])
    ensures Matches(p, t)
  {
    if |p| > 0 { AlignedMatches(p[1..], t[1..]); }
  }

  lemma {:induction false} MatchesConcat(p: seq<byte>, q: seq<byte>, t: seq<byte>, u: seq<byte>)
    requires |p| == |t| && Matches(q, u)
    requires forall i :: 0 <= i < |p| ==> p[i] != STAR && (p[i] == QUESTION || p[i] == t[i])
    ensures Matches(p + q, t + u)
  {
    if |p| == 0 {
      assert p + q == q && t + u == u;
    } else {
      MatchesConcat(p[1..], q, t[1..], u);
      assert (p + q)[1..] == p[1..] + q && (t + u)[1..] == t[1..] + u;
    }
  }

  function FirstStar(t: seq<byte>): (i: nat)
    requires STAR in t
    ensures i < |t| && t[i] == STAR && STAR !in t[..i]
  {
    if t[0] == STAR then 0 else
      var i := 1 + FirstStar(t[1..]);
      assert t[..i] == [t[0]] + t[1..][..i - 1];
      i
  }

  /** The pattern a text holding a `*` is wrongly refused by: its own bytes up
      to that `*`, then a star, then one `?` for every byte that is left. */
  function Witness(t: seq<byte>): seq<byte>
    requires STAR in t
  {
    var i := FirstStar(t);
    t[..i] + ([STAR] + seq(|t| - i, _ => QUESTION))
  }

  lemma WitnessFails(t: seq<byte>)
    requires STAR in t
    ensures Matches(Witness(t), t) && !Run(Witness(t), t, START)
  {
    var i := FirstStar(t);
    var p := Witness(t);
    var marks := seq(|t| - i, _ => QUESTION);
    AlignedMatches(marks, t[i..]);
    assert ([STAR] + marks)[1..] == marks;
    assert forall j :: 0 <= j < i ==> t[..i][j] in t[..i];
    MatchesConcat(t[..i], [STAR] + marks, t[..i], t[i..]);
    assert t[..i] + t[i..] == t;
    LiteralPrefix(p, t, 0);
    assert p[|t|..][0] == QUESTION;
  }

  /** The matcher is right about a text under every pattern exactly when the
      text itself holds no `*`. */
  lemma AgreesExactlyWithoutStars(t: seq<byte>)
    ensures (forall p :: Run(p, t, START) == Matches(p, t)) <==> STAR !in t
  {
    if STAR in t {
      WitnessFails(t);
      assert Run(Witness(t), t, START) != Matches(Witness(t), t);
    } else {
      forall p ensures Run(p, t, START) == Matches(p, t) {
        StartIsSound(p, t);
        StartIsComplete(p, t);
      }
    }
  }
}
