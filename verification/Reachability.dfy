/** Reflexive-transitive reachability over a finite relation, cycles allowed. */
module Reachability {

  type Relation<!T(==)> = set<(T, T)>

  ghost predicate ReachesIn<T(!new)>(r: Relation<T>, n: nat, a: T, b: T) {
    if n == 0 then a == b else exists c :: (a, c) in r && ReachesIn(r, n - 1, c, b)
  }

  ghost predicate Reaches<T(!new)>(r: Relation<T>, a: T, b: T) {
    exists n: nat :: ReachesIn(r, n, a, b)
  }

  ghost predicate Closed<T(!new)>(r: Relation<T>, s: set<T>) {
    forall a, b :: a in s && (a, b) in r ==> b in s
  }

  lemma ReachesSelf<T(!new)>(r: Relation<T>, a: T)
    ensures Reaches(r, a, a)
  {
    assert ReachesIn(r, 0, a, a);
  }

  lemma {:induction false} JoinIn<T(!new)>(r: Relation<T>, m: nat, n: nat, a: T, b: T, c: T)
    requires ReachesIn(r, m, a, b) && ReachesIn(r, n, b, c)
    ensures ReachesIn(r, m + n, a, c)
  {
    if m > 0 {
      var d :| (a, d) in r && ReachesIn(r, m - 1, d, b);
      JoinIn(r, m - 1, n, d, b, c);
    }
  }

  lemma ReachesThrough<T(!new)>(r: Relation<T>, a: T, b: T, c: T)
    requires Reaches(r, a, b) && Reaches(r, b, c)
    ensures Reaches(r, a, c)
  {
    var m: nat :| ReachesIn(r, m, a, b);
    var n: nat :| ReachesIn(r, n, b, c);
    JoinIn(r, m, n, a, b, c);
  }

  lemma Step<T(!new)>(r: Relation<T>, a: T, b: T)
    requires (a, b) in r
    ensures Reaches(r, a, b)
  {
    assert ReachesIn(r, 0, b, b);
    assert ReachesIn(r, 1, a, b);
  }

  lemma Extend<T(!new)>(r: Relation<T>, a: T, b: T, c: T)
    requires Reaches(r, a, b) && (b, c) in r
    ensures Reaches(r, a, c)
  {
    Step(r, b, c);
    ReachesThrough(r, a, b, c);
  }

  /** A reachable node other than the start is entered along some pair. */
  lemma FirstStep<T(!new)>(r: Relation<T>, a: T, b: T) returns (c: T)
    requires Reaches(r, a, b) && a != b
    ensures (a, c) in r && Reaches(r, c, b)
  {
    var n: nat :| ReachesIn(r, n, a, b);
    c :| (a, c) in r && ReachesIn(r, n - 1, c, b);
  }

  lemma {:induction false} ClosedHoldsIn<T(!new)>(r: Relation<T>, s: set<T>, n: nat, a: T, b: T)
    requires Closed(r, s) && a in s && ReachesIn(r, n, a, b)
    ensures b in s
  {
    if n > 0 {
      var c :| (a, c) in r && ReachesIn(r, n - 1, c, b);
      ClosedHoldsIn(r, s, n - 1, c, b);
    }
  }

  /** What is closed under the relation keeps everything it reaches. */
  lemma ClosedHolds<T(!new)>(r: Relation<T>, s: set<T>, a: T, b: T)
    requires Closed(r, s) && a in s && Reaches(r, a, b)
    ensures b in s
  {
    var n: nat :| ReachesIn(r, n, a, b);
    ClosedHoldsIn(r, s, n, a, b);
  }

  lemma {:induction false} WiderIn<T(!new)>(r: Relation<T>, q: Relation<T>, n: nat, a: T, b: T)
    requires r <= q && ReachesIn(r, n, a, b)
    ensures ReachesIn(q, n, a, b)
  {
    if n > 0 {
      var c :| (a, c) in r && ReachesIn(r, n - 1, c, b);
      WiderIn(r, q, n - 1, c, b);
    }
  }

  lemma Wider<T(!new)>(r: Relation<T>, q: Relation<T>, a: T, b: T)
    requires r <= q && Reaches(r, a, b)
    ensures Reaches(q, a, b)
  {
    var n: nat :| ReachesIn(r, n, a, b);
    WiderIn(r, q, n, a, b);
  }

  /** A map that sends every pair to a pair or to a single node carries
      reachability along. */
  lemma {:induction false} ImageIn<T(!new), U(!new)>(r: Relation<T>, q: Relation<U>, f: T -> U, n: nat, a: T, b: T)
    requires forall x, y :: (x, y) in r && f(x) != f(y) ==> (f(x), f(y)) in q
    requires ReachesIn(r, n, a, b)
    ensures Reaches(q, f(a), f(b))
  {
    if n == 0 {
      ReachesSelf(q, f(a));
    } else {
      var c :| (a, c) in r && ReachesIn(r, n - 1, c, b);
      ImageIn(r, q, f, n - 1, c, b);
      if f(a) != f(c) {
        Step(q, f(a), f(c));
        ReachesThrough(q, f(a), f(c), f(b));
      }
    }
  }

  lemma Image<T(!new), U(!new)>(r: Relation<T>, q: Relation<U>, f: T -> U, a: T, b: T)
    requires forall x, y :: (x, y) in r && f(x) != f(y) ==> (f(x), f(y)) in q
    requires Reaches(r, a, b)
    ensures Reaches(q, f(a), f(b))
  {
    var n: nat :| ReachesIn(r, n, a, b);
    ImageIn(r, q, f, n, a, b);
  }
}
