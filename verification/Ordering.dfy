/** Total orders on composite keys, and the stable sort the engine applies to
    every list that reaches its output.

    A derived `Ord` on a Rust struct or tuple compares field by field, so a key
    is a sequence of atoms compared lexicographically. `None` sorts before any
    value, and a string compares by code point. */
module Ordering {

  datatype Atom = Absent | Num(n: nat) | Text(s: string)

  type SortKey = seq<Atom>

  predicate CharsLe(a: string, b: string) {
    |a| == 0 || (|b| > 0 && (a[0] < b[0] || (a[0] == b[0] && CharsLe(a[1..], b[1..]))))
  }

  predicate AtomLe(a: Atom, b: Atom) {
    match (a, b)
    case (Absent, _) => true
    case (Num(m), Num(n)) => m <= n
    case (Num(_), Text(_)) => true
    case (Text(s), Text(t)) => CharsLe(s, t)
    case _ => false
  }

  predicate Le(a: SortKey, b: SortKey) {
    |a| == 0 || (|b| > 0 && if a[0] == b[0] then Le(a[1..], b[1..]) else AtomLe(a[0], b[0]))
  }

  function TextKey(s: string): SortKey { [Text(s)] }

  predicate Less(a: SortKey, b: SortKey) {
    Le(a, b) && a != b
  }

  // ── the order is total ──────────────────────────────────────

  lemma {:induction false} CharsTotal(a: string, b: string)
    ensures CharsLe(a, b) || CharsLe(b, a)
    ensures CharsLe(a, b) && CharsLe(b, a) ==> a == b
  {
    if |a| > 0 && |b| > 0 {
      CharsTotal(a[1..], b[1..]);
      assert a == [a[0]] + a[1..] && b == [b[0]] + b[1..];
    }
  }

  lemma {:induction false} CharsTransitive(a: string, b: string, c: string)
    requires CharsLe(a, b) && CharsLe(b, c)
    ensures CharsLe(a, c)
  {
    if |a| > 0 && a[0] == b[0] == c[0] {
      CharsTransitive(a[1..], b[1..], c[1..]);
    }
  }

  lemma AtomTotal(a: Atom, b: Atom)
    ensures AtomLe(a, b) || AtomLe(b, a)
    ensures AtomLe(a, b) && AtomLe(b, a) ==> a == b
  {
    if a.Text? && b.Text? { CharsTotal(a.s, b.s); }
  }

  lemma AtomTransitive(a: Atom, b: Atom, c: Atom)
    requires AtomLe(a, b) && AtomLe(b, c)
    ensures AtomLe(a, c)
  {
    if a.Text? { CharsTransitive(a.s, b.s, c.s); }
  }

  lemma {:induction false} Total(a: SortKey, b: SortKey)
    ensures Le(a, b) || Le(b, a)
    ensures Le(a, b) && Le(b, a) ==> a == b
  {
    if |a| > 0 && |b| > 0 {
      AtomTotal(a[0], b[0]);
      Total(a[1..], b[1..]);
      assert a == [a[0]] + a[1..] && b == [b[0]] + b[1..];
    }
  }

  lemma {:induction false} Transitive(a: SortKey, b: SortKey, c: SortKey)
    requires Le(a, b) && Le(b, c)
    ensures Le(a, c)
  {
    if |a| > 0 {
      if a[0] == b[0] == c[0] {
        Transitive(a[1..], b[1..], c[1..]);
      } else {
        AtomTotal(a[0], a[0]);
        AtomTotal(b[0], b[0]);
        AtomTransitive(a[0], b[0], c[0]);
        AtomTotal(a[0], b[0]);
      }
    }
  }

  lemma LessTransitive(a: SortKey, b: SortKey, c: SortKey)
    requires (Le(a, b) && Less(b, c)) || (Less(a, b) && Le(b, c))
    ensures Less(a, c)
  {
    Transitive(a, b, c);
    Total(a, b);
    Total(b, c);
  }

  lemma {:induction false} Reflexive(a: SortKey)
    ensures Le(a, a)
  {
    if |a| > 0 { Reflexive(a[1..]); }
  }

  /** Strings compare at the first place they differ, a prefix before what it begins. */
  lemma {:induction false} CharsLeTells(a: string, b: string)
    ensures CharsLe(a, b) <==> a <= b || exists i: nat :: i < |a| && i < |b| && a[..i] == b[..i] && a[i] < b[i]
  {
    if |a| > 0 && |b| > 0 {
      CharsLeTells(a[1..], b[1..]);
      if a[0] == b[0] {
        assert a <= b <==> a[1..] <= b[1..] by { assert a == [a[0]] + a[1..] && b == [b[0]] + b[1..]; }
        if i: nat :| i < |a| - 1 && i < |b| - 1 && a[1..][..i] == b[1..][..i] && a[1..][i] < b[1..][i] {
          assert a[..i + 1] == [a[0]] + a[1..][..i] && b[..i + 1] == [b[0]] + b[1..][..i];
        }
        if i: nat :| i < |a| && i < |b| && a[..i] == b[..i] && a[i] < b[i] {
          assert i > 0 && a[1..][..i - 1] == a[..i][1..] && b[1..][..i - 1] == b[..i][1..];
          assert a[1..][i - 1] < b[1..][i - 1];
        }
      } else if a[0] < b[0] {
        assert a[..0] == b[..0];
      } else {
        forall i: nat | 0 < i < |a| && i < |b| ensures a[..i] != b[..i] {
          assert a[..i][0] == a[0] && b[..i][0] == b[0];
        }
      }
    }
  }

  /** Keys compare at the first atom in which they differ. */
  lemma {:induction false} LeTells(p: SortKey, a: Atom, b: Atom, k: SortKey, l: SortKey)
    requires a != b
    ensures Le(p + [a] + k, p + [b] + l) <==> AtomLe(a, b)
  {
    if |p| > 0 {
      LeTells(p[1..], a, b, k, l);
      assert (p + [a] + k)[1..] == p[1..] + [a] + k && (p + [b] + l)[1..] == p[1..] + [b] + l;
    } else {
      assert p + [a] + k == [a] + k && p + [b] + l == [b] + l;
    }
  }

  /** Or, atom by atom from the front. */
  lemma Lex(a: Atom, b: Atom, s: SortKey, t: SortKey)
    ensures Le([a] + s, [b] + t) <==> if a == b then Le(s, t) else AtomLe(a, b)
  {
    assert ([a] + s)[1..] == s && ([b] + t)[1..] == t;
  }

  lemma LastCompares(a: string, b: string)
    ensures Le([Text(a)], [Text(b)]) <==> CharsLe(a, b)
  {
    CharsTotal(a, a);
  }

  /** Nothing before anything, numbers by size, strings as strings. */
  lemma AtomsCompare(m: nat, n: nat, s: string, t: string)
    ensures AtomLe(Absent, Text(s)) && !AtomLe(Text(s), Absent)
    ensures AtomLe(Num(m), Num(n)) <==> m <= n
    ensures AtomLe(Text(s), Text(t)) <==> CharsLe(s, t)
  {
  }

  // ── the stable sort ─────────────────────────────────────────

  ghost predicate SortedBy<T(!new)>(key: T -> SortKey, xs: seq<T>) {
    forall i, j :: 0 <= i < j < |xs| ==> Le(key(xs[i]), key(xs[j]))
  }

  ghost predicate StrictlySortedBy<T(!new)>(key: T -> SortKey, xs: seq<T>) {
    forall i, j :: 0 <= i < j < |xs| ==> Less(key(xs[i]), key(xs[j]))
  }

  /** Places `x` in front of the first element it does not exceed, so that it
      stays ahead of its equals. */
  function Insert<T>(key: T -> SortKey, x: T, xs: seq<T>): seq<T> {
    if |xs| == 0 || Le(key(x), key(xs[0])) then [x] + xs
    else [xs[0]] + Insert(key, x, xs[1..])
  }

  function SortBy<T>(key: T -> SortKey, xs: seq<T>): seq<T> {
    if |xs| == 0 then [] else Insert(key, xs[0], SortBy(key, xs[1..]))
  }

  lemma PrependSorted<T(!new)>(key: T -> SortKey, x: T, xs: seq<T>)
    requires SortedBy(key, xs)
    requires forall y :: y in xs ==> Le(key(x), key(y))
    ensures SortedBy(key, [x] + xs)
  {
    var r := [x] + xs;
    forall i, j | 0 <= i < j < |r| ensures Le(key(r[i]), key(r[j])) {
      assert r[j] == xs[j - 1];
      if i > 0 { assert r[i] == xs[i - 1]; }
    }
  }

  lemma {:induction false} InsertKeeps<T(!new)>(key: T -> SortKey, x: T, xs: seq<T>)
    ensures multiset(Insert(key, x, xs)) == multiset{x} + multiset(xs)
    ensures forall y :: y in Insert(key, x, xs) <==> y == x || y in xs
  {
    var r := Insert(key, x, xs);
    if |xs| > 0 && !Le(key(x), key(xs[0])) {
      InsertKeeps(key, x, xs[1..]);
      assert xs == [xs[0]] + xs[1..];
    }
    forall y ensures y in r <==> y == x || y in xs {
      assert y in r <==> y in multiset(r);
      assert y in xs <==> y in multiset(xs);
    }
  }

  lemma {:induction false} InsertSorts<T(!new)>(key: T -> SortKey, x: T, xs: seq<T>)
    requires SortedBy(key, xs)
    ensures SortedBy(key, Insert(key, x, xs))
  {
    if |xs| == 0 {
    } else if Le(key(x), key(xs[0])) {
      forall y | y in xs ensures Le(key(x), key(y)) {
        var i :| 0 <= i < |xs| && xs[i] == y;
        if i > 0 { Transitive(key(x), key(xs[0]), key(y)); }
      }
      PrependSorted(key, x, xs);
    } else {
      Total(key(x), key(xs[0]));
      InsertSorts(key, x, xs[1..]);
      InsertKeeps(key, x, xs[1..]);
      PrependSorted(key, xs[0], Insert(key, x, xs[1..]));
    }
  }

  /** Sorting permutes the list and leaves it in order. */
  lemma {:induction false} Sorts<T(!new)>(key: T -> SortKey, xs: seq<T>)
    ensures multiset(SortBy(key, xs)) == multiset(xs)
    ensures |SortBy(key, xs)| == |xs|
    ensures SortedBy(key, SortBy(key, xs))
  {
    if |xs| > 0 {
      Sorts(key, xs[1..]);
      InsertSorts(key, xs[0], SortBy(key, xs[1..]));
      InsertKeeps(key, xs[0], SortBy(key, xs[1..]));
      assert xs == [xs[0]] + xs[1..];
    }
    assert |multiset(SortBy(key, xs))| == |multiset(xs)|;
  }

  /** Membership is untouched by sorting. */
  lemma SortKeeps<T(!new)>(key: T -> SortKey, xs: seq<T>)
    ensures forall x :: x in SortBy(key, xs) <==> x in xs
  {
    Sorts(key, xs);
    forall x ensures x in SortBy(key, xs) <==> x in xs {
      assert x in multiset(SortBy(key, xs)) <==> x in multiset(xs);
    }
  }

  /** A stable sort leaves a list that is already in order exactly as it was,
      equal keys included. */
  lemma {:induction false} SortIdempotent<T(!new)>(key: T -> SortKey, xs: seq<T>)
    requires SortedBy(key, xs)
    ensures SortBy(key, xs) == xs
  {
    if |xs| > 0 {
      SortIdempotent(key, xs[1..]);
      assert xs == [xs[0]] + xs[1..];
    }
  }

  lemma HasMember<T>(xs: seq<T>)
    requires |xs| > 0
    ensures exists x :: x in xs
  {
    assert xs[0] in xs;
  }

  /** Two strictly sorted lists with the same elements are the same list. */
  lemma {:induction false} StrictOrderIsUnique<T(!new)>(key: T -> SortKey, xs: seq<T>, ys: seq<T>)
    requires StrictlySortedBy(key, xs) && StrictlySortedBy(key, ys)
    requires forall x :: x in xs <==> x in ys
    ensures xs == ys
  {
    if |xs| == 0 {
      if |ys| > 0 {
        HasMember(ys);
        assert false;
      }
    } else {
      assert xs[0] in ys && ys[0] in xs;
      Total(key(xs[0]), key(ys[0]));
      assert xs[0] == ys[0];
      assert xs == [xs[0]] + xs[1..] && ys == [ys[0]] + ys[1..];
      forall x ensures x in xs[1..] <==> x in ys[1..] {
        assert x in xs[1..] <==> x in xs && x != xs[0];
        assert x in ys[1..] <==> x in ys && x != ys[0];
      }
      StrictOrderIsUnique(key, xs[1..], ys[1..]);
    }
  }

  lemma {:induction false} OnceEach<T>(xs: seq<T>)
    requires forall i, j :: 0 <= i < j < |xs| ==> xs[i] != xs[j]
    ensures forall x :: multiset(xs)[x] <= 1
  {
    if |xs| > 0 {
      OnceEach(xs[1..]);
      assert xs == [xs[0]] + xs[1..];
      assert xs[0] !in xs[1..];
    }
  }

  lemma TwiceCounts<T>(xs: seq<T>, i: nat, j: nat)
    requires i < j < |xs| && xs[i] == xs[j]
    ensures multiset(xs)[xs[i]] >= 2
  {
    assert xs == xs[..i] + [xs[i]] + xs[i + 1..j] + [xs[j]] + xs[j + 1..];
  }

  /** Rows that differ, and so have different keys, sort without a tie. */
  lemma DistinctSortsStrictly<T(!new)>(key: T -> SortKey, xs: seq<T>)
    requires forall i, j :: 0 <= i < j < |xs| ==> xs[i] != xs[j]
    requires forall x, y :: x in xs && y in xs && key(x) == key(y) ==> x == y
    ensures StrictlySortedBy(key, SortBy(key, xs))
  {
    Sorts(key, xs);
    SortKeeps(key, xs);
    OnceEach(xs);
    var ys := SortBy(key, xs);
    forall i, j | 0 <= i < j < |ys| ensures Less(key(ys[i]), key(ys[j])) {
      assert ys[i] in ys && ys[j] in ys;
      if ys[i] == ys[j] { TwiceCounts(ys, i, j); }
    }
  }

  /** The elements of a set in order, as a BTreeSet yields them. */
  method InOrder<T(==, !new)>(key: T -> SortKey, items: set<T>) returns (xs: seq<T>)
    requires forall x, y :: x in items && y in items && key(x) == key(y) ==> x == y
    ensures StrictlySortedBy(key, xs)
    ensures forall x :: x in xs <==> x in items
  {
    var rest := items;
    xs := [];
    while rest != {}
      invariant rest <= items
      invariant forall x :: x in xs <==> x in items - rest
      invariant forall i, j :: 0 <= i < j < |xs| ==> xs[i] != xs[j]
      decreases rest
    {
      var x :| x in rest;
      assert x !in xs;
      forall i | 0 <= i < |xs| ensures xs[i] != x { assert xs[i] in xs; }
      rest := rest - {x};
      xs := xs + [x];
    }
    DistinctSortsStrictly(key, xs);
    SortKeeps(key, xs);
    xs := SortBy(key, xs);
  }

  /** Every finite set has such an ordering. */
  lemma {:induction false} HasOrder<T(!new)>(key: T -> SortKey, items: set<T>) returns (xs: seq<T>)
    requires forall x, y :: x in items && y in items && key(x) == key(y) ==> x == y
    ensures StrictlySortedBy(key, xs)
    ensures forall x :: x in xs <==> x in items
    decreases items
  {
    if items == {} {
      xs := [];
    } else {
      var x :| x in items;
      var rest := HasOrder(key, items - {x});
      var all := [x] + rest;
      forall i, j | 0 <= i < j < |all| ensures all[i] != all[j] {
        assert all[j] == rest[j - 1] && all[j] in rest;
        if i > 0 { assert Less(key(rest[i - 1]), key(rest[j - 1])); }
      }
      DistinctSortsStrictly(key, all);
      SortKeeps(key, all);
      xs := SortBy(key, all);
    }
  }

  lemma {:induction false} DistinctCounts<T>(xs: seq<T>)
    requires forall i, j :: 0 <= i < j < |xs| ==> xs[i] != xs[j]
    ensures |set x | x in xs| == |xs|
  {
    if |xs| > 0 {
      var n := |xs| - 1;
      DistinctCounts(xs[..n]);
      assert xs == xs[..n] + [xs[n]];
      assert (set x | x in xs) == (set x | x in xs[..n]) + {xs[n]};
    }
  }
}
