/** Keyed entries in order of last use. The query cache and the revision table
    both stamp each entry with a counter; what either one means is the list of
    its entries, newest stamp first. */
module Recency {

  datatype Entry<V> = Entry(key: string, value: V)

  datatype Stamped<V> = Stamped(value: V, stamp: nat)

  type Entries<V> = map<string, Stamped<V>>

  function Without<V>(xs: seq<Entry<V>>, key: string): (r: seq<Entry<V>>)
    ensures |r| <= |xs|
  {
    if |xs| == 0 then []
    else if xs[0].key == key then Without(xs[1..], key)
    else [xs[0]] + Without(xs[1..], key)
  }

  function Lookup<V>(xs: seq<Entry<V>>, key: string): seq<V> {
    if |xs| == 0 then []
    else if xs[0].key == key then [xs[0].value]
    else Lookup(xs[1..], key)
  }

  function Put<V>(xs: seq<Entry<V>>, key: string, value: V): seq<Entry<V>> {
    [Entry(key, value)] + Without(xs, key)
  }

  function Newest<V>(xs: seq<Entry<V>>, n: nat): seq<Entry<V>> {
    if |xs| <= n then xs else xs[..n]
  }

  /** `key` carries the highest stamp of `m`, and carries it alone. */
  ghost predicate IsNewest<V>(m: Entries<V>, key: string) {
    key in m && forall k :: k in m && k != key ==> m[k].stamp < m[key].stamp
  }

  /** `xs` lists the entries of `m`, newest stamp first, each exactly once. */
  ghost predicate Lists<V>(m: Entries<V>, xs: seq<Entry<V>>)
    decreases |xs|
  {
    if |xs| == 0 then m == map[]
    else
      && IsNewest(m, xs[0].key)
      && m[xs[0].key].value == xs[0].value
      && Lists(m - {xs[0].key}, xs[1..])
  }

  lemma {:induction false} ListsCounts<V>(m: Entries<V>, xs: seq<Entry<V>>)
    requires Lists(m, xs)
    ensures |m| == |xs|
  {
    if |xs| > 0 {
      ListsCounts(m - {xs[0].key}, xs[1..]);
      assert m.Keys == (m - {xs[0].key}).Keys + {xs[0].key};
    }
  }

  lemma {:induction false} WithoutMissing<V>(m: Entries<V>, xs: seq<Entry<V>>, key: string)
    requires Lists(m, xs) && key !in m
    ensures Without(xs, key) == xs
  {
    if |xs| > 0 { WithoutMissing(m - {xs[0].key}, xs[1..], key); }
  }

  /** Looking a key up in the table and in the list agree. */
  lemma {:induction false} LookupAgrees<V>(m: Entries<V>, xs: seq<Entry<V>>, key: string)
    requires Lists(m, xs)
    ensures Lookup(xs, key) == if key in m then [m[key].value] else []
  {
    if |xs| > 0 && xs[0].key != key { LookupAgrees(m - {xs[0].key}, xs[1..], key); }
  }

  lemma {:induction false} RemoveLists<V>(m: Entries<V>, xs: seq<Entry<V>>, key: string)
    requires Lists(m, xs)
    ensures Lists(m - {key}, Without(xs, key))
  {
    if |xs| == 0 {
      assert m - {key} == m;
    } else {
      var top := xs[0].key;
      if top == key {
        WithoutMissing(m - {key}, xs[1..], key);
      } else {
        RemoveLists(m - {top}, xs[1..], key);
        assert (m - {top}) - {key} == (m - {key}) - {top};
      }
    }
  }

  /** Stamping a key above everything present puts it at the front. */
  lemma PutLists<V>(m: Entries<V>, xs: seq<Entry<V>>, key: string, value: V, stamp: nat)
    requires Lists(m, xs)
    requires forall k :: k in m ==> m[k].stamp < stamp
    ensures Lists(m[key := Stamped(value, stamp)], Put(xs, key, value))
  {
    RemoveLists(m, xs, key);
    assert m[key := Stamped(value, stamp)] - {key} == m - {key};
  }

  /** The smallest stamp belongs to the end of the list. */
  lemma {:induction false} DropOldest<V>(m: Entries<V>, xs: seq<Entry<V>>, key: string)
    requires Lists(m, xs) && key in m
    requires forall k :: k in m ==> m[key].stamp <= m[k].stamp
    ensures |xs| > 0 && Lists(m - {key}, xs[..|xs| - 1])
  {
    var top := xs[0].key;
    if |xs| == 1 {
      assert m - {top} == map[] && key !in m - {top};
    } else {
      var second := xs[1].key;
      assert second in m - {top};
      DropOldest(m - {top}, xs[1..], key);
      assert (m - {top}) - {key} == (m - {key}) - {top};
      assert xs[1..][..|xs| - 2] == xs[..|xs| - 1][1..];
    }
  }

  lemma DropFromNewest<V>(m: Entries<V>, xs: seq<Entry<V>>, key: string)
    requires |m| <= |xs| && Lists(m, Newest(xs, |m|)) && key in m
    requires forall k :: k in m ==> m[key].stamp <= m[k].stamp
    ensures |m - {key}| == |m| - 1 && Lists(m - {key}, Newest(xs, |m| - 1))
  {
    var kept := Newest(xs, |m|);
    ListsCounts(m, kept);
    DropOldest(m, kept, key);
    assert kept[..|m| - 1] == Newest(xs, |m| - 1);
    ListsCounts(m - {key}, Newest(xs, |m| - 1));
  }

  /** Restamping a key that is present changes the order and not the size. */
  lemma RestampLists<V>(m: Entries<V>, xs: seq<Entry<V>>, key: string, stamp: nat)
    requires Lists(m, xs) && key in m
    requires forall k :: k in m ==> m[k].stamp < stamp
    ensures Lists(m[key := m[key].(stamp := stamp)], Put(xs, key, m[key].value))
    ensures |Put(xs, key, m[key].value)| == |xs|
  {
    var m' := m[key := m[key].(stamp := stamp)];
    assert m' == m[key := Stamped(m[key].value, stamp)];
    PutLists(m, xs, key, m[key].value, stamp);
    ListsCounts(m, xs);
    ListsCounts(m', Put(xs, key, m[key].value));
    assert m'.Keys == m.Keys;
    assert |m'| == |m'.Keys| && |m| == |m.Keys|;
  }

  /** A table has one such list. */
  lemma {:induction false} ListIsUnique<V>(m: Entries<V>, xs: seq<Entry<V>>, ys: seq<Entry<V>>)
    requires Lists(m, xs) && Lists(m, ys)
    ensures xs == ys
  {
    ListsCounts(m, xs);
    ListsCounts(m, ys);
    if |xs| > 0 {
      assert xs[0].key == ys[0].key;
      ListIsUnique(m - {xs[0].key}, xs[1..], ys[1..]);
      assert xs == [xs[0]] + xs[1..] && ys == [ys[0]] + ys[1..];
    }
  }

  /** What removing a key keeps, it keeps in order. */
  lemma {:induction false} WithoutKeeps<V>(xs: seq<Entry<V>>, key: string) returns (at: seq<nat>)
    ensures |at| == |Without(xs, key)|
    ensures forall i :: 0 <= i < |at| ==> at[i] < |xs| && xs[at[i]] == Without(xs, key)[i] && xs[at[i]].key != key
    ensures forall i, j :: 0 <= i < j < |at| ==> at[i] < at[j]
  {
    if |xs| == 0 {
      at := [];
    } else {
      var rest := WithoutKeeps(xs[1..], key);
      var shifted := seq(|rest|, i requires 0 <= i < |rest| => rest[i] + 1);
      at := if xs[0].key == key then shifted else [0] + shifted;
    }
  }

  lemma {:induction false} LookupFinds<V>(xs: seq<Entry<V>>, key: string) returns (i: nat)
    requires Lookup(xs, key) != []
    ensures i < |xs| && xs[i] == Entry(key, Lookup(xs, key)[0])
  {
    if xs[0].key == key { i := 0; } else {
      var j := LookupFinds(xs[1..], key);
      i := j + 1;
    }
  }
}
