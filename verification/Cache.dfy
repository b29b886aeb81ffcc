/** The query cache (cache.rs), read sequentially. */
module Cache {
  import opened Wrappers
  import opened Recency

  const U64_MAX: nat := 0xFFFF_FFFF_FFFF_FFFF

  datatype CacheStats = CacheStats(hits: nat, misses: nat, evictions: nat, size: nat)

  // ── what the cache means ────────────────────────────────────

  /** The entries in order of last touch, and the counters. */
  datatype Model = Model(recent: seq<Entry<string>>, hits: nat, misses: nat, evictions: nat)

  const EMPTY := Model([], 0, 0, 0)

  datatype Op = PutOp(key: string, value: string) | GetOp(key: string) | InvalidateOp(key: string) | ClearOp

  function PutStep(max: nat, m: Model, key: string, value: string): Model {
    var all := Put(m.recent, key, value);
    m.(recent := Newest(all, max), evictions := m.evictions + (|all| - |Newest(all, max)|))
  }

  function GetStep(m: Model, key: string): Model {
    var found := Lookup(m.recent, key);
    if found == [] then m.(misses := m.misses + 1)
    else m.(hits := m.hits + 1, recent := Put(m.recent, key, found[0]))
  }

  function Apply(max: nat, m: Model, op: Op): Model {
    match op
    case PutOp(key, value) => PutStep(max, m, key, value)
    case GetOp(key) => GetStep(m, key)
    case InvalidateOp(key) => m.(recent := Without(m.recent, key))
    case ClearOp => m.(recent := [])
  }

  function Run(max: nat, ops: seq<Op>): Model {
    if |ops| == 0 then EMPTY
    else Apply(max, Run(max, ops[..|ops| - 1]), ops[|ops| - 1])
  }

  /** What a get answers after a given history. */
  function Answer(max: nat, ops: seq<Op>, key: string): Option<string> {
    var found := Lookup(Run(max, ops).recent, key);
    if found == [] then None else Some(found[0])
  }

  function Gets(ops: seq<Op>): nat {
    if |ops| == 0 then 0 else Gets(ops[..|ops| - 1]) + if ops[|ops| - 1].GetOp? then 1 else 0
  }

  /** The operation that last touched a key: a put, or a get that found it. */
  function LastTouch(max: nat, ops: seq<Op>, key: string): int {
    if |ops| == 0 then -1
    else
      var last := |ops| - 1;
      if ops[last].PutOp? && ops[last].key == key then last
      else if ops[last] == GetOp(key) && Answer(max, ops[..last], key).Some? then last
      else LastTouch(max, ops[..last], key)
  }

  /** The value most recently put under a key. */
  function LastPut(ops: seq<Op>, key: string): Option<string> {
    if |ops| == 0 then None
    else
      var last := |ops| - 1;
      if ops[last].PutOp? && ops[last].key == key then Some(ops[last].value)
      else LastPut(ops[..last], key)
  }

  // ── the implementation ──────────────────────────────────────

  predicate AllBelow(entries: Entries<string>, bound: nat) { forall k :: k in entries ==> entries[k].stamp < bound }

  /** The scan for the oldest tick, over the map in whatever order it comes. It starts
      from the largest tick there is, so an entry with that tick is never chosen. */
  method OldestKey(entries: Entries<string>) returns (oldest: Option<string>)
    ensures oldest.None? <==> forall k :: k in entries ==> entries[k].stamp >= U64_MAX
    ensures oldest.Some? ==> oldest.value in entries && entries[oldest.value].stamp < U64_MAX
    ensures oldest.Some? ==> forall k :: k in entries ==> entries[oldest.value].stamp <= entries[k].stamp
  {
    oldest := None;
    var oldestTick := U64_MAX;
    var rest := entries.Keys;
    while rest != {}
      invariant rest <= entries.Keys
      invariant oldest.None? ==> oldestTick == U64_MAX
      invariant oldest.Some? ==> oldest.value in entries && entries[oldest.value].stamp == oldestTick < U64_MAX
      invariant forall k :: k in entries && k !in rest ==> oldestTick <= entries[k].stamp
      decreases rest
    {
      var key :| key in rest;
      rest := rest - {key};
      if entries[key].stamp < oldestTick {
        oldestTick := entries[key].stamp;
        oldest := Some(key);
      }
    }
  }

  /** What eviction may leave: it takes away the oldest entries only, none while they
      fit, and never one that has the largest tick. */
  ghost predicate Evicts(from: Entries<string>, max: nat, entries: Entries<string>) {
    && entries.Keys <= from.Keys && (forall k :: k in entries ==> entries[k] == from[k])
    && (forall k, j :: k in from && k !in entries && j in entries ==> from[k].stamp <= from[j].stamp)
    && (forall k :: k in from && from[k].stamp >= U64_MAX ==> k in entries)
    && (|from| <= max ==> entries == from)
    && (|entries| <= max || forall k :: k in entries ==> entries[k].stamp >= U64_MAX)
  }

  /** Eviction takes away the oldest entries only, and stops short of the bound only
      when none but the largest tick is left. While no entry has that tick it keeps
      exactly the newest, however the map is ordered. */
  method EvictIfNeeded(from: Entries<string>, max: nat, ghost xs: seq<Entry<string>>)
    returns (entries: Entries<string>, evictions: nat)
    ensures Evicts(from, max, entries)
    ensures Lists(from, xs) && AllBelow(from, U64_MAX) ==>
      Lists(entries, Newest(xs, max)) && evictions == |xs| - |Newest(xs, max)|
  {
    ghost var tidy := Lists(from, xs) && AllBelow(from, U64_MAX);
    if tidy { ListsCounts(from, xs); }
    entries, evictions := from, 0;
    while |entries| > max
      invariant entries.Keys <= from.Keys && forall k :: k in entries ==> entries[k] == from[k]
      invariant forall k, j :: k in from && k !in entries && j in entries ==> from[k].stamp <= from[j].stamp
      invariant forall k :: k in from && from[k].stamp >= U64_MAX ==> k in entries
      invariant entries == from || |from| > max
      invariant tidy ==> |entries| + evictions == |xs| && (evictions == 0 || |entries| >= max)
      invariant tidy ==> Lists(entries, Newest(xs, |entries|))
      decreases |entries|
    {
      var oldest := OldestKey(entries);
      if oldest.None? {
        assert tidy ==> entries == map[];
        break;
      }
      if tidy { DropFromNewest(entries, xs, oldest.value); }
      assert entries.Keys == (entries - {oldest.value}).Keys + {oldest.value};
      entries := entries - {oldest.value};
      evictions := evictions + 1;
    }
    if tidy { assert Newest(xs, |entries|) == Newest(xs, max); }
  }

  /** A 64-bit counter starts again from zero. */
  function NextTick(tick: nat): nat { if tick >= U64_MAX then 0 else tick + 1 }

  /** The ticks tell the order of last touch. */
  ghost predicate Ordered(entries: Entries<string>, recent: seq<Entry<string>>, tick: nat, max: nat) {
    Lists(entries, recent) && AllBelow(entries, tick) && |recent| <= max
  }

  class HotQueryCache {
    var entries: Entries<string>
    const maxEntries: nat
    var tick: nat
    var hits: nat
    var misses: nat
    var evictions: nat
    ghost var recent: seq<Entry<string>>

    /** Every tick is a 64-bit number. */
    predicate Typed()
      reads this
    {
      tick <= U64_MAX && forall k :: k in entries ==> entries[k].stamp <= U64_MAX
    }

    /** The ticks tell the order, as they do until the counter has started again. */
    ghost predicate Valid()
      reads this
    {
      Typed() && Ordered(entries, recent, tick, maxEntries)
    }

    ghost function State(): Model
      reads this
    {
      Model(recent, hits, misses, evictions)
    }

    constructor (maxEntries: nat)
      ensures Valid() && State() == EMPTY && this.maxEntries == maxEntries && tick == 1
    {
      this.maxEntries := maxEntries;
      entries, tick := map[], 1;
      hits, misses, evictions := 0, 0, 0;
      recent := [];
    }

    /** The entry is stored under the tick in hand, and what goes to make room for it
        is what has the smallest ticks. */
    method PutEntry(key: string, value: string)
      requires Typed()
      modifies this
      ensures Typed() && tick == NextTick(old(tick))
      ensures old(Valid()) && old(tick) < U64_MAX ==>
        Valid() && State() == PutStep(maxEntries, old(State()), key, value)
      ensures old(Valid()) && old(tick) == U64_MAX ==> !Valid()
      ensures Evicts(old(entries)[key := Recency.Stamped(value, old(tick))], maxEntries, entries)
    {
      var all := entries[key := Recency.Stamped(value, tick)];
      ghost var order := Put(recent, key, value);
      var kept, dropped := EvictIfNeeded(all, maxEntries, order);
      PutOrders(entries, recent, key, value, tick, maxEntries, kept, dropped);
      hide Ordered, Evicts, Put;
      tick := NextTick(tick);
      entries, evictions := kept, evictions + dropped;
      recent := Newest(order, maxEntries);
    }

    method Get(key: string) returns (value: Option<string>)
      requires Typed()
      modifies this
      ensures Typed() && tick == if key in old(entries) then NextTick(old(tick)) else old(tick)
      ensures old(Valid()) && (old(tick) < U64_MAX || key !in old(entries)) ==>
        Valid() && State() == GetStep(old(State()), key)
      ensures old(Valid()) && old(tick) == U64_MAX && key in old(entries) ==> !Valid()
      ensures value == if key in old(entries) then Some(old(entries)[key].value) else None
      ensures old(Valid()) ==> value == var found := Lookup(old(recent), key); if found == [] then None else Some(found[0])
    {
      ghost var valid := Valid();
      if valid { LookupAgrees(entries, recent, key); }
      if key in entries {
        hits := hits + 1;
        value := Some(entries[key].value);
        if valid { RestampLists(entries, recent, key, tick); }
        entries := entries[key := entries[key].(stamp := tick)];
        recent := Put(recent, key, value.value);
        tick := NextTick(tick);
        return;
      }
      misses := misses + 1;
      value := None;
    }

    method Invalidate(key: string)
      requires Typed()
      modifies this
      ensures Typed() && tick == old(tick) && entries == old(entries) - {key}
      ensures old(Valid()) ==> Valid() && State() == Apply(maxEntries, old(State()), InvalidateOp(key))
    {
      if Valid() { RemoveLists(entries, recent, key); }
      entries := entries - {key};
      recent := Without(recent, key);
    }

    method Clear()
      requires Typed()
      modifies this
      ensures Typed() && tick == old(tick) && entries == map[]
      ensures old(Valid()) ==> Valid() && State() == Apply(maxEntries, old(State()), ClearOp)
    {
      entries := map[];
      recent := [];
    }

    method Stats() returns (stats: CacheStats)
      requires Typed()
      ensures stats == CacheStats(hits, misses, evictions, |entries|)
      ensures Valid() ==> stats.size == |recent|
    {
      if Valid() { ListsCounts(entries, recent); }
      stats := CacheStats(hits, misses, evictions, |entries|);
    }
  }

  /** A put keeps the order until the last tick there is has been given out: its entry
      stays, and the counter starts again below it. */
  lemma PutOrders(
    from: Entries<string>, recent: seq<Entry<string>>, key: string, value: string, tick: nat, max: nat,
    kept: Entries<string>, dropped: nat)
    requires tick <= U64_MAX && forall k :: k in from ==> from[k].stamp <= U64_MAX
    requires var all, order := from[key := Recency.Stamped(value, tick)], Put(recent, key, value);
      && Evicts(all, max, kept)
      && (Lists(all, order) && AllBelow(all, U64_MAX) ==>
          Lists(kept, Newest(order, max)) && dropped == |order| - |Newest(order, max)|)
    ensures forall k :: k in kept ==> kept[k].stamp <= U64_MAX
    ensures Ordered(from, recent, tick, max) && tick < U64_MAX ==>
      var order := Put(recent, key, value);
      Ordered(kept, Newest(order, max), tick + 1, max) && dropped == |order| - |Newest(order, max)|
    ensures tick == U64_MAX ==> forall xs :: !Ordered(kept, xs, 0, max)
  {
    if Ordered(from, recent, tick, max) { PutLists(from, recent, key, value, tick); }
    hide Lists, Without;
    if tick == U64_MAX { assert key in kept; }
  }

  lemma OnlyThis(from: Entries<string>, key: string, entries: Entries<string>)
    requires Evicts(from, 1, entries) && key in from && from[key].stamp == U64_MAX
    requires forall k :: k in from && k != key ==> from[k].stamp < U64_MAX
    ensures entries.Keys == {key}
  {
    if other :| other in entries && other != key {
      TwoKeys(entries, key, other);
      assert false;
    }
  }

  lemma TwoKeys<V>(m: map<string, V>, a: string, b: string)
    requires a in m && b in m && a != b
    ensures |m| >= 2
  {
    assert m.Keys == {a, b} + (m.Keys - {a, b});
    assert |m.Keys| == |m|;
  }

  /** Past the limit the order is lost: with room for one entry, the one put next is
      the one evicted. */
  method PutPastLimit(cache: HotQueryCache)
    requires cache.Valid() && cache.tick == U64_MAX && cache.maxEntries == 1
    modifies cache
    ensures cache.entries.Keys == {"a"}
  {
    ghost var before := cache.entries["a" := Recency.Stamped("1", U64_MAX)];
    cache.PutEntry("a", "1");
    OnlyThis(before, "a", cache.entries);
    ghost var after := cache.entries["b" := Recency.Stamped("2", 0)];
    cache.PutEntry("b", "2");
    OnlyThis(after, "a", cache.entries);
  }

  method Perform(cache: HotQueryCache, op: Op) returns (answer: Option<string>)
    requires cache.Valid() && cache.tick < U64_MAX
    modifies cache
    ensures cache.Valid() && cache.tick <= old(cache.tick) + 1
    ensures cache.State() == Apply(cache.maxEntries, old(cache.State()), op)
    ensures op.GetOp? ==>
      answer == var found := Lookup(old(cache.recent), op.key); if found == [] then None else Some(found[0])
  {
    answer := None;
    match op {
      case PutOp(key, value) => cache.PutEntry(key, value);
      case GetOp(key) => answer := cache.Get(key);
      case InvalidateOp(key) => cache.Invalidate(key);
      case ClearOp => cache.Clear();
    }
  }

  /** Any sequence of operations, replayed on a fresh cache: every get answers
      what the recency list says, and the counters and the size agree. */
  method Replay(maxEntries: nat, ops: seq<Op>) returns (answers: seq<Option<string>>, stats: CacheStats)
    requires |ops| < U64_MAX - 1
    ensures |answers| == |ops|
    ensures forall i :: 0 <= i < |ops| && ops[i].GetOp? ==> answers[i] == Answer(maxEntries, ops[..i], ops[i].key)
    ensures var m := Run(maxEntries, ops);
      stats == CacheStats(m.hits, m.misses, m.evictions, |m.recent|)
    ensures stats.size <= maxEntries && stats.hits + stats.misses == Gets(ops)
  {
    hide Apply, Lists, Lookup;
    RunCounts(maxEntries, ops);
    var cache := new HotQueryCache(maxEntries);
    answers := [];
    var i := 0;
    while i < |ops|
      invariant 0 <= i <= |ops| == |ops[..i]| + (|ops| - i) && |answers| == i
      invariant cache.Valid() && fresh(cache) && cache.maxEntries == maxEntries && cache.tick <= i + 1
      invariant cache.State() == Run(maxEntries, ops[..i])
      invariant forall j :: 0 <= j < i && ops[j].GetOp? ==> answers[j] == Answer(maxEntries, ops[..j], ops[j].key)
    {
      assert ops[..i + 1][..i] == ops[..i];
      var answer := Perform(cache, ops[i]);
      answers := answers + [answer];
      i := i + 1;
    }
    assert ops[..i] == ops;
    stats := cache.Stats();
  }

  // ── what every run keeps ────────────────────────────────────

  lemma {:induction false} RunCounts(max: nat, ops: seq<Op>)
    ensures |Run(max, ops).recent| <= max
    ensures Run(max, ops).hits + Run(max, ops).misses == Gets(ops)
  {
    if |ops| > 0 {
      RunCounts(max, ops[..|ops| - 1]);
      var m := Run(max, ops[..|ops| - 1]);
      if ops[|ops| - 1].GetOp? && Lookup(m.recent, ops[|ops| - 1].key) != [] {
        LookupShrinks(m.recent, ops[|ops| - 1].key);
      }
    }
  }

  lemma {:induction false} LookupShrinks<V>(xs: seq<Entry<V>>, key: string)
    requires Lookup(xs, key) != []
    ensures |Without(xs, key)| < |xs|
  {
    if xs[0].key != key { LookupShrinks(xs[1..], key); }
  }

  /** Listed by last touch, each with the value last put under its key. */
  ghost predicate InTouchOrder(max: nat, ops: seq<Op>, xs: seq<Entry<string>>) {
    && (forall i :: 0 <= i < |xs| ==> LastTouch(max, ops, xs[i].key) >= 0)
    && (forall i, j :: 0 <= i < j < |xs| ==> LastTouch(max, ops, xs[i].key) > LastTouch(max, ops, xs[j].key))
    && (forall i :: 0 <= i < |xs| ==> LastPut(ops, xs[i].key) == Some(xs[i].value))
  }

  lemma OrderWithout(max: nat, ops: seq<Op>, xs: seq<Entry<string>>, key: string)
    requires InTouchOrder(max, ops, xs)
    ensures InTouchOrder(max, ops, Without(xs, key))
    ensures forall e :: e in Without(xs, key) ==> e.key != key
  {
    var at := WithoutKeeps(xs, key);
  }

  /** The last operation left this key alone. */
  predicate LeftAlone(max: nat, ops: seq<Op>, key: string)
    requires |ops| > 0
  {
    match ops[|ops| - 1]
    case PutOp(k, _) => k != key
    case GetOp(k) => k != key || Answer(max, ops[..|ops| - 1], key).None?
    case InvalidateOp(_) => true
    case ClearOp => true
  }

  lemma LeftAloneStays(max: nat, ops: seq<Op>, key: string)
    requires |ops| > 0 && LeftAlone(max, ops, key)
    ensures LastTouch(max, ops, key) == LastTouch(max, ops[..|ops| - 1], key)
    ensures LastPut(ops, key) == LastPut(ops[..|ops| - 1], key)
  {
    hide Answer;
  }

  /** An operation on one key moves no other key's last touch. */
  lemma OrderExtends(max: nat, ops: seq<Op>, xs: seq<Entry<string>>)
    requires |ops| > 0 && InTouchOrder(max, ops[..|ops| - 1], xs)
    requires forall e :: e in xs ==> LeftAlone(max, ops, e.key)
    ensures InTouchOrder(max, ops, xs)
  {
    forall i | 0 <= i < |xs|
      ensures LastTouch(max, ops, xs[i].key) == LastTouch(max, ops[..|ops| - 1], xs[i].key)
      ensures LastPut(ops, xs[i].key) == LastPut(ops[..|ops| - 1], xs[i].key)
    {
      assert xs[i] in xs;
      LeftAloneStays(max, ops, xs[i].key);
    }
    hide LastTouch, LastPut;
  }

  /** A put, or a get that found its key, brings the key to the front. */
  lemma TouchOrder(max: nat, ops: seq<Op>, ys: seq<Entry<string>>, key: string, value: string)
    requires |ops| > 0 && (ops[|ops| - 1] == PutOp(key, value) || ops[|ops| - 1] == GetOp(key))
    requires InTouchOrder(max, ops[..|ops| - 1], ys) && ys == Run(max, ops[..|ops| - 1]).recent
    requires ops[|ops| - 1].GetOp? ==> Lookup(ys, key) != [] && value == Lookup(ys, key)[0]
    ensures InTouchOrder(max, ops, Put(ys, key, value)) && InTouchOrder(max, ops, Newest(Put(ys, key, value), max))
  {
    var last := |ops| - 1;
    var before := ops[..last];
    hide Without, Lookup, Run;
    OrderWithout(max, before, ys, key);
    OrderExtends(max, ops, Without(ys, key));
    forall k ensures LastTouch(max, ops, k) <= last { LastTouchBound(max, ops, k); }
    forall e | e in Without(ys, key) ensures LastTouch(max, ops, e.key) < last {
      LeftAloneStays(max, ops, e.key);
      LastTouchBound(max, before, e.key);
    }
    if ops[last].GetOp? { var i := LookupFinds(ys, key); }
    FrontOrder(max, ops, Without(ys, key), value);
  }

  /** After any run the resident keys are listed by last touch, so what a full
      cache evicts is always the key untouched for longest; and each resident
      value is the one last put under its key. */
  lemma {:induction false} RunOrder(max: nat, ops: seq<Op>)
    ensures InTouchOrder(max, ops, Run(max, ops).recent)
  {
    if |ops| > 0 {
      var last := |ops| - 1;
      var before, op := ops[..last], ops[last];
      RunOrder(max, before);
      hide InTouchOrder, Without, Lookup;
      var ys := Run(max, before).recent;
      match op
      case ClearOp => NothingInOrder(max, ops);
      case InvalidateOp(key) =>
        OrderWithout(max, before, ys, key);
        OrderExtends(max, ops, Without(ys, key));
      case PutOp(key, value) => TouchOrder(max, ops, ys, key, value);
      case GetOp(key) =>
        if Lookup(ys, key) == [] {
          OrderExtends(max, ops, ys);
        } else {
          TouchOrder(max, ops, ys, key, Lookup(ys, key)[0]);
        }
    } else {
      NothingInOrder(max, ops);
    }
  }

  lemma NothingInOrder(max: nat, ops: seq<Op>)
    ensures InTouchOrder(max, ops, [])
  {
  }

  lemma FrontOrder(max: nat, ops: seq<Op>, xs: seq<Entry<string>>, value: string)
    requires |ops| > 0 && (ops[|ops| - 1].PutOp? || ops[|ops| - 1].GetOp?)
    requires InTouchOrder(max, ops, xs)
    requires forall e :: e in xs ==> LastTouch(max, ops, e.key) < |ops| - 1
    requires LastTouch(max, ops, ops[|ops| - 1].key) == |ops| - 1
    requires LastPut(ops, ops[|ops| - 1].key) == Some(value)
    ensures InTouchOrder(max, ops, [Entry(ops[|ops| - 1].key, value)] + xs)
    ensures InTouchOrder(max, ops, Newest([Entry(ops[|ops| - 1].key, value)] + xs, max))
  {
    hide LastTouch, LastPut;
    var first := Entry(ops[|ops| - 1].key, value);
    var zs := [first] + xs;
    forall i | 0 < i < |zs| ensures zs[i] == xs[i - 1] && xs[i - 1] in xs { }
    PrefixInOrder(max, ops, zs, max);
  }

  lemma PrefixInOrder(max: nat, ops: seq<Op>, xs: seq<Entry<string>>, n: nat)
    requires InTouchOrder(max, ops, xs)
    ensures InTouchOrder(max, ops, Newest(xs, n))
  {
    hide LastTouch, LastPut;
  }

  lemma {:induction false} LastTouchBound(max: nat, ops: seq<Op>, key: string)
    ensures LastTouch(max, ops, key) < |ops|
  {
    if |ops| > 0 { LastTouchBound(max, ops[..|ops| - 1], key); }
  }
}
