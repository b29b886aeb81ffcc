/** Looking a name up by following links from one node to the next, depth first and the
    last link first, cycles allowed (csharp/import_resolver.rs, `lookup_member`;
    c/include_resolver.rs, `visible_symbols`). */
module DepthFirst {
  import opened Wrappers
  import opened Reachability

  type Next = map<string, seq<string>>

  /** What each node holds. */
  type Tables = map<string, map<string, string>>

  function Links(next: Next): Relation<string> { set f, h | f in next && h in next[f] :: (f, h) }

  function Follow(next: Next, node: string): seq<string> { if node in next then next[node] else [] }

  predicate Has(tables: Tables, node: string, name: string) { node in tables && name in tables[node] }

  /** Some node reached has the name, as this. */
  ghost predicate Finds(next: Next, tables: Tables, from: string, name: string, id: string) {
    exists t :: Reaches(Links(next), from, t) && Has(tables, t, name) && tables[t][name] == id
  }

  ghost predicate SomeHas(next: Next, tables: Tables, from: string, name: string) {
    exists t :: Reaches(Links(next), from, t) && Has(tables, t, name)
  }

  // ── the order nodes are come upon in ────────────────────────

  function Ends(r: Relation<string>): set<string> { set p | p in r :: p.1 }

  function Known(next: Next, from: string): set<string> { {from} + Ends(Links(next)) }

  /** The nodes looked at, in order: each with everything behind it before its sisters,
      and none twice. */
  function Visits(next: Next, from: string, visited: set<string>, stack: seq<string>): seq<string>
    requires visited <= Known(next, from) && forall t :: t in stack ==> t in Known(next, from)
    decreases Known(next, from) - visited, |stack|
  {
    if |stack| == 0 then []
    else
      var t, rest := stack[|stack| - 1], stack[..|stack| - 1];
      if t in visited then Visits(next, from, visited, rest)
      else
        FollowedAreKnown(next, from, t);
        [t] + Visits(next, from, visited + {t}, rest + Follow(next, t))
  }

  lemma FollowedAreKnown(next: Next, from: string, t: string)
    ensures forall p :: p in Follow(next, t) ==> p in Known(next, from)
  {
    forall p | p in Follow(next, t) ensures p in Known(next, from) { assert (t, p) in Links(next); }
  }

  function Order(next: Next, from: string): seq<string> { Visits(next, from, {}, [from]) }

  /** The name as the first of these nodes to have it has it. */
  function FirstWith(tables: Tables, order: seq<string>, name: string): Option<string> {
    if |order| == 0 then None
    else if Has(tables, order[0], name) then Some(tables[order[0]][name])
    else FirstWith(tables, order[1..], name)
  }

  function Lookup(next: Next, tables: Tables, from: string, name: string): Option<string> {
    FirstWith(tables, Order(next, from), name)
  }

  // ── one node at a time ──────────────────────────────────────

  lemma StackTop(stack: seq<string>)
    requires |stack| > 0
    ensures forall t :: t in stack <==> t in stack[..|stack| - 1] || t == stack[|stack| - 1]
  {
    assert stack == stack[..|stack| - 1] + [stack[|stack| - 1]];
  }

  lemma StartIsKnown(next: Next, from: string)
    ensures from in Known(next, from)
  {
  }

  lemma NothingLeft(next: Next, tables: Tables, from: string, name: string, visited: set<string>, stack: seq<string>)
    requires |stack| == 0 && visited <= Known(next, from)
    ensures FirstWith(tables, Visits(next, from, visited, stack), name).None?
  {
  }

  lemma SkipVisit(next: Next, from: string, visited: set<string>, stack: seq<string>)
    requires |stack| > 0 && visited <= Known(next, from) && forall t :: t in stack ==> t in Known(next, from)
    requires stack[|stack| - 1] in visited
    ensures forall t :: t in stack[..|stack| - 1] ==> t in Known(next, from)
    ensures Visits(next, from, visited, stack) == Visits(next, from, visited, stack[..|stack| - 1])
  {
    StackTop(stack);
    hide Known, Follow;
  }

  lemma NextVisit(next: Next, tables: Tables, from: string, name: string, visited: set<string>, stack: seq<string>)
    requires |stack| > 0 && visited <= Known(next, from) && forall t :: t in stack ==> t in Known(next, from)
    requires stack[|stack| - 1] !in visited
    ensures forall p :: p in stack[..|stack| - 1] + Follow(next, stack[|stack| - 1]) ==> p in Known(next, from)
    ensures var t, rest := stack[|stack| - 1], stack[..|stack| - 1];
      FirstWith(tables, Visits(next, from, visited, stack), name)
      == if Has(tables, t, name) then Some(tables[t][name])
         else FirstWith(tables, Visits(next, from, visited + {t}, rest + Follow(next, t)), name)
  {
    var t, rest := stack[|stack| - 1], stack[..|stack| - 1];
    StackTop(stack);
    FollowedAreKnown(next, from, t);
    var after := Visits(next, from, visited + {t}, rest + Follow(next, t));
    assert ([t] + after)[1..] == after;
    hide Follow, Known;
  }

  // ── what is found ───────────────────────────────────────────

  /** Every node looked at so far is reached and has no such name, and what it links to
      is on the stack or behind it. */
  ghost predicate Looking(
    next: Next, tables: Tables, from: string, name: string, visited: set<string>, stack: seq<string>)
  {
    && (forall t :: t in visited ==> !Has(tables, t, name))
    && (forall t :: t in stack ==> Reaches(Links(next), from, t) && (t == from || t in Ends(Links(next))))
    && (from in visited || from in stack)
    && (forall t, p :: t in visited && (t, p) in Links(next) ==> p in visited || p in stack)
  }

  lemma DropTop(next: Next, tables: Tables, from: string, name: string, visited: set<string>, stack: seq<string>)
    requires |stack| > 0 && Looking(next, tables, from, name, visited, stack) && stack[|stack| - 1] in visited
    ensures Looking(next, tables, from, name, visited, stack[..|stack| - 1])
  {
    StackTop(stack);
    hide Reaches, Has, Links, Ends;
  }

  lemma Visit(next: Next, tables: Tables, from: string, name: string, visited: set<string>, stack: seq<string>)
    requires |stack| > 0 && Looking(next, tables, from, name, visited, stack)
    requires !Has(tables, stack[|stack| - 1], name)
    ensures Looking(next, tables, from, name, visited + {stack[|stack| - 1]},
      stack[..|stack| - 1] + Follow(next, stack[|stack| - 1]))
  {
    var current := stack[|stack| - 1];
    StackTop(stack);
    forall p ensures p in Follow(next, current) <==> (current, p) in Links(next) { }
    forall p | p in Follow(next, current) ensures Reaches(Links(next), from, p) && p in Ends(Links(next)) {
      Extend(Links(next), from, current, p);
    }
    hide Reaches, Has, Links, Ends, Follow;
  }

  lemma {:induction false} VisitsFind(
    next: Next, tables: Tables, from: string, name: string, visited: set<string>, stack: seq<string>)
    requires Looking(next, tables, from, name, visited, stack) && visited <= Known(next, from)
    requires forall t :: t in stack ==> t in Known(next, from)
    ensures var r := FirstWith(tables, Visits(next, from, visited, stack), name);
      (r.Some? <==> SomeHas(next, tables, from, name)) && (r.Some? ==> Finds(next, tables, from, name, r.value))
    decreases Known(next, from) - visited, |stack|
  {
    if |stack| == 0 {
      NothingLeft(next, tables, from, name, visited, stack);
      forall t | Reaches(Links(next), from, t) ensures !Has(tables, t, name) {
        ClosedHolds(Links(next), visited, from, t);
      }
      hide Known, Visits, FirstWith;
    } else if stack[|stack| - 1] in visited {
      DropTop(next, tables, from, name, visited, stack);
      SkipVisit(next, from, visited, stack);
      hide *;
      VisitsFind(next, tables, from, name, visited, stack[..|stack| - 1]);
    } else {
      var t := stack[|stack| - 1];
      assert Reaches(Links(next), from, t) && t in stack;
      NextVisit(next, tables, from, name, visited, stack);
      if Has(tables, t, name) {
        assert Finds(next, tables, from, name, tables[t][name]);
        assert SomeHas(next, tables, from, name);
        hide *;
      } else {
        Visit(next, tables, from, name, visited, stack);
        hide *;
        VisitsFind(next, tables, from, name, visited + {t}, stack[..|stack| - 1] + Follow(next, t));
      }
    }
  }

  /** A lookup answers exactly when a node reached has the name, and with what one of
      them has; a node's own comes before all others. */
  lemma LookupTells(next: Next, tables: Tables, from: string, name: string)
    ensures var r := Lookup(next, tables, from, name);
      && (r.Some? <==> SomeHas(next, tables, from, name))
      && (r.Some? ==> Finds(next, tables, from, name, r.value))
      && (Has(tables, from, name) ==> r == Some(tables[from][name]))
  {
    ReachesSelf(Links(next), from);
    assert Looking(next, tables, from, name, {}, [from]);
    VisitsFind(next, tables, from, name, {}, [from]);
    NextVisit(next, tables, from, name, {}, [from]);
    hide Looking, SomeHas, Finds, Known, Follow, FirstWith, Visits;
  }
}
