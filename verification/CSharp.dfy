/** C# name resolution (csharp/import_resolver.rs): what a name means in a file, where
    a member is found, and what becomes of every reference. */
module CSharp {
  import opened Wrappers
  import opened Ir
  import opened Ordering
  import opened Reachability
  import opened Placeholders
  import DepthFirst
  import Utf8

  datatype Index = Index(
    byFqn: map<string, SymbolId>, members: map<string, map<string, SymbolId>>,
    bases: map<string, seq<string>>, namespaces: set<string>)

  datatype Alias = Alias(name: string, target: string)

  datatype Declared = Declared(name: string, space: string)

  datatype FileFacts = FileFacts(
    usings: seq<string>, aliases: seq<Alias>, staticUsings: seq<string>, declared: seq<Declared>)

  function Fqn(space: string, name: string): string { if space == "" then name else space + "." + name }

  // ── members ─────────────────────────────────────────────────

  /** Each type and what it derives from. */
  function Bases(ix: Index): Relation<string> { set t, p | t in ix.bases && p in ix.bases[t] :: (t, p) }

  predicate Declares(ix: Index, owner: string, member: string) {
    owner in ix.members && member in ix.members[owner]
  }

  /** Some type the owner reaches over its bases declares the member under this id. */
  ghost predicate Finds(ix: Index, owner: string, member: string, id: SymbolId) {
    exists t :: Reaches(Bases(ix), owner, t) && Declares(ix, t, member) && ix.members[t][member] == id
  }

  ghost predicate HasMember(ix: Index, owner: string, member: string) {
    exists t :: Reaches(Bases(ix), owner, t) && Declares(ix, t, member)
  }

  /** The types a type derives from, as they are put on the stack: the greatest name is
      looked at first. */
  function Ordered(ix: Index): DepthFirst.Next { map t | t in ix.bases :: SortBy(TextKey, ix.bases[t]) }

  function MemberOf(ix: Index, owner: string, member: string): Option<SymbolId> {
    DepthFirst.Lookup(Ordered(ix), ix.members, owner, member)
  }

  lemma LinksAreBases(ix: Index)
    ensures DepthFirst.Links(Ordered(ix)) == Bases(ix)
  {
    forall t | t in ix.bases ensures forall p :: p in Ordered(ix)[t] <==> p in ix.bases[t] {
      SortKeeps(TextKey, ix.bases[t]);
    }
    hide SortBy;
  }

  /** The first declaration on the way up is there exactly when there is any, and is one
      of them; a type's own comes before all others. */
  lemma MemberOfTells(ix: Index, owner: string, member: string)
    ensures var r := MemberOf(ix, owner, member);
      && (r.Some? <==> HasMember(ix, owner, member))
      && (r.Some? ==> Finds(ix, owner, member, r.value))
      && (Declares(ix, owner, member) ==> r == Some(ix.members[owner][member]))
  {
    DepthFirst.LookupTells(Ordered(ix), ix.members, owner, member);
    LinksAreBases(ix);
    forall t ensures DepthFirst.Has(ix.members, t, member) <==> Declares(ix, t, member) { }
    hide DepthFirst.Lookup, DepthFirst.Links, Ordered, Bases, DepthFirst.Has, Declares;
  }

  /** A member of a type or of anything it derives from, cycles and all. */
  method LookupMember(ix: Index, owner: string, member: string) returns (r: Option<SymbolId>)
    ensures r == MemberOf(ix, owner, member)
    ensures r.Some? <==> HasMember(ix, owner, member)
    ensures r.Some? ==> Finds(ix, owner, member, r.value)
    ensures Declares(ix, owner, member) ==> r == Some(ix.members[owner][member])
  {
    MemberOfTells(ix, owner, member);
    ghost var next := Ordered(ix);
    forall t ensures DepthFirst.Has(ix.members, t, member) <==> Declares(ix, t, member) { }
    forall t ensures DepthFirst.Follow(next, t) == if t in ix.bases then SortBy(TextKey, ix.bases[t]) else [] { }
    hide HasMember, Finds, Declares, Ordered, SortBy;
    hide DepthFirst.Known, DepthFirst.Follow, DepthFirst.FirstWith, DepthFirst.Visits, DepthFirst.Has;
    DepthFirst.StartIsKnown(next, owner);
    var visited: set<string> := {};
    var stack := [owner];
    while |stack| > 0
      invariant visited <= DepthFirst.Known(next, owner) && forall t :: t in stack ==> t in DepthFirst.Known(next, owner)
      invariant MemberOf(ix, owner, member)
        == DepthFirst.FirstWith(ix.members, DepthFirst.Visits(next, owner, visited, stack), member)
      decreases DepthFirst.Known(next, owner) - visited, |stack|
    {
      var current := stack[|stack| - 1];
      if current in visited {
        DepthFirst.SkipVisit(next, owner, visited, stack);
        stack := stack[..|stack| - 1];
        continue;
      }
      assert current in stack;
      DepthFirst.NextVisit(next, ix.members, owner, member, visited, stack);
      if Declares(ix, current, member) { return Some(ix.members[current][member]); }
      var parents := if current in ix.bases then SortBy(TextKey, ix.bases[current]) else [];
      visited, stack := visited + {current}, stack[..|stack| - 1] + parents;
    }
    DepthFirst.NothingLeft(next, ix.members, owner, member, visited, stack);
    r := None;
  }

  /** A class `C` derives from `A` and from `Z`, and `Z` from `Y`. */
  const FAMILY := Index(
    map[], map["A" := map["m" := "A.m"], "Y" := map["m" := "Y.m"]], map["C" := ["A", "Z"], "Z" := ["Y"]], {})

  /** Nothing on the way up the last of two bases, and then what its own base has. */
  lemma LastBaseFirst(
    next: DepthFirst.Next, tables: DepthFirst.Tables, t: string, near: string, last: string, far: string, member: string)
    requires t != last && last != far && far != t
    requires DepthFirst.Follow(next, t) == [near, last] && DepthFirst.Follow(next, last) == [far]
    requires !DepthFirst.Has(tables, t, member) && !DepthFirst.Has(tables, last, member)
    requires DepthFirst.Has(tables, far, member)
    ensures DepthFirst.Lookup(next, tables, t, member) == Some(tables[far][member])
  {
    hide DepthFirst.Follow, DepthFirst.Visits, DepthFirst.FirstWith;
    DepthFirst.NextVisit(next, tables, t, member, {}, [t]);
    assert [t][..0] + [near, last] == [near, last];
    DepthFirst.NextVisit(next, tables, t, member, {} + {t}, [near, last]);
    assert [near, last][..1] + [far] == [near, far];
    DepthFirst.NextVisit(next, tables, t, member, {} + {t} + {last}, [near, far]);
  }

  /** Where both `A` and `Y` declare a member, `C` has the one of `Y`, which is further
      away: the search goes all the way up from the last name first. */
  lemma FarAncestorWins()
    ensures ("C", "A") in Bases(FAMILY) && ("C", "Y") !in Bases(FAMILY) && Declares(FAMILY, "A", "m")
    ensures MemberOf(FAMILY, "C", "m") == Some("Y.m")
  {
    FamilyParents();
    FamilyBases();
    hide DepthFirst.Follow, DepthFirst.Lookup, Bases;
    LastBaseFirst(Ordered(FAMILY), FAMILY.members, "C", "A", "Z", "Y", "m");
  }

  lemma FamilyBases()
    ensures ("C", "A") in Bases(FAMILY) && ("C", "Y") !in Bases(FAMILY)
  {
    assert FAMILY.bases["C"][0] == "A";
  }

  lemma FamilyParents()
    ensures DepthFirst.Follow(Ordered(FAMILY), "C") == ["A", "Z"] && DepthFirst.Follow(Ordered(FAMILY), "Z") == ["Y"]
  {
    assert CharsLe("A", "Z");
    SortIdempotent(TextKey, ["A", "Z"]);
    SortIdempotent(TextKey, ["Y"]);
  }

  // ── names ───────────────────────────────────────────────────

  function FirstAlias(aliases: seq<Alias>, name: string): Option<string> {
    if |aliases| == 0 then None
    else if aliases[0].name == name then Some(aliases[0].target)
    else FirstAlias(aliases[1..], name)
  }

  /** The namespaces around a namespace. */
  function Enclosing(space: string): set<string> {
    match LastOf(space, '.')
    case None => {}
    case Some(cut) => {space[..cut]} + Enclosing(space[..cut])
  }

  /** The namespaces a file declares into, and everything around them. */
  function Scopes(f: FileFacts): set<string> {
    (set d | d in f.declared :: d.space) + set d, s | d in f.declared && s in Enclosing(d.space) :: s
  }

  /** Which scopes, or which usings, offer a name. */
  function Offering(ix: Index, spaces: set<string>, name: string): set<string> {
    set s | s in spaces && Fqn(s, name) in ix.byFqn
  }

  function Offered(ix: Index, usings: seq<string>, name: string): set<string> {
    set u | u in usings && Fqn(u, name) in ix.byFqn :: Fqn(u, name)
  }

  /** Longest first is innermost first; equals go by name. */
  predicate Nearer(a: string, b: string) {
    var m, n := |Utf8.Encode(a)|, |Utf8.Encode(b)|;
    m > n || (m == n && Le(TextKey(a), TextKey(b)))
  }

  /** What a simple name means in a file: an alias before everything, then the nearest
      enclosing namespace that has it, then the one using that offers it, then the
      global namespace. */
  ghost predicate Means(f: FileFacts, ix: Index, name: string, r: Option<string>) {
    var alias, near, offered := FirstAlias(f.aliases, name), Offering(ix, Scopes(f), name), Offered(ix, f.usings, name);
    if alias.Some? then r == if alias.value in ix.byFqn then Some(alias.value) else None
    else if near != {} then IsNearest(near, name, r)
    else if |offered| == 1 then r.Some? && offered == {r.value}
    else r == if name in ix.byFqn then Some(name) else None
  }

  ghost predicate IsNearest(near: set<string>, name: string, r: Option<string>) {
    exists s :: s in near && r == Some(Fqn(s, name)) && forall t :: t in near ==> Nearer(s, t)
  }

  lemma NearerTotal(a: string, b: string)
    ensures Nearer(a, b) || Nearer(b, a)
    ensures Nearer(a, b) && Nearer(b, a) ==> a == b
  {
    Total(TextKey(a), TextKey(b));
    if TextKey(a) == TextKey(b) { assert TextKey(a)[0] == TextKey(b)[0]; }
  }

  lemma NearerThrough(a: string, b: string, c: string)
    requires Nearer(a, b) && Nearer(b, c)
    ensures Nearer(a, c)
  {
    if |Utf8.Encode(a)| == |Utf8.Encode(b)| == |Utf8.Encode(c)| { Transitive(TextKey(a), TextKey(b), TextKey(c)); }
  }

  /** A name means one thing. */
  lemma MeansOneThing(f: FileFacts, ix: Index, name: string, q: Option<string>, r: Option<string>)
    requires Means(f, ix, name, q) && Means(f, ix, name, r)
    ensures q == r
  {
    var near := Offering(ix, Scopes(f), name);
    if FirstAlias(f.aliases, name).None? && near != {} {
      var s :| s in near && q == Some(Fqn(s, name)) && forall t :: t in near ==> Nearer(s, t);
      var t :| t in near && r == Some(Fqn(t, name)) && forall x :: x in near ==> Nearer(t, x);
      NearerTotal(s, t);
    }
  }

  /** Where several usings offer a name and nothing nearer does, it is refused exactly
      when the global namespace lacks it as well. */
  lemma UsingsRefusedExactly(f: FileFacts, ix: Index, name: string, r: Option<string>)
    requires Means(f, ix, name, r) && FirstAlias(f.aliases, name).None? && Offering(ix, Scopes(f), name) == {}
    requires |Offered(ix, f.usings, name)| > 1
    ensures r.None? <==> name !in ix.byFqn
    ensures r.Some? ==> r.value == name
  {
  }

  /** Two usings each offer `T`, and so does the global namespace: it is not refused. */
  lemma AmbiguousUsingsYield(r: Option<string>)
    requires var ix := Index(map["X.T" := "1", "Y.T" := "2", "T" := "3"], map[], map[], {"X", "Y", ""});
      Means(FileFacts(["X", "Y"], [], [], []), ix, "T", r)
    ensures r == Some("T")
  {
    var ix := Index(map["X.T" := "1", "Y.T" := "2", "T" := "3"], map[], map[], {"X", "Y", ""});
    var f := FileFacts(["X", "Y"], [], [], []);
    assert Scopes(f) == {} && Offering(ix, Scopes(f), "T") == {};
    assert Fqn("X", "T") == "X.T" && Fqn("Y", "T") == "Y.T";
    var offered := Offered(ix, f.usings, "T");
    assert f.usings[0] == "X" && f.usings[1] == "Y";
    assert offered == {"X.T", "Y.T"} && "X.T"[0] != "Y.T"[0];
    assert |offered| == 2;
    UsingsRefusedExactly(f, ix, "T", r);
  }

  /** A type in an inner namespace hides one of the same name further out, the global
      namespace included. */
  lemma InnermostWins(f: FileFacts, ix: Index, name: string, inner: string, outer: string, r: Option<string>)
    requires Means(f, ix, name, r) && FirstAlias(f.aliases, name).None?
    requires inner in Offering(ix, Scopes(f), name) && |Utf8.Encode(outer)| < |Utf8.Encode(inner)|
    ensures r.Some? && r.value in ix.byFqn && r.value != Fqn(outer, name)
  {
    var near := Offering(ix, Scopes(f), name);
    var s :| s in near && r == Some(Fqn(s, name)) && forall t :: t in near ==> Nearer(s, t);
    assert |Utf8.Encode("")| == 0;
    hide Utf8.Encode;
    assert Nearer(s, inner);
    if Fqn(s, name) == Fqn(outer, name) { SameFqn(s, outer, name); }
  }

  lemma SameFqn(a: string, b: string, name: string)
    requires Fqn(a, name) == Fqn(b, name)
    ensures a == b
  {
    if a != "" && b != "" {
      assert |a| == |b|;
      assert a == Fqn(a, name)[..|a|] && b == Fqn(b, name)[..|b|];
    } else {
      assert (a == "" <==> |Fqn(a, name)| == |name|) && (b == "" <==> |Fqn(b, name)| == |name|);
    }
  }

  /** The scope that comes first of those that offer the name. */
  method Nearest(near: set<string>) returns (best: string)
    requires near != {}
    ensures best in near && forall t :: t in near ==> Nearer(best, t)
  {
    hide Nearer;
    best :| best in near;
    var rest := near - {best};
    NearerTotal(best, best);
    while rest != {}
      invariant rest <= near && best in near
      invariant forall t :: t in near - rest ==> Nearer(best, t)
      decreases rest
    {
      var t :| t in rest;
      rest := rest - {t};
      NearerTotal(best, t);
      if !Nearer(best, t) {
        forall x | x in near - rest && x != t ensures Nearer(t, x) { NearerThrough(t, best, x); }
        NearerTotal(t, t);
        best := t;
      }
    }
  }

  method ResolveFqn(simple: string, f: FileFacts, ix: Index) returns (r: Option<string>)
    ensures Means(f, ix, simple, r)
    ensures r.Some? ==> r.value in ix.byFqn
  {
    hide Nearer, FirstAlias, Scopes;
    var alias := FirstAlias(f.aliases, simple);
    if alias.Some? {
      return if alias.value in ix.byFqn then Some(alias.value) else None;
    }
    var near := Offering(ix, Scopes(f), simple);
    if near != {} {
      var best := Nearest(near);
      assert IsNearest(near, simple, Some(Fqn(best, simple)));
      return Some(Fqn(best, simple));
    }
    var candidates := Offered(ix, f.usings, simple);
    if |candidates| == 1 {
      var only :| only in candidates;
      assert |candidates - {only}| == 0;
      assert candidates == {only};
      return Some(only);
    }
    r := if simple in ix.byFqn then Some(simple) else None;
  }

  /** A simple name resolved to a symbol. */
  ghost predicate NamesType(f: FileFacts, ix: Index, name: string, id: SymbolId) {
    exists fqn :: Means(f, ix, name, Some(fqn)) && fqn in ix.byFqn && ix.byFqn[fqn] == id
  }

  method ResolveType(simple: string, f: FileFacts, ix: Index) returns (r: Option<SymbolId>)
    ensures r.Some? ==> NamesType(f, ix, simple, r.value)
    ensures r.None? ==> forall id :: !NamesType(f, ix, simple, id)
  {
    hide Means;
    var fqn := ResolveFqn(simple, f, ix);
    if fqn.Some? {
      return Some(ix.byFqn[fqn.value]);
    }
    forall id ensures !NamesType(f, ix, simple, id) { NamedOtherwise(f, ix, simple, id); }
    r := None;
  }

  lemma NamedOtherwise(f: FileFacts, ix: Index, name: string, id: SymbolId)
    requires Means(f, ix, name, None)
    ensures !NamesType(f, ix, name, id)
  {
    hide Means;
    if NamesType(f, ix, name, id) {
      var fqn :| Means(f, ix, name, Some(fqn));
      MeansOneThing(f, ix, name, None, Some(fqn));
      assert false;
    }
  }

  // ── members by name ─────────────────────────────────────────

  function SimpleName(path: string): string {
    match LastOf(path, '.')
    case None => path
    case Some(cut) => path[cut + 1..]
  }

  /** What is looked through for a member, turn by turn: the type the owner names, and
      then for each `using static` the type of its path and the one its simple name
      means. */
  ghost predicate LookedIn(f: FileFacts, ix: Index, owner: string, turn: nat, t: string) {
    if turn == 0 then Means(f, ix, owner, Some(t))
    else if turn > 2 * |f.staticUsings| then false
    else if turn % 2 == 1 then t == f.staticUsings[turn / 2]
    else Means(f, ix, SimpleName(f.staticUsings[turn / 2 - 1]), Some(t))
  }

  ghost predicate NoneBefore(f: FileFacts, ix: Index, owner: string, member: string, turn: nat) {
    forall k: nat, t :: k < turn && LookedIn(f, ix, owner, k, t) ==> MemberOf(ix, t, member).None?
  }

  ghost predicate FoundAt(f: FileFacts, ix: Index, owner: string, member: string, turn: nat, t: string, id: SymbolId) {
    LookedIn(f, ix, owner, turn, t) && MemberOf(ix, t, member) == Some(id) && NoneBefore(f, ix, owner, member, turn)
  }

  /** The member is what the first type to have one has. */
  ghost predicate NamesMember(f: FileFacts, ix: Index, owner: string, member: string, id: SymbolId) {
    exists turn, t :: FoundAt(f, ix, owner, member, turn, t, id)
  }

  lemma OneTypeATurn(f: FileFacts, ix: Index, owner: string, turn: nat, t: string, u: string)
    requires LookedIn(f, ix, owner, turn, t) && LookedIn(f, ix, owner, turn, u)
    ensures t == u
  {
    hide Means;
    if turn == 0 {
      MeansOneThing(f, ix, owner, Some(t), Some(u));
    } else if turn % 2 == 0 {
      MeansOneThing(f, ix, SimpleName(f.staticUsings[turn / 2 - 1]), Some(t), Some(u));
    }
  }

  /** A member name names one member. */
  lemma NamesOneMember(f: FileFacts, ix: Index, owner: string, member: string, a: SymbolId, b: SymbolId)
    requires NamesMember(f, ix, owner, member, a) && NamesMember(f, ix, owner, member, b)
    ensures a == b
  {
    hide LookedIn, MemberOf;
    var m, t :| FoundAt(f, ix, owner, member, m, t, a);
    var n, u :| FoundAt(f, ix, owner, member, n, u, b);
    if m == n { OneTypeATurn(f, ix, owner, m, t, u); }
  }

  lemma {:induction false} SomeTurnFinds(f: FileFacts, ix: Index, owner: string, member: string, turn: nat, t: string)
    requires LookedIn(f, ix, owner, turn, t) && MemberOf(ix, t, member).Some?
    ensures exists id :: NamesMember(f, ix, owner, member, id)
  {
    hide LookedIn, MemberOf;
    if k: nat, u :| k < turn && LookedIn(f, ix, owner, k, u) && MemberOf(ix, u, member).Some? {
      SomeTurnFinds(f, ix, owner, member, k, u);
    } else {
      assert FoundAt(f, ix, owner, member, turn, t, MemberOf(ix, t, member).value);
      assert NamesMember(f, ix, owner, member, MemberOf(ix, t, member).value);
    }
  }

  /** A type a `using static` names, by the path given or by its simple name. */
  ghost predicate StaticallyNames(f: FileFacts, ix: Index, path: string, t: string) {
    t == path || Means(f, ix, SimpleName(path), Some(t))
  }

  ghost predicate OwnerHasMember(f: FileFacts, ix: Index, owner: string, member: string) {
    exists t :: Means(f, ix, owner, Some(t)) && HasMember(ix, t, member)
  }

  ghost predicate IsStatic(f: FileFacts, ix: Index, t: string) {
    exists path :: path in f.staticUsings && StaticallyNames(f, ix, path, t)
  }

  ghost predicate StaticsHaveMember(f: FileFacts, ix: Index, member: string) {
    exists t :: IsStatic(f, ix, t) && HasMember(ix, t, member)
  }

  lemma StaticHasTurn(f: FileFacts, ix: Index, owner: string, t: string) returns (turn: nat)
    requires IsStatic(f, ix, t)
    ensures LookedIn(f, ix, owner, turn, t)
  {
    hide Means, SimpleName;
    var path :| path in f.staticUsings && StaticallyNames(f, ix, path, t);
    var i :| 0 <= i < |f.staticUsings| && f.staticUsings[i] == path;
    turn := if t == path then 2 * i + 1 else 2 * i + 2;
    assert (2 * i + 1) / 2 == i && (2 * i + 2) / 2 == i + 1;
  }

  lemma LaterTurnIsStatic(f: FileFacts, ix: Index, owner: string, turn: nat, t: string)
    requires turn > 0 && LookedIn(f, ix, owner, turn, t)
    ensures IsStatic(f, ix, t)
  {
    hide Means, SimpleName;
    var path := f.staticUsings[(turn - 1) / 2];
    assert path in f.staticUsings && StaticallyNames(f, ix, path, t);
  }

  /** A member on the type the owner names shadows one brought in statically. */
  lemma OwnMemberShadows(f: FileFacts, ix: Index, owner: string, member: string, id: SymbolId)
    requires NamesMember(f, ix, owner, member, id) && OwnerHasMember(f, ix, owner, member)
    ensures exists t :: Means(f, ix, owner, Some(t)) && Finds(ix, t, member, id)
  {
    hide Means, Finds, HasMember, MemberOf;
    var t :| Means(f, ix, owner, Some(t)) && HasMember(ix, t, member);
    MemberOfTells(ix, t, member);
    assert LookedIn(f, ix, owner, 0, t);
    var turn, u :| FoundAt(f, ix, owner, member, turn, u, id);
    if turn == 0 { OneTypeATurn(f, ix, owner, 0, t, u); }
    hide LookedIn;
    assert turn == 0;
  }

  /** And a member is found exactly when one of them has it. */
  lemma MemberIsNamedExactly(f: FileFacts, ix: Index, owner: string, member: string)
    ensures (exists id :: NamesMember(f, ix, owner, member, id))
      <==> OwnerHasMember(f, ix, owner, member) || StaticsHaveMember(f, ix, member)
  {
    hide Means, HasMember, MemberOf, LookedIn, IsStatic;
    if t :| Means(f, ix, owner, Some(t)) && HasMember(ix, t, member) {
      MemberOfTells(ix, t, member);
      OwnersTurn(f, ix, owner);
      SomeTurnFinds(f, ix, owner, member, 0, t);
    }
    if t :| IsStatic(f, ix, t) && HasMember(ix, t, member) {
      MemberOfTells(ix, t, member);
      var turn := StaticHasTurn(f, ix, owner, t);
      SomeTurnFinds(f, ix, owner, member, turn, t);
    }
    if id :| NamesMember(f, ix, owner, member, id) {
      var turn, t :| FoundAt(f, ix, owner, member, turn, t, id);
      MemberOfTells(ix, t, member);
      if turn > 0 { LaterTurnIsStatic(f, ix, owner, turn, t); } else { OwnersTurn(f, ix, owner); }
    }
  }

  method ResolveMember(owner: string, member: string, f: FileFacts, ix: Index) returns (r: Option<SymbolId>)
    ensures r.Some? ==> NamesMember(f, ix, owner, member, r.value)
    ensures r.None? ==> forall id :: !NamesMember(f, ix, owner, member, id)
  {
    hide Means, Finds, HasMember, Declares, MemberOf, LookedIn;
    var named := ResolveFqn(owner, f, ix);
    assert forall t :: LookedIn(f, ix, owner, 0, t) <==> Means(f, ix, owner, Some(t)) by { OwnersTurn(f, ix, owner); }
    if named.Some? {
      r := LookupMember(ix, named.value, member);
      if r.Some? {
        assert FoundAt(f, ix, owner, member, 0, named.value, r.value);
        return;
      }
    }
    forall t | LookedIn(f, ix, owner, 0, t) ensures MemberOf(ix, t, member).None? {
      MeansOneThing(f, ix, owner, named, Some(t));
    }
    for i := 0 to |f.staticUsings|
      invariant NoneBefore(f, ix, owner, member, 2 * i + 1)
    {
      var path := f.staticUsings[i];
      StaticTurns(f, ix, owner, i, 2 * i + 1, 2 * i + 2);
      r := LookupMember(ix, path, member);
      if r.Some? {
        assert FoundAt(f, ix, owner, member, 2 * i + 1, path, r.value);
        return;
      }
      named := ResolveFqn(SimpleName(path), f, ix);
      if named.Some? {
        r := LookupMember(ix, named.value, member);
        if r.Some? {
          assert FoundAt(f, ix, owner, member, 2 * i + 2, named.value, r.value);
          return;
        }
      }
      forall t | LookedIn(f, ix, owner, 2 * i + 2, t) ensures MemberOf(ix, t, member).None? {
        MeansOneThing(f, ix, SimpleName(path), named, Some(t));
      }
    }
    NoFurtherTurns(f, ix, owner);
    r := None;
  }

  lemma OwnersTurn(f: FileFacts, ix: Index, owner: string)
    ensures forall t :: LookedIn(f, ix, owner, 0, t) <==> Means(f, ix, owner, Some(t))
  {
  }

  lemma StaticTurns(f: FileFacts, ix: Index, owner: string, i: nat, odd: nat, even: nat)
    requires i < |f.staticUsings| && odd == 2 * i + 1 && even == 2 * i + 2
    ensures forall t :: LookedIn(f, ix, owner, odd, t) <==> t == f.staticUsings[i]
    ensures forall t :: LookedIn(f, ix, owner, even, t) <==> Means(f, ix, SimpleName(f.staticUsings[i]), Some(t))
  {
    hide Means;
    assert (2 * i + 1) / 2 == i && (2 * i + 2) / 2 == i + 1;
  }

  lemma NoFurtherTurns(f: FileFacts, ix: Index, owner: string)
    ensures forall turn: nat, t :: turn > 2 * |f.staticUsings| ==> !LookedIn(f, ix, owner, turn, t)
  {
  }

  // ── every reference ─────────────────────────────────────────

  /** `using App.Models` where the repository declares that namespace: not a
      dependency on anything outside it, and no symbol to point at. */
  predicate IsOwnUsing(rel: Relationship, ix: Index) {
    var i := ParseImport(rel.to);
    ParseLocalType(rel.to).None? && i.Some? && rel.kind.Imports? && i.value.symbol == IMPORT_ALL && i.value.owner in ix.namespaces
  }

  /** A placeholder that parses as neither kind. */
  predicate IsMalformed(rel: Relationship) {
    IsPlaceholder(rel.to) && ParseLocalType(rel.to).None? && ParseImport(rel.to).None?
  }

  /** Where a reference may end up. */
  ghost predicate Binds(f: FileFacts, ix: Index, rel: Relationship, to: SymbolId) {
    if !IsPlaceholder(rel.to) then to == rel.to
    else if ParseLocalType(rel.to).Some? then NamesType(f, ix, ParseLocalType(rel.to).value, to)
    else if ParseImport(rel.to).None? then false
    else
      var i := ParseImport(rel.to).value;
      if rel.kind.Imports? && i.symbol == IMPORT_ALL then i.owner !in ix.namespaces && to == ExternalPackageId(i.owner)
      else NamesMember(f, ix, i.owner, i.symbol, to)
  }

  /** What the pass leaves of a list of references: the bound ones in order, each
      changed in nothing but its target, and a count of those that nothing binds. */
  ghost predicate Resolves(f: FileFacts, ix: Index, rels: seq<Relationship>, kept: seq<Relationship>, unbound: nat)
    decreases |rels|
  {
    if |rels| == 0 then kept == [] && unbound == 0
    else
      var rest, rel := rels[..|rels| - 1], rels[|rels| - 1];
      if IsOwnUsing(rel, ix) || IsMalformed(rel) then Resolves(f, ix, rest, kept, unbound)
      else if exists to :: Binds(f, ix, rel, to) then
        && |kept| > 0
        && kept[|kept| - 1] == rel.(to := kept[|kept| - 1].to) && Binds(f, ix, rel, kept[|kept| - 1].to)
        && Resolves(f, ix, rest, kept[..|kept| - 1], unbound)
      else unbound > 0 && Resolves(f, ix, rest, kept, unbound - 1)
  }

  datatype Fate = Kept(to: SymbolId) | Unbound | Passed

  ghost predicate IsFate(f: FileFacts, ix: Index, rel: Relationship, fate: Fate) {
    match fate
    case Kept(to) => !IsOwnUsing(rel, ix) && !IsMalformed(rel) && Binds(f, ix, rel, to)
    case Unbound => !IsOwnUsing(rel, ix) && !IsMalformed(rel) && forall to :: !Binds(f, ix, rel, to)
    case Passed => IsOwnUsing(rel, ix) || IsMalformed(rel)
  }

  method ResolveOne(rel: Relationship, f: FileFacts, ix: Index) returns (fate: Fate)
    ensures IsFate(f, ix, rel, fate)
  {
    hide NamesType, NamesMember;
    if !IsPlaceholder(rel.to) {
      NoPrefixNoParse(rel.to);
      return Kept(rel.to);
    }
    var local := ParseLocalType(rel.to);
    if local.Some? {
      var target := ResolveType(local.value, f, ix);
      return if target.Some? then Kept(target.value) else Unbound;
    }
    var i := ParseImport(rel.to);
    if i.None? {
      return Passed;
    }
    if rel.kind.Imports? && i.value.symbol == IMPORT_ALL {
      return if i.value.owner in ix.namespaces then Passed else Kept(ExternalPackageId(i.value.owner));
    }
    var target := ResolveMember(i.value.owner, i.value.symbol, f, ix);
    fate := if target.Some? then Kept(target.value) else Unbound;
  }

  lemma NoPrefixNoParse(id: SymbolId)
    requires !IsPlaceholder(id)
    ensures ParseLocalType(id).None? && ParseImport(id).None?
  {
    assert IMPORT_PREFIX <= IMPORT_PREFIX + "|" && LOCAL_TYPE_PREFIX <= LOCAL_TYPE_PREFIX + "|";
  }

  /** One reference more. */
  lemma ResolvesMore(
    f: FileFacts, ix: Index, rels: seq<Relationship>, kept: seq<Relationship>, unbound: nat, rel: Relationship, fate: Fate)
    requires Resolves(f, ix, rels, kept, unbound) && IsFate(f, ix, rel, fate)
    ensures match fate
      case Kept(to) => Resolves(f, ix, rels + [rel], kept + [rel.(to := to)], unbound)
      case Unbound => Resolves(f, ix, rels + [rel], kept, unbound + 1)
      case Passed => Resolves(f, ix, rels + [rel], kept, unbound)
  {
    hide Binds, IsOwnUsing, IsMalformed;
    assert (rels + [rel])[..|rels|] == rels;
    if fate.Kept? {
      var more := kept + [rel.(to := fate.to)];
      assert more[..|kept|] == kept;
    }
  }

  /** One file's references resolved, and those that could not be placed counted. */
  method ResolveFile(rels: seq<Relationship>, f: FileFacts, ix: Index)
    returns (resolved: seq<Relationship>, unbound: nat)
    ensures Resolves(f, ix, rels, resolved, unbound)
  {
    resolved, unbound := [], 0;
    for i := 0 to |rels|
      invariant Resolves(f, ix, rels[..i], resolved, unbound)
    {
      hide Resolves, IsFate;
      var fate := ResolveOne(rels[i], f, ix);
      ResolvesMore(f, ix, rels[..i], resolved, unbound, rels[i], fate);
      assert rels[..i + 1] == rels[..i] + [rels[i]];
      match fate {
        case Kept(to) => resolved := resolved + [rels[i].(to := to)];
        case Unbound => unbound := unbound + 1;
        case Passed =>
      }
    }
    assert rels[..|rels|] == rels;
  }

  /** A reference is bound to one target. */
  lemma BindsOneTarget(f: FileFacts, ix: Index, rel: Relationship, a: SymbolId, b: SymbolId)
    requires Binds(f, ix, rel, a) && Binds(f, ix, rel, b)
    ensures a == b
  {
    hide Means, NamesMember, IsPlaceholder, After, LastOf;
    if IsPlaceholder(rel.to) && ParseLocalType(rel.to).Some? {
      var name := ParseLocalType(rel.to).value;
      var x :| Means(f, ix, name, Some(x)) && x in ix.byFqn && ix.byFqn[x] == a;
      var y :| Means(f, ix, name, Some(y)) && y in ix.byFqn && ix.byFqn[y] == b;
      MeansOneThing(f, ix, name, Some(x), Some(y));
    } else if IsPlaceholder(rel.to) {
      var i := ParseImport(rel.to).value;
      if NamesMember(f, ix, i.owner, i.symbol, a) && NamesMember(f, ix, i.owner, i.symbol, b) {
        NamesOneMember(f, ix, i.owner, i.symbol, a, b);
      }
    }
  }

  /** And a file is resolved in one way. */
  lemma {:induction false} ResolvesOneWay(
    f: FileFacts, ix: Index, rels: seq<Relationship>,
    kept: seq<Relationship>, unbound: nat, other: seq<Relationship>, otherUnbound: nat)
    requires Resolves(f, ix, rels, kept, unbound) && Resolves(f, ix, rels, other, otherUnbound)
    ensures kept == other && unbound == otherUnbound
    decreases |rels|
  {
    hide Binds, IsOwnUsing, IsMalformed;
    if |rels| > 0 {
      var rest, rel := rels[..|rels| - 1], rels[|rels| - 1];
      if IsOwnUsing(rel, ix) || IsMalformed(rel) {
        ResolvesOneWay(f, ix, rest, kept, unbound, other, otherUnbound);
      } else if exists to :: Binds(f, ix, rel, to) {
        var m, n := |kept| - 1, |other| - 1;
        BindsOneTarget(f, ix, rel, kept[m].to, other[n].to);
        ResolvesOneWay(f, ix, rest, kept[..m], unbound, other[..n], otherUnbound);
        assert kept == kept[..m] + [kept[m]] && other == other[..n] + [other[n]];
      } else {
        ResolvesOneWay(f, ix, rest, kept, unbound - 1, other, otherUnbound - 1);
      }
    }
  }

  function Settled(rels: seq<Relationship>): seq<Relationship> {
    if |rels| == 0 then []
    else Settled(rels[..|rels| - 1]) + if IsPlaceholder(rels[|rels| - 1].to) then [] else [rels[|rels| - 1]]
  }

  /** A file nothing is known of: what is resolved stays, and the rest is counted. */
  method ResolveWithoutFacts(rels: seq<Relationship>) returns (kept: seq<Relationship>, unbound: nat)
    ensures kept == Settled(rels) && |kept| + unbound == |rels|
    ensures forall k :: k in kept <==> k in rels && !IsPlaceholder(k.to)
  {
    kept, unbound := [], 0;
    for i := 0 to |rels|
      invariant kept == Settled(rels[..i]) && |kept| + unbound == i
      invariant forall k :: k in kept <==> k in rels[..i] && !IsPlaceholder(k.to)
    {
      assert rels[..i + 1][..i] == rels[..i] && rels[..i + 1] == rels[..i] + [rels[i]];
      if IsPlaceholder(rels[i].to) { unbound := unbound + 1; } else { kept := kept + [rels[i]]; }
    }
    assert rels[..|rels|] == rels;
  }

  function OwnUsings(rels: seq<Relationship>, ix: Index): nat {
    if |rels| == 0 then 0
    else OwnUsings(rels[..|rels| - 1], ix) + if IsOwnUsing(rels[|rels| - 1], ix) then 1 else 0
  }

  function Malformed(rels: seq<Relationship>): nat {
    if |rels| == 0 then 0
    else Malformed(rels[..|rels| - 1]) + if IsMalformed(rels[|rels| - 1]) then 1 else 0
  }

  /** Every reference extracted is kept, counted as unbound, one of the repository's
      own usings, or malformed; so the kept, the unbound and the usings account for
      all of them exactly when none is malformed. */
  lemma {:induction false} ReferencesConserved(
    f: FileFacts, ix: Index, rels: seq<Relationship>, kept: seq<Relationship>, unbound: nat)
    requires Resolves(f, ix, rels, kept, unbound)
    ensures |kept| + unbound + OwnUsings(rels, ix) + Malformed(rels) == |rels|
    ensures |kept| + unbound + OwnUsings(rels, ix) == |rels| <==> forall r :: r in rels ==> !IsMalformed(r)
    decreases |rels|
  {
    CountedConserved(f, ix, rels, kept, unbound);
    NoneMalformed(rels);
  }

  lemma {:induction false} NoneMalformed(rels: seq<Relationship>)
    ensures Malformed(rels) == 0 <==> forall r :: r in rels ==> !IsMalformed(r)
  {
    if |rels| > 0 {
      var n := |rels| - 1;
      NoneMalformed(rels[..n]);
      assert rels == rels[..n] + [rels[n]];
      hide IsMalformed;
    }
  }

  lemma {:induction false} CountedConserved(
    f: FileFacts, ix: Index, rels: seq<Relationship>, kept: seq<Relationship>, unbound: nat)
    requires Resolves(f, ix, rels, kept, unbound)
    ensures |kept| + unbound + OwnUsings(rels, ix) + Malformed(rels) == |rels|
    decreases |rels|
  {
    if |rels| > 0 {
      hide Binds;
      var rest, rel := rels[..|rels| - 1], rels[|rels| - 1];
      assert !(IsOwnUsing(rel, ix) && IsMalformed(rel));
      hide IsOwnUsing, IsMalformed;
      if IsOwnUsing(rel, ix) || IsMalformed(rel) {
        CountedConserved(f, ix, rest, kept, unbound);
      } else if exists to :: Binds(f, ix, rel, to) {
        CountedConserved(f, ix, rest, kept[..|kept| - 1], unbound);
      } else {
        CountedConserved(f, ix, rest, kept, unbound - 1);
      }
    }
  }

  /** No symbol the index can be asked for has a placeholder's id. A member with the
      separator in its name cannot be asked for. */
  ghost predicate IndexIsResolved(ix: Index) {
    && (forall n :: n in ix.byFqn ==> !IsPlaceholder(ix.byFqn[n]))
    && forall t, m :: Declares(ix, t, m) && '|' !in m ==> !IsPlaceholder(ix.members[t][m])
  }

  lemma SymbolHasNoSeparator(id: SymbolId)
    requires ParseImport(id).Some?
    ensures '|' !in ParseImport(id).value.symbol
  {
    hide After;
  }

  lemma NamedIsDeclared(f: FileFacts, ix: Index, owner: string, member: string, id: SymbolId)
    requires NamesMember(f, ix, owner, member, id)
    ensures exists t :: Declares(ix, t, member) && ix.members[t][member] == id
  {
    hide LookedIn, MemberOf;
    var turn, t :| FoundAt(f, ix, owner, member, turn, t, id);
    MemberOfTells(ix, t, member);
  }

  lemma BoundIsResolved(f: FileFacts, ix: Index, rel: Relationship, to: SymbolId)
    requires IndexIsResolved(ix) && Binds(f, ix, rel, to)
    ensures !IsPlaceholder(to)
  {
    hide Means, IsPlaceholder, NamesMember, After, LastOf;
    if ParseImport(rel.to).Some? {
      var i := ParseImport(rel.to).value;
      PackagesAreNoPlaceholders(i.owner);
      SymbolHasNoSeparator(rel.to);
      if NamesMember(f, ix, i.owner, i.symbol, to) { NamedIsDeclared(f, ix, i.owner, i.symbol, to); }
    }
  }

  /** Resolved, and differing from one of these references in at most its target. */
  ghost predicate IsBoundForm(rels: seq<Relationship>, k: Relationship) {
    !IsPlaceholder(k.to) && exists r :: r in rels && k == r.(to := k.to)
  }

  lemma BoundFormOfMore(rest: seq<Relationship>, rel: Relationship, k: Relationship)
    requires IsBoundForm(rest, k)
    ensures IsBoundForm(rest + [rel], k)
  {
    hide IsPlaceholder;
    var r :| r in rest && k == r.(to := k.to);
    assert r in rest + [rel];
  }

  lemma LastBound(rest: seq<Relationship>, rel: Relationship, k: Relationship)
    requires !IsPlaceholder(k.to) && k == rel.(to := k.to)
    ensures IsBoundForm(rest + [rel], k)
  {
    hide IsPlaceholder;
    assert rel in rest + [rel];
  }

  lemma BoundFormsOfMore(rest: seq<Relationship>, rel: Relationship, kept: seq<Relationship>)
    requires forall k :: k in kept ==> IsBoundForm(rest, k)
    ensures forall k :: k in kept ==> IsBoundForm(rest + [rel], k)
  {
    hide IsBoundForm;
    forall k | k in kept ensures IsBoundForm(rest + [rel], k) { BoundFormOfMore(rest, rel, k); }
  }

  lemma BoundFormsWithLast(f: FileFacts, ix: Index, rest: seq<Relationship>, rel: Relationship, kept: seq<Relationship>)
    requires |kept| > 0 && forall k :: k in kept[..|kept| - 1] ==> IsBoundForm(rest, k)
    requires var last := kept[|kept| - 1];
      IndexIsResolved(ix) && last == rel.(to := last.to) && Binds(f, ix, rel, last.to)
    ensures forall k :: k in kept ==> IsBoundForm(rest + [rel], k)
  {
    hide IsBoundForm, Binds, IndexIsResolved, IsPlaceholder;
    var m := |kept| - 1;
    BoundIsResolved(f, ix, rel, kept[m].to);
    LastBound(rest, rel, kept[m]);
    BoundFormsOfMore(rest, rel, kept[..m]);
    assert kept == kept[..m] + [kept[m]];
  }

  /** No placeholder survives, and nothing but a target is ever changed. */
  lemma {:induction false} NoPlaceholderSurvives(
    f: FileFacts, ix: Index, rels: seq<Relationship>, kept: seq<Relationship>, unbound: nat)
    requires IndexIsResolved(ix) && Resolves(f, ix, rels, kept, unbound)
    ensures forall k :: k in kept ==> IsBoundForm(rels, k)
    decreases |rels|
  {
    if |rels| > 0 {
      hide IsPlaceholder, Binds, IsOwnUsing, IsMalformed, IndexIsResolved, IsBoundForm;
      var n, m := |rels| - 1, |kept| - 1;
      var rest, rel := rels[..n], rels[n];
      assert rels == rest + [rel];
      if IsOwnUsing(rel, ix) || IsMalformed(rel) {
        NoPlaceholderSurvives(f, ix, rest, kept, unbound);
        BoundFormsOfMore(rest, rel, kept);
      } else if exists to :: Binds(f, ix, rel, to) {
        NoPlaceholderSurvives(f, ix, rest, kept[..m], unbound);
        BoundFormsWithLast(f, ix, rest, rel, kept);
      } else {
        NoPlaceholderSurvives(f, ix, rest, kept, unbound - 1);
        BoundFormsOfMore(rest, rel, kept);
      }
    }
  }

  /** A reference inside a file whose path begins like a placeholder: it is resolved
      already, and is taken for a placeholder that cannot be read. */
  const INNOCENT: Relationship :=
    Relationship("A", "unresolved_imports/A.cs::A::class", Calls, None, [], "", "unresolved_imports/A.cs", 1, Structural)

  lemma InnocentIsMalformed()
    ensures IsMalformed(INNOCENT) && forall ix :: !IsOwnUsing(INNOCENT, ix)
  {
    var id := INNOCENT.to;
    assert IMPORT_PREFIX == id[..17] && (IMPORT_PREFIX + "|")[17] == '|' && id[17] == 's';
    assert (LOCAL_TYPE_PREFIX + "|")[11] == 'l' && id[11] == 'i';
  }

  /** Such a reference is lost without being counted, whatever the index holds. */
  lemma InnocentIsLost(f: FileFacts, ix: Index, kept: seq<Relationship>, unbound: nat)
    requires Resolves(f, ix, [INNOCENT], kept, unbound)
    ensures IsMalformed(INNOCENT) && kept == [] && unbound == 0 && OwnUsings([INNOCENT], ix) == 0
  {
    hide IsMalformed, Binds, IsOwnUsing, INNOCENT;
    InnocentIsMalformed();
    assert [INNOCENT][..0] == [];
  }
}
