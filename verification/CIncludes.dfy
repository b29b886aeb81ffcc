/** C name visibility (c/include_resolver.rs): what a file sees through its includes,
    and which definition a prototype stands for. */
module CIncludes {
  import opened Wrappers
  import opened Ir
  import opened Ordering
  import opened Reachability
  import DepthFirst

  type Includes = map<string, seq<string>>
  type Names = map<string, SymbolId>

  function Headers(includes: Includes, file: string): seq<string> {
    if file in includes then includes[file] else []
  }

  /** Each file and what it includes. */
  function Including(includes: Includes): Relation<string> {
    set f, h | f in includes && h in includes[f] :: (f, h)
  }

  function Included(includes: Includes): set<string> { set f, h | f in includes && h in includes[f] :: h }

  predicate Defines(symbols: map<string, Names>, file: string, name: string) {
    file in symbols && name in symbols[file]
  }

  // ── what a file can see ─────────────────────────────────────

  /** Some file reachable over includes, itself among them, defines the name. */
  ghost predicate Visible(includes: Includes, symbols: map<string, Names>, file: string, name: string) {
    exists f :: Reaches(Including(includes), file, f) && Defines(symbols, f, name)
  }

  ghost predicate SeesAs(includes: Includes, symbols: map<string, Names>, file: string, name: string, id: SymbolId) {
    exists f :: Reaches(Including(includes), file, f) && Defines(symbols, f, name) && symbols[f][name] == id
  }

  /** What a file sees a name as: the definition that comes first, going into the last
      include first. */
  function SeenAs(includes: Includes, symbols: map<string, Names>, file: string, name: string): Option<SymbolId> {
    DepthFirst.Lookup(includes, symbols, file, name)
  }

  lemma SeenAsTells(includes: Includes, symbols: map<string, Names>, file: string, name: string)
    ensures var r := SeenAs(includes, symbols, file, name);
      && (r.Some? <==> Visible(includes, symbols, file, name))
      && (r.Some? ==> SeesAs(includes, symbols, file, name, r.value))
      && (Defines(symbols, file, name) ==> r == Some(symbols[file][name]))
  {
    DepthFirst.LookupTells(includes, symbols, file, name);
    assert DepthFirst.Links(includes) == Including(includes);
    forall f ensures DepthFirst.Has(symbols, f, name) <==> Defines(symbols, f, name) { }
    hide DepthFirst.Lookup, DepthFirst.Links, Including, DepthFirst.Has, Defines;
  }

  function Held(visible: Names, name: string): Option<SymbolId> { if name in visible then Some(visible[name]) else None }

  function AddMissing(visible: Names, more: Names): Names { more + visible }

  method VisibleSymbols(file: string, includes: Includes, symbols: map<string, Names>) returns (visible: Names)
    ensures forall n :: Held(visible, n) == SeenAs(includes, symbols, file, n)
  {
    visible := map[];
    var seen: set<string> := {};
    var stack := [file];
    hide DepthFirst.Known, DepthFirst.Visits, DepthFirst.FirstWith, AddMissing;
    DepthFirst.StartIsKnown(includes, file);
    while |stack| > 0
      invariant seen <= DepthFirst.Known(includes, file) && forall t :: t in stack ==> t in DepthFirst.Known(includes, file)
      invariant forall n :: StillSees(includes, symbols, file, n, visible, seen, stack)
      decreases DepthFirst.Known(includes, file) - seen, |stack|
    {
      var current := stack[|stack| - 1];
      if current in seen {
        DepthFirst.SkipVisit(includes, file, seen, stack);
        var rest := stack[..|stack| - 1];
        forall n ensures StillSees(includes, symbols, file, n, visible, seen, rest) {
          assert StillSees(includes, symbols, file, n, visible, seen, stack);
        }
        stack := rest;
        continue;
      }
      assert current in stack;
      ReadKnown(includes, file, seen, stack);
      var more := AddMissing(visible, if current in symbols then symbols[current] else map[]);
      var rest := stack[..|stack| - 1] + Headers(includes, current);
      forall n ensures StillSees(includes, symbols, file, n, more, seen + {current}, rest) {
        ReadNext(includes, symbols, file, n, visible, seen, stack);
      }
      visible, seen, stack := more, seen + {current}, rest;
    }
    forall n ensures Held(visible, n) == SeenAs(includes, symbols, file, n) {
      assert StillSees(includes, symbols, file, n, visible, seen, stack);
      DepthFirst.NothingLeft(includes, symbols, file, n, seen, stack);
    }
  }

  /** A name is seen as what has been taken for it, or what is still to come. */
  ghost predicate StillSees(
    includes: Includes, symbols: map<string, Names>, file: string, n: string,
    visible: Names, seen: set<string>, stack: seq<string>)
    requires seen <= DepthFirst.Known(includes, file) && forall t :: t in stack ==> t in DepthFirst.Known(includes, file)
  {
    SeenAs(includes, symbols, file, n)
    == if n in visible then Some(visible[n]) else DepthFirst.FirstWith(symbols, DepthFirst.Visits(includes, file, seen, stack), n)
  }

  lemma ReadKnown(includes: Includes, file: string, seen: set<string>, stack: seq<string>)
    requires |stack| > 0 && seen <= DepthFirst.Known(includes, file) && forall t :: t in stack ==> t in DepthFirst.Known(includes, file)
    ensures stack[|stack| - 1] in DepthFirst.Known(includes, file)
    ensures forall t :: t in stack[..|stack| - 1] + Headers(includes, stack[|stack| - 1]) ==> t in DepthFirst.Known(includes, file)
  {
    DepthFirst.FollowedAreKnown(includes, file, stack[|stack| - 1]);
    StackTop(stack);
    hide DepthFirst.Known;
  }

  lemma ReadNext(
    includes: Includes, symbols: map<string, Names>, file: string, n: string,
    visible: Names, seen: set<string>, stack: seq<string>)
    requires seen <= DepthFirst.Known(includes, file) && forall t :: t in stack ==> t in DepthFirst.Known(includes, file)
    requires |stack| > 0 && stack[|stack| - 1] !in seen && StillSees(includes, symbols, file, n, visible, seen, stack)
    ensures var current := stack[|stack| - 1];
      var more := AddMissing(visible, if current in symbols then symbols[current] else map[]);
      (ReadKnown(includes, file, seen, stack);
       StillSees(includes, symbols, file, n, more, seen + {current}, stack[..|stack| - 1] + Headers(includes, current)))
  {
    ReadKnown(includes, file, seen, stack);
    DepthFirst.NextVisit(includes, symbols, file, n, seen, stack);
    hide DepthFirst.Known, DepthFirst.Visits, DepthFirst.FirstWith;
  }

  lemma StackTop(stack: seq<string>)
    requires |stack| > 0
    ensures forall t :: t in stack <==> t in stack[..|stack| - 1] || t == stack[|stack| - 1]
  {
    assert stack == stack[..|stack| - 1] + [stack[|stack| - 1]];
  }

  /** Headers reached by one include or more. */
  ghost predicate Reachable(includes: Includes, file: string, header: string) {
    exists h :: (file, h) in Including(includes) && Reaches(Including(includes), h, header)
  }

  /** The headers met so far, and the files whose includes are still to be followed. */
  ghost predicate Following(includes: Includes, file: string, seen: set<string>, stack: seq<string>) {
    && (forall h :: h in seen ==> Reachable(includes, file, h) && h in Included(includes))
    && (forall f :: f in stack ==> f == file || f in seen)
    && (forall f, h :: (f == file || f in seen) && f !in stack && (f, h) in Including(includes) ==> h in seen)
  }

  /** The same, with the first `i` headers of `current` followed. */
  ghost predicate FollowingOne(
    includes: Includes, file: string, seen: set<string>, stack: seq<string>, current: string, i: nat)
    requires i <= |Headers(includes, current)|
  {
    && (forall h :: h in seen ==> Reachable(includes, file, h) && h in Included(includes))
    && (forall f :: f in stack || f == current ==> f == file || f in seen)
    && (forall f, h :: (f == file || f in seen) && f !in stack && f != current && (f, h) in Including(includes) ==> h in seen)
    && (forall h :: h in Headers(includes, current)[..i] ==> h in seen)
  }

  lemma FollowTop(includes: Includes, file: string, seen: set<string>, stack: seq<string>)
    requires |stack| > 0 && Following(includes, file, seen, stack)
    ensures FollowingOne(includes, file, seen, stack[..|stack| - 1], stack[|stack| - 1], 0)
  {
    StackTop(stack);
    hide Reachable, Including, Included, Headers;
  }

  lemma FollowNext(
    includes: Includes, file: string, seen: set<string>, stack: seq<string>, current: string, i: nat)
    requires i < |Headers(includes, current)| && FollowingOne(includes, file, seen, stack, current, i)
    ensures var h := Headers(includes, current)[i];
      && h in Included(includes)
      && (h in seen ==> FollowingOne(includes, file, seen, stack, current, i + 1))
      && (h !in seen ==> FollowingOne(includes, file, seen + {h}, stack + [h], current, i + 1))
  {
    var hs := Headers(includes, current);
    assert hs[..i + 1] == hs[..i] + [hs[i]];
    assert (current, hs[i]) in Including(includes);
    ReachedThrough(includes, file, seen, current, hs[i]);
    assert hs[i] in Included(includes);
    hide Reachable, Including, Included, Headers;
  }

  lemma ReachedThrough(includes: Includes, file: string, seen: set<string>, current: string, h: string)
    requires current == file || Reachable(includes, file, current)
    requires (current, h) in Including(includes)
    ensures Reachable(includes, file, h)
  {
    hide Including;
    if current == file {
      ReachesSelf(Including(includes), h);
    } else {
      var first :| (file, first) in Including(includes) && Reaches(Including(includes), first, current);
      Extend(Including(includes), first, current, h);
    }
  }

  lemma FollowedAll(includes: Includes, file: string, seen: set<string>, stack: seq<string>, current: string)
    requires FollowingOne(includes, file, seen, stack, current, |Headers(includes, current)|)
    ensures Following(includes, file, seen, stack)
  {
    var hs := Headers(includes, current);
    assert hs[..|hs|] == hs;
    forall h | (current, h) in Including(includes) ensures h in hs { }
    hide Reachable, Including, Included, Headers;
  }

  lemma FollowedIsReachable(includes: Includes, file: string, seen: set<string>)
    requires Following(includes, file, seen, [])
    ensures forall h :: h in seen <==> Reachable(includes, file, h)
  {
    forall h | Reachable(includes, file, h) ensures h in seen {
      var first :| (file, first) in Including(includes) && Reaches(Including(includes), first, h);
      ClosedHolds(Including(includes), seen, first, h);
    }
  }

  method ReachableHeaders(file: string, includes: Includes) returns (seen: set<string>)
    ensures forall h :: h in seen <==> Reachable(includes, file, h)
  {
    seen := {};
    var stack := [file];
    while |stack| > 0
      invariant Following(includes, file, seen, stack) && seen <= Included(includes)
      decreases Included(includes) - seen, |stack|
    {
      hide Following, FollowingOne, Included;
      var current := stack[|stack| - 1];
      var headers := Headers(includes, current);
      FollowTop(includes, file, seen, stack);
      stack := stack[..|stack| - 1];
      ghost var met, below := seen, stack;
      for i := 0 to |headers|
        invariant FollowingOne(includes, file, seen, stack, current, i) && met <= seen <= Included(includes)
        invariant seen == met ==> stack == below
      {
        FollowNext(includes, file, seen, stack, current, i);
        if headers[i] !in seen {
          seen, stack := seen + {headers[i]}, stack + [headers[i]];
        }
      }
      FollowedAll(includes, file, seen, stack, current);
    }
    FollowedIsReachable(includes, file, seen);
  }

  // ── prototypes ──────────────────────────────────────────────

  datatype FileIR = FileIR(file: string, symbols: seq<Symbol>, relationships: seq<Relationship>)

  const PROTOTYPE_PREFIX := "unresolved_prototype"

  function ParsePrototype(id: SymbolId): Option<string> {
    if PROTOTYPE_PREFIX + "|" <= id then Some(id[|PROTOTYPE_PREFIX| + 1..]) else None
  }

  /** A prototype is read back as the name it was written for, whatever the name, and
      nothing else is read as one. */
  lemma PrototypeReads(id: SymbolId, name: string)
    ensures ParsePrototype(id) == Some(name) <==> id == "unresolved_prototype|" + name
  {
    assert PROTOTYPE_PREFIX + "|" == "unresolved_prototype|";
    if "unresolved_prototype|" <= id { assert id == "unresolved_prototype|" + id[21..]; }
  }

  predicate IsPrototypeOf(rel: Relationship, name: string) { ParsePrototype(rel.to) == Some(name) }

  /** A header that declares a name. */
  ghost predicate Prototypes(files: seq<FileIR>, header: string, name: string) {
    exists f :: f in files && f.file == header && exists r :: r in f.relationships && IsPrototypeOf(r, name)
  }

  datatype Definition = Definition(file: string, id: SymbolId)

  function DefinedIn(f: FileIR, symbols: seq<Symbol>, name: string): seq<Definition> {
    if |symbols| == 0 then []
    else
      var s := symbols[|symbols| - 1];
      DefinedIn(f, symbols[..|symbols| - 1], name)
      + if s.kind.Function? && s.name == name then [Definition(f.file, s.id)] else []
  }

  /** Every function symbol of a name, file by file. */
  function Definitions(files: seq<FileIR>, name: string): seq<Definition> {
    if |files| == 0 then []
    else
      var f := files[|files| - 1];
      Definitions(files[..|files| - 1], name) + DefinedIn(f, f.symbols, name)
  }

  /** Those that lie in a file which includes the header directly. */
  function Definers(ds: seq<Definition>, includes: Includes, header: string): seq<Definition> {
    if |ds| == 0 then []
    else
      Definers(ds[..|ds| - 1], includes, header)
      + if header in Headers(includes, ds[|ds| - 1].file) then [ds[|ds| - 1]] else []
  }

  datatype Prototype = Prototype(header: string, name: string)

  type Links = map<Prototype, SymbolId>

  predicate Declares(declared: map<string, set<string>>, header: string, name: string) {
    header in declared && name in declared[header]
  }

  predicate DeclaresHere(rels: seq<Relationship>, name: string) { exists r :: r in rels && IsPrototypeOf(r, name) }

  method CollectFile(f: FileIR) returns (names: set<string>)
    ensures forall n :: n in names <==> DeclaresHere(f.relationships, n)
  {
    names := {};
    for i := 0 to |f.relationships|
      invariant forall n :: n in names <==> DeclaresHere(f.relationships[..i], n)
    {
      var name := ParsePrototype(f.relationships[i].to);
      OneMoreRelationship(f.relationships, i);
      hide ParsePrototype, DeclaresHere;
      if name.Some? { names := names + {name.value}; }
    }
    assert f.relationships[..|f.relationships|] == f.relationships;
  }

  lemma OneMoreRelationship(rels: seq<Relationship>, i: nat)
    requires i < |rels|
    ensures forall n :: DeclaresHere(rels[..i + 1], n) <==> DeclaresHere(rels[..i], n) || ParsePrototype(rels[i].to) == Some(n)
  {
    assert rels[..i + 1] == rels[..i] + [rels[i]];
    hide ParsePrototype;
    forall n ensures IsPrototypeOf(rels[i], n) <==> ParsePrototype(rels[i].to) == Some(n) { }
  }

  function AddNames(declared: map<string, set<string>>, header: string, names: set<string>): (r: map<string, set<string>>)
    ensures forall h, n :: Declares(r, h, n) <==> Declares(declared, h, n) || (h == header && n in names)
  {
    declared[header := (if header in declared then declared[header] else {}) + names]
  }

  method CollectDeclared(files: seq<FileIR>) returns (declared: map<string, set<string>>)
    ensures forall h, n :: Declares(declared, h, n) <==> Prototypes(files, h, n)
  {
    declared := map[];
    for i := 0 to |files|
      invariant forall h, n :: Declares(declared, h, n) <==> Prototypes(files[..i], h, n)
    {
      var f := files[i];
      var names := CollectFile(f);
      OneMoreFile(files, i);
      hide DeclaresHere, Prototypes, Declares;
      declared := AddNames(declared, f.file, names);
    }
    assert files[..|files|] == files;
  }

  lemma OneMoreFile(files: seq<FileIR>, i: nat)
    requires i < |files|
    ensures forall h, n :: Prototypes(files[..i + 1], h, n) <==>
      Prototypes(files[..i], h, n) || (files[i].file == h && DeclaresHere(files[i].relationships, n))
  {
    assert files[..i + 1] == files[..i] + [files[i]];
    hide IsPrototypeOf;
  }

  type Defined = map<string, seq<Definition>>

  function At(defined: Defined, name: string): seq<Definition> { if name in defined then defined[name] else [] }

  lemma DefinedNext(f: FileIR, i: nat)
    requires i < |f.symbols|
    ensures forall n ::
      DefinedIn(f, f.symbols[..i + 1], n) == DefinedIn(f, f.symbols[..i], n)
        + if f.symbols[i].kind.Function? && f.symbols[i].name == n then [Definition(f.file, f.symbols[i].id)] else []
  {
    assert f.symbols[..i + 1][..i] == f.symbols[..i];
  }

  lemma DefinedNone(f: FileIR)
    ensures forall n :: DefinedIn(f, f.symbols[..0], n) == []
  {
  }

  method DefineFile(before: Defined, f: FileIR) returns (defined: Defined)
    ensures forall n :: At(defined, n) == At(before, n) + DefinedIn(f, f.symbols, n)
  {
    hide DefinedIn;
    defined := before;
    DefinedNone(f);
    for i := 0 to |f.symbols|
      invariant forall n :: At(defined, n) == At(before, n) + DefinedIn(f, f.symbols[..i], n)
    {
      var s := f.symbols[i];
      DefinedNext(f, i);
      if s.kind.Function? { defined := defined[s.name := At(defined, s.name) + [Definition(f.file, s.id)]]; }
    }
    assert f.symbols[..|f.symbols|] == f.symbols;
  }

  method CollectDefined(files: seq<FileIR>) returns (defined: Defined)
    ensures forall n :: At(defined, n) == Definitions(files, n)
  {
    defined := map[];
    for i := 0 to |files|
      invariant forall n :: At(defined, n) == Definitions(files[..i], n)
    {
      assert files[..i + 1][..i] == files[..i];
      hide DefinedIn, At;
      defined := DefineFile(defined, files[i]);
    }
    assert files[..|files|] == files;
  }

  // ── links ───────────────────────────────────────────────────

  /** The function symbols a prototype could stand for. */
  function Candidates(files: seq<FileIR>, includes: Includes, p: Prototype): seq<Definition> {
    Definers(Definitions(files, p.name), includes, p.header)
  }

  ghost predicate IsLinked(files: seq<FileIR>, includes: Includes, p: Prototype) {
    Prototypes(files, p.header, p.name) && |Candidates(files, includes, p)| == 1
  }

  /** A prototype is linked exactly when one function symbol of its name, and only
      one, lies in a file that includes the header; and it is linked to that one. */
  ghost predicate LinksExactly(files: seq<FileIR>, includes: Includes, links: Links) {
    && (forall p :: p in links <==> IsLinked(files, includes, p))
    && forall p :: p in links ==> Candidates(files, includes, p)[0].id == links[p]
  }

  /** The prototypes of the headers and names gone through so far. */
  ghost predicate LinkedAmong(files: seq<FileIR>, includes: Includes, done: set<Prototype>, links: Links) {
    && (forall p :: p in links <==> p in done && |Candidates(files, includes, p)| == 1)
    && forall p :: p in links ==> |Candidates(files, includes, p)| == 1 && Candidates(files, includes, p)[0].id == links[p]
  }

  method LinkPrototypes(files: seq<FileIR>, includes: Includes) returns (links: Links)
    ensures LinksExactly(files, includes, links)
  {
    hide Definers, Definitions, Prototypes, At, Candidates;
    var declared := CollectDeclared(files);
    var defined := CollectDefined(files);
    var todo := set h, n | h in declared && n in declared[h] :: Prototype(h, n);
    forall p ensures p in todo <==> Prototypes(files, p.header, p.name) {
      assert p == Prototype(p.header, p.name);
      assert Declares(declared, p.header, p.name) <==> p in todo;
    }
    links := map[];
    var rest := todo;
    while rest != {}
      invariant rest <= todo && LinkedAmong(files, includes, todo - rest, links)
      decreases rest
    {
      var p :| p in rest;
      var definers := Definers(At(defined, p.name), includes, p.header);
      CandidatesAre(files, includes, p, At(defined, p.name));
      LinkNext(files, includes, todo, rest, links, p);
      rest := rest - {p};
      if |definers| == 1 { links := links[p := definers[0].id]; }
    }
    assert todo - rest == todo;
  }

  lemma CandidatesAre(files: seq<FileIR>, includes: Includes, p: Prototype, ds: seq<Definition>)
    requires ds == Definitions(files, p.name)
    ensures Definers(ds, includes, p.header) == Candidates(files, includes, p)
  {
  }

  lemma LinkNext(
    files: seq<FileIR>, includes: Includes, todo: set<Prototype>, rest: set<Prototype>, links: Links, p: Prototype)
    requires rest <= todo && p in rest && LinkedAmong(files, includes, todo - rest, links)
    ensures LinkedAmong(files, includes, todo - (rest - {p}),
      if |Candidates(files, includes, p)| == 1 then links[p := Candidates(files, includes, p)[0].id] else links)
  {
    hide Candidates;
  }

  /** What a candidate is: a function symbol of that name, in a file that includes
      that header. */
  lemma {:induction false} CandidateTells(files: seq<FileIR>, includes: Includes, p: Prototype, d: Definition)
    ensures d in Candidates(files, includes, p) <==>
      && p.header in Headers(includes, d.file)
      && exists f, s :: f in files && s in f.symbols && IsFunctionOf(f, s, p.name, d)
  {
    DefinersTell(Definitions(files, p.name), includes, p.header, d);
    DefinitionsTell(files, p.name, d);
    hide Definers, Definitions, Headers;
  }

  predicate IsFunctionOf(f: FileIR, s: Symbol, name: string, d: Definition) {
    s.kind.Function? && s.name == name && d == Definition(f.file, s.id)
  }

  lemma {:induction false} DefinersTell(ds: seq<Definition>, includes: Includes, header: string, d: Definition)
    ensures d in Definers(ds, includes, header) <==> d in ds && header in Headers(includes, d.file)
  {
    if |ds| > 0 {
      DefinersTell(ds[..|ds| - 1], includes, header, d);
      assert ds == ds[..|ds| - 1] + [ds[|ds| - 1]];
    }
  }

  lemma {:induction false} DefinedInTells(f: FileIR, symbols: seq<Symbol>, name: string, d: Definition)
    ensures d in DefinedIn(f, symbols, name) <==> exists s :: s in symbols && IsFunctionOf(f, s, name, d)
  {
    if |symbols| > 0 {
      var n := |symbols| - 1;
      DefinedInTells(f, symbols[..n], name, d);
      assert symbols == symbols[..n] + [symbols[n]];
      assert d in DefinedIn(f, symbols, name) <==> d in DefinedIn(f, symbols[..n], name) || IsFunctionOf(f, symbols[n], name, d);
      hide IsFunctionOf;
    }
  }

  lemma {:induction false} DefinitionsTell(files: seq<FileIR>, name: string, d: Definition)
    ensures d in Definitions(files, name) <==>
      exists f, s :: f in files && s in f.symbols && IsFunctionOf(f, s, name, d)
  {
    if |files| > 0 {
      var n := |files| - 1;
      DefinitionsTell(files[..n], name, d);
      DefinedInTells(files[n], files[n].symbols, name, d);
      assert files == files[..n] + [files[n]];
      hide DefinedIn, IsFunctionOf;
    }
  }

  // ── counting entries ────────────────────────────────────────

  /** Where a symbol entry stands: which file, and which of its symbols. */
  datatype Place = Place(file: nat, symbol: nat)

  predicate IsEntry(files: seq<FileIR>, includes: Includes, p: Prototype, at: Place) {
    && at.file < |files| && at.symbol < |files[at.file].symbols|
    && IsNamed(files[at.file].symbols[at.symbol], p.name)
    && files[at.file].file in includes && p.header in includes[files[at.file].file]
  }

  predicate IsNamed(s: Symbol, name: string) { s.kind == Function && s.name == name }

  /** Every entry of a function of that name in a file that includes the header, two
      entries of one file counting twice. */
  function Places(files: seq<FileIR>, includes: Includes, p: Prototype): set<Place> {
    set i, j | 0 <= i < |files| && 0 <= j < |files[i].symbols| && IsEntry(files, includes, p, Place(i, j)) :: Place(i, j)
  }

  function PlacesIn(k: nat, symbols: seq<Symbol>, name: string): set<Place> {
    set j | 0 <= j < |symbols| && IsNamed(symbols[j], name) :: Place(k, j)
  }

  lemma {:induction false} DefinersSplit(a: seq<Definition>, b: seq<Definition>, includes: Includes, header: string)
    ensures Definers(a + b, includes, header) == Definers(a, includes, header) + Definers(b, includes, header)
  {
    hide Headers;
    if |b| == 0 {
      assert a + b == a;
    } else {
      DefinersSplit(a, b[..|b| - 1], includes, header);
      assert (a + b)[..|a + b| - 1] == a + b[..|b| - 1];
    }
  }

  lemma {:induction false} DefinedCount(k: nat, f: FileIR, symbols: seq<Symbol>, name: string)
    ensures |DefinedIn(f, symbols, name)| == |PlacesIn(k, symbols, name)|
  {
    if |symbols| > 0 {
      var n := |symbols| - 1;
      DefinedCount(k, f, symbols[..n], name);
      assert PlacesIn(k, symbols, name) == PlacesIn(k, symbols[..n], name) + if IsNamed(symbols[n], name) then {Place(k, n)} else {};
    }
  }

  /** A file's entries all qualify, or none does. */
  lemma {:induction false} DefinersOfFile(f: FileIR, symbols: seq<Symbol>, name: string, includes: Includes, header: string)
    ensures Definers(DefinedIn(f, symbols, name), includes, header)
      == if header in Headers(includes, f.file) then DefinedIn(f, symbols, name) else []
  {
    hide Headers;
    if |symbols| > 0 {
      var n := |symbols| - 1;
      DefinersOfFile(f, symbols[..n], name, includes, header);
      var last := if IsNamed(symbols[n], name) then [Definition(f.file, symbols[n].id)] else [];
      DefinersSplit(DefinedIn(f, symbols[..n], name), last, includes, header);
      AtMostOneDefiner(last, f.file, includes, header);
      hide Definers;
    }
  }

  lemma AtMostOneDefiner(ds: seq<Definition>, file: string, includes: Includes, header: string)
    requires |ds| <= 1 && (|ds| == 1 ==> ds[0].file == file)
    ensures Definers(ds, includes, header) == if header in Headers(includes, file) then ds else []
  {
    hide Headers;
    if |ds| == 1 {
      assert ds[..0] == [];
      assert ds == [ds[0]];
    }
  }

  lemma PlacesOfMore(files: seq<FileIR>, includes: Includes, p: Prototype)
    requires |files| > 0
    ensures var n := |files| - 1;
      var here := if p.header in Headers(includes, files[n].file) then PlacesIn(n, files[n].symbols, p.name) else {};
      Places(files, includes, p) == Places(files[..n], includes, p) + here && Places(files[..n], includes, p) !! here
  {
    hide IsNamed;
    var n := |files| - 1;
    var here := if p.header in Headers(includes, files[n].file) then PlacesIn(n, files[n].symbols, p.name) else {};
    forall at ensures at in Places(files, includes, p) <==> at in Places(files[..n], includes, p) || at in here {
      assert at == Place(at.file, at.symbol);
    }
  }

  lemma {:induction false} CandidatesCount(files: seq<FileIR>, includes: Includes, p: Prototype)
    ensures |Candidates(files, includes, p)| == |Places(files, includes, p)|
  {
    hide Headers, DefinedIn, PlacesIn;
    if |files| == 0 {
      assert Places(files, includes, p) == {};
    } else {
      var n := |files| - 1;
      CandidatesCount(files[..n], includes, p);
      DefinedCount(n, files[n], files[n].symbols, p.name);
      DefinersOfFile(files[n], files[n].symbols, p.name, includes, p.header);
      DefinersSplit(Definitions(files[..n], p.name), DefinedIn(files[n], files[n].symbols, p.name), includes, p.header);
      PlacesOfMore(files, includes, p);
      hide Places;
    }
  }

  /** Some relationship of a file of the header's path points at the prototype. */
  ghost predicate WritesPrototype(files: seq<FileIR>, p: Prototype) {
    exists f, rel ::
      f in files && f.file == p.header && rel in f.relationships && rel.to == "unresolved_prototype|" + p.name
  }

  lemma WrittenIsDeclared(files: seq<FileIR>, p: Prototype)
    ensures Prototypes(files, p.header, p.name) <==> WritesPrototype(files, p)
  {
    forall rel: Relationship ensures IsPrototypeOf(rel, p.name) <==> rel.to == "unresolved_prototype|" + p.name {
      PrototypeReads(rel.to, p.name);
    }
    hide IsPrototypeOf;
  }

  /** A declared prototype is linked exactly when a single entry could be meant. Two
      leave it linked to neither, and they may be two entries of one file. */
  lemma LinkedByOneEntry(files: seq<FileIR>, includes: Includes, links: Links, p: Prototype)
    requires LinksExactly(files, includes, links)
    ensures p in links <==> WritesPrototype(files, p) && |Places(files, includes, p)| == 1
  {
    hide Candidates, Places, Prototypes, WritesPrototype;
    CandidatesCount(files, includes, p);
    WrittenIsDeclared(files, p);
  }

  /** And it is linked to the symbol of that entry. */
  lemma LinkedToTheEntry(files: seq<FileIR>, includes: Includes, links: Links, p: Prototype, at: Place)
    requires LinksExactly(files, includes, links) && p in links && IsEntry(files, includes, p, at)
    ensures links[p] == files[at.file].symbols[at.symbol].id
  {
    hide Candidates, Prototypes;
    var f := files[at.file];
    var d := Definition(f.file, f.symbols[at.symbol].id);
    assert IsFunctionOf(f, f.symbols[at.symbol], p.name, d);
    CandidateTells(files, includes, p, d);
    assert d in Candidates(files, includes, p);
    assert |Candidates(files, includes, p)| == 1;
  }

  /** Two entries a header could mean leave it meaning neither, the same file's and
      equal ones included. */
  lemma AmbiguousIsUnlinked(files: seq<FileIR>, includes: Includes, links: Links, p: Prototype, a: Place, b: Place)
    requires LinksExactly(files, includes, links) && a != b
    requires IsEntry(files, includes, p, a) && IsEntry(files, includes, p, b)
    ensures p !in links
  {
    LinkedByOneEntry(files, includes, links, p);
    var places := Places(files, includes, p);
    assert a == Place(a.file, a.symbol) && b == Place(b.file, b.symbol);
    assert a in places && b in places;
    hide IsEntry, LinksExactly, Places;
    assert places == {a, b} + (places - {a, b});
  }

  // ── names through prototypes ────────────────────────────────

  /** A header the file reaches has a linked prototype of the name. */
  ghost predicate Offers(file: string, includes: Includes, links: Links, name: string, header: string) {
    Reachable(includes, file, header) && Prototype(header, name) in links
  }

  /** Of several such headers the last in path order gives the name its meaning. */
  ghost predicate LastOffer(file: string, includes: Includes, links: Links, name: string, header: string) {
    && Offers(file, includes, links, name, header)
    && forall h :: Offers(file, includes, links, name, h) ==> Le(TextKey(h), TextKey(header))
  }

  function LinkedIn(links: Links, header: string): Names {
    map n | n in (set p | p in links :: p.name) && Prototype(header, n) in links :: links[Prototype(header, n)]
  }

  lemma LinkedTells(links: Links, header: string, n: string)
    ensures n in LinkedIn(links, header) <==> Prototype(header, n) in links
    ensures n in LinkedIn(links, header) ==> LinkedIn(links, header)[n] == links[Prototype(header, n)]
  {
    if Prototype(header, n) in links { assert Prototype(header, n).name == n; }
  }

  /** What the headers gone through so far, in order, have given. */
  ghost predicate Through(headers: seq<string>, links: Links, via: Names) {
    forall n ::
      && (n in via <==> exists i :: 0 <= i < |headers| && Prototype(headers[i], n) in links)
      && (n in via ==> exists i :: 0 <= i < |headers| && GivesLast(headers, links, n, i) && links[Prototype(headers[i], n)] == via[n])
  }

  predicate GivesLast(headers: seq<string>, links: Links, n: string, i: nat) {
    && i < |headers| && Prototype(headers[i], n) in links
    && forall j :: i < j < |headers| ==> Prototype(headers[j], n) !in links
  }

  lemma OneMoreHeader(headers: seq<string>, h: string, links: Links, via: Names)
    requires Through(headers, links, via)
    ensures Through(headers + [h], links, via + LinkedIn(links, h))
  {
    var more, after := headers + [h], via + LinkedIn(links, h);
    forall n
      ensures n in after <==> exists i :: 0 <= i < |more| && Prototype(more[i], n) in links
      ensures n in after ==> exists i :: 0 <= i < |more| && GivesLast(more, links, n, i) && links[Prototype(more[i], n)] == after[n]
    {
      LinkedTells(links, h, n);
      hide LinkedIn;
      if Prototype(h, n) in links {
        assert more[|headers|] == h && GivesLast(more, links, n, |headers|);
      } else if n in via {
        var i :| 0 <= i < |headers| && GivesLast(headers, links, n, i) && links[Prototype(headers[i], n)] == via[n];
        assert more[i] == headers[i] && GivesLast(more, links, n, i);
      }
    }
  }

  /** The names a file reaches through the prototypes of headers it sees. */
  method ViaPrototypes(file: string, includes: Includes, links: Links) returns (via: Names)
    ensures forall n :: n in via <==> exists h :: Offers(file, includes, links, n, h)
    ensures forall n :: n in via ==>
      exists h :: LastOffer(file, includes, links, n, h) && links[Prototype(h, n)] == via[n]
  {
    var headers := ReachableHeaders(file, includes);
    hide Reachable, LinkedIn, Through;
    forall x, y | TextKey(x) == TextKey(y) ensures x == y { assert TextKey(x)[0] == TextKey(y)[0]; }
    var ordered := InOrder(TextKey, headers);
    via := map[];
    NoHeaders(links);
    for i := 0 to |ordered|
      invariant Through(ordered[..i], links, via)
    {
      assert ordered[..i + 1] == ordered[..i] + [ordered[i]];
      OneMoreHeader(ordered[..i], ordered[i], links, via);
      via := via + LinkedIn(links, ordered[i]);
    }
    assert ordered[..|ordered|] == ordered;
    forall n { ThroughAll(file, includes, links, headers, ordered, via, n); }
  }

  lemma NoHeaders(links: Links)
    ensures Through([], links, map[])
  {
  }

  lemma ThroughAll(
    file: string, includes: Includes, links: Links, headers: set<string>, ordered: seq<string>, via: Names, n: string)
    requires forall h :: h in headers <==> Reachable(includes, file, h)
    requires StrictlySortedBy(TextKey, ordered) && forall h :: h in ordered <==> h in headers
    requires Through(ordered, links, via)
    ensures n in via <==> exists h :: Offers(file, includes, links, n, h)
    ensures n in via ==> exists h :: LastOffer(file, includes, links, n, h) && links[Prototype(h, n)] == via[n]
  {
    hide Reachable;
    if h :| Offers(file, includes, links, n, h) {
      assert h in ordered;
    }
    if n in via {
      var i :| 0 <= i < |ordered| && GivesLast(ordered, links, n, i) && links[Prototype(ordered[i], n)] == via[n];
      assert ordered[i] in ordered;
      assert Offers(file, includes, links, n, ordered[i]);
      forall h | Offers(file, includes, links, n, h) ensures Le(TextKey(h), TextKey(ordered[i])) {
        assert h in ordered;
        var j :| 0 <= j < |ordered| && ordered[j] == h;
        if j == i { Reflexive(TextKey(h)); } else { assert j < i; }
      }
      assert LastOffer(file, includes, links, n, ordered[i]);
    }
  }
}
