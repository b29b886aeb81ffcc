/** The index C# names are looked up in, and the whole pass over a repository's files
    (csharp/import_resolver.rs, `build_index` and `resolve`). */
module CSharpIndex {
  import opened Wrappers
  import opened Ir
  import opened Placeholders
  import opened CSharp

  datatype FileIr = FileIr(file: string, symbols: seq<Symbol>, relationships: seq<Relationship>)

  /** A file after the pass, with the references it named that were not placed. */
  datatype ResolvedFile = ResolvedFile(relationships: seq<Relationship>, unbound: nat)

  type Facts = map<string, FileFacts>

  // ── what a file declares ────────────────────────────────────

  predicate IsType(s: Symbol) { s.kind.Class? || s.kind.Interface? || s.kind.Enum? }

  predicate IsMember(s: Symbol) { s.kind.Method? || s.kind.Property? }

  /** The namespace a name is declared in, a later entry replacing an earlier one. */
  function SpaceOf(declared: seq<Declared>, name: string): string {
    if |declared| == 0 then ""
    else if declared[|declared| - 1].name == name then declared[|declared| - 1].space
    else SpaceOf(declared[..|declared| - 1], name)
  }

  function FqnOf(f: FileFacts, name: string): string { Fqn(SpaceOf(f.declared, name), name) }

  /** Where `::` first occurs, and where it last does. */
  function FirstSeparator(s: string): Option<nat> {
    if |s| < 2 then None
    else if s[..2] == "::" then Some(0)
    else match FirstSeparator(s[1..]) case None => None case Some(i) => Some(i + 1)
  }

  function LastSeparator(s: string): Option<nat> {
    if |s| < 2 then None
    else if s[|s| - 2..] == "::" then Some(|s| - 2)
    else LastSeparator(s[..|s| - 1])
  }

  lemma {:induction false} SeparatorBounds(s: string)
    ensures FirstSeparator(s).Some? ==> FirstSeparator(s).value + 2 <= |s|
    ensures LastSeparator(s).Some? ==> LastSeparator(s).value + 2 <= |s|
  {
    if |s| >= 2 {
      SeparatorBounds(s[1..]);
      SeparatorBounds(s[..|s| - 1]);
    }
  }

  /** The name part of an id, between its first separator and its last. */
  function NameOf(id: SymbolId): Option<string> {
    SeparatorBounds(id);
    var first, last := FirstSeparator(id), LastSeparator(id);
    if first.None? || last.None? || last.value < first.value + 2 then None
    else Some(id[first.value + 2..last.value])
  }

  /** The type a member's id puts it in. */
  function OwnerOf(id: SymbolId): Option<string> {
    match NameOf(id)
    case None => None
    case Some(name) =>
      SeparatorBounds(name);
      match FirstSeparator(name)
      case None => None
      case Some(cut) => Some(name[..cut])
  }

  // ── the index ───────────────────────────────────────────────

  datatype TypeEntry = TypeEntry(space: string, fqn: string, id: SymbolId)

  datatype MemberEntry = MemberEntry(owner: string, name: string, id: SymbolId)

  /** The types among these symbols of a file, in the order declared. */
  function TypesIn(f: FileFacts, symbols: seq<Symbol>): seq<TypeEntry> {
    if |symbols| == 0 then []
    else
      var s := symbols[|symbols| - 1];
      TypesIn(f, symbols[..|symbols| - 1])
      + if IsType(s) then [TypeEntry(SpaceOf(f.declared, s.name), FqnOf(f, s.name), s.id)] else []
  }

  function MembersIn(f: FileFacts, symbols: seq<Symbol>): seq<MemberEntry> {
    if |symbols| == 0 then []
    else
      var s := symbols[|symbols| - 1];
      MembersIn(f, symbols[..|symbols| - 1])
      + if IsMember(s) && OwnerOf(s.id).Some? then [MemberEntry(FqnOf(f, OwnerOf(s.id).value), s.name, s.id)] else []
  }

  /** File by file; a file nothing is known of has none. */
  function Types(files: seq<FileIr>, facts: Facts): seq<TypeEntry> {
    if |files| == 0 then []
    else
      var f := files[|files| - 1];
      Types(files[..|files| - 1], facts) + if f.file in facts then TypesIn(facts[f.file], f.symbols) else []
  }

  function Members(files: seq<FileIr>, facts: Facts): seq<MemberEntry> {
    if |files| == 0 then []
    else
      var f := files[|files| - 1];
      Members(files[..|files| - 1], facts) + if f.file in facts then MembersIn(facts[f.file], f.symbols) else []
  }

  /** A type's canonical declaration is its first. */
  ghost predicate IsFirst(types: seq<TypeEntry>, n: string, id: SymbolId) {
    exists i :: 0 <= i < |types| && types[i].fqn == n && types[i].id == id && forall j :: 0 <= j < i ==> types[j].fqn != n
  }

  predicate IsFor(e: MemberEntry, owner: string, name: string) { e.owner == owner && e.name == name }

  /** A member declared more than once stands for the last. */
  ghost predicate IsLast(members: seq<MemberEntry>, owner: string, name: string, id: SymbolId) {
    exists i :: 0 <= i < |members| && IsFor(members[i], owner, name) && members[i].id == id
      && forall j :: i < j < |members| ==> !IsFor(members[j], owner, name)
  }

  /** The index of these types and members: a partial type's members together under its
      full name, whichever files they are in. */
  ghost predicate Indexes(types: seq<TypeEntry>, members: seq<MemberEntry>, ix: Index) {
    && (forall n :: n in ix.byFqn ==> IsFirst(types, n, ix.byFqn[n]))
    && (forall i :: 0 <= i < |types| ==> types[i].fqn in ix.byFqn)
    && ix.namespaces == (set e | e in types :: e.space)
    && (forall t, m :: Declares(ix, t, m) ==> IsLast(members, t, m, ix.members[t][m]))
    && (forall i :: 0 <= i < |members| ==> Declares(ix, members[i].owner, members[i].name))
  }

  lemma FirstOfMore(types: seq<TypeEntry>, more: TypeEntry, n: string, id: SymbolId)
    requires IsFirst(types, n, id)
    ensures IsFirst(types + [more], n, id)
  {
    var i :| 0 <= i < |types| && types[i].fqn == n && types[i].id == id && forall j :: 0 <= j < i ==> types[j].fqn != n;
    assert (types + [more])[i] == types[i];
  }

  lemma OneMoreType(types: seq<TypeEntry>, members: seq<MemberEntry>, ix: Index, e: TypeEntry)
    requires Indexes(types, members, ix)
    ensures Indexes(types + [e], members,
      ix.(namespaces := ix.namespaces + {e.space},
          byFqn := if e.fqn in ix.byFqn then ix.byFqn else ix.byFqn[e.fqn := e.id]))
  {
    var byFqn := if e.fqn in ix.byFqn then ix.byFqn else ix.byFqn[e.fqn := e.id];
    var more := types + [e];
    hide IsLast;
    forall n | n in byFqn ensures IsFirst(more, n, byFqn[n]) {
      if n in ix.byFqn { FirstOfMore(types, e, n, ix.byFqn[n]); } else { assert more[|types|] == e; }
    }
    hide IsFirst;
    forall i | 0 <= i < |more| ensures more[i].fqn in byFqn { if i < |types| { assert more[i] == types[i]; } }
  }

  function WithMember(members: map<string, map<string, SymbolId>>, e: MemberEntry): map<string, map<string, SymbolId>> {
    members[e.owner := (if e.owner in members then members[e.owner] else map[])[e.name := e.id]]
  }

  lemma LastOfMore(members: seq<MemberEntry>, e: MemberEntry, owner: string, name: string, id: SymbolId)
    requires if IsFor(e, owner, name) then id == e.id else IsLast(members, owner, name, id)
    ensures IsLast(members + [e], owner, name, id)
  {
    var more := members + [e];
    if IsFor(e, owner, name) {
      assert more[|members|] == e;
    } else {
      var i :| 0 <= i < |members| && IsFor(members[i], owner, name) && members[i].id == id
        && forall j :: i < j < |members| ==> !IsFor(members[j], owner, name);
      assert more[i] == members[i];
    }
  }

  lemma OneMoreMember(types: seq<TypeEntry>, members: seq<MemberEntry>, ix: Index, e: MemberEntry)
    requires Indexes(types, members, ix)
    ensures Indexes(types, members + [e], ix.(members := WithMember(ix.members, e)))
  {
    hide IsFirst, IsLast;
    var after, more := ix.(members := WithMember(ix.members, e)), members + [e];
    forall t, m | Declares(after, t, m) ensures IsLast(more, t, m, after.members[t][m]) {
      LastOfMore(members, e, t, m, after.members[t][m]);
    }
    forall i | 0 <= i < |more| ensures Declares(after, more[i].owner, more[i].name) {
      if i < |members| { assert more[i] == members[i]; }
    }
  }

  /** One file's types, and then its members. */
  method IndexFile(f: FileFacts, symbols: seq<Symbol>, before: Index, ghost types: seq<TypeEntry>, ghost members: seq<MemberEntry>)
    returns (ix: Index)
    requires Indexes(types, members, before)
    ensures Indexes(types + TypesIn(f, symbols), members + MembersIn(f, symbols), ix) && ix.bases == before.bases
  {
    hide Indexes, OwnerOf, SpaceOf, IsType, IsMember;
    ix := before;
    assert types + [] == types && members + [] == members;
    for i := 0 to |symbols|
      invariant Indexes(types + TypesIn(f, symbols[..i]), members, ix) && ix.bases == before.bases
    {
      var s := symbols[i];
      assert symbols[..i + 1][..i] == symbols[..i];
      if !IsType(s) {
        assert types + TypesIn(f, symbols[..i + 1]) == types + TypesIn(f, symbols[..i]);
        continue;
      }
      var space, name := SpaceOf(f.declared, s.name), FqnOf(f, s.name);
      OneMoreType(types + TypesIn(f, symbols[..i]), members, ix, TypeEntry(space, name, s.id));
      assert types + TypesIn(f, symbols[..i + 1]) == types + TypesIn(f, symbols[..i]) + [TypeEntry(space, name, s.id)];
      ix := ix.(namespaces := ix.namespaces + {space}, byFqn := if name in ix.byFqn then ix.byFqn else ix.byFqn[name := s.id]);
    }
    assert symbols[..|symbols|] == symbols;
    ghost var allTypes := types + TypesIn(f, symbols);
    for i := 0 to |symbols|
      invariant Indexes(allTypes, members + MembersIn(f, symbols[..i]), ix) && ix.bases == before.bases
    {
      var s := symbols[i];
      assert symbols[..i + 1][..i] == symbols[..i];
      var owner := OwnerOf(s.id);
      if !IsMember(s) || owner.None? {
        assert members + MembersIn(f, symbols[..i + 1]) == members + MembersIn(f, symbols[..i]);
        continue;
      }
      var e := MemberEntry(FqnOf(f, owner.value), s.name, s.id);
      OneMoreMember(allTypes, members + MembersIn(f, symbols[..i]), ix, e);
      assert members + MembersIn(f, symbols[..i + 1]) == members + MembersIn(f, symbols[..i]) + [e];
      ix := ix.(members := WithMember(ix.members, e));
    }
  }

  method BuildIndex(files: seq<FileIr>, facts: Facts) returns (ix: Index)
    ensures Indexes(Types(files, facts), Members(files, facts), ix) && ix.bases == map[]
  {
    ix := Index(map[], map[], map[], {});
    for i := 0 to |files|
      invariant Indexes(Types(files[..i], facts), Members(files[..i], facts), ix) && ix.bases == map[]
    {
      hide Indexes, TypesIn, MembersIn;
      assert files[..i + 1][..i] == files[..i];
      ghost var types, members := Types(files[..i], facts), Members(files[..i], facts);
      if files[i].file in facts {
        ix := IndexFile(facts[files[i].file], files[i].symbols, ix, types, members);
      } else {
        assert types + [] == types && members + [] == members;
      }
    }
    assert files[..|files|] == files;
  }

  // ── bases ───────────────────────────────────────────────────

  /** The full name of the type an id is of, the last symbol of that id deciding. */
  function TypeNamed(f: FileFacts, symbols: seq<Symbol>, id: SymbolId): Option<string> {
    if |symbols| == 0 then None
    else
      var s := symbols[|symbols| - 1];
      if IsType(s) && s.id == id then Some(FqnOf(f, s.name)) else TypeNamed(f, symbols[..|symbols| - 1], id)
  }

  /** A reference that says one type derives from another, its base named as the file
      that declares it understands the name. */
  ghost predicate Derives(ir: FileIr, f: FileFacts, ix: Index, rel: Relationship, t: string, base: string) {
    && rel.kind.Implements? && ParseLocalType(rel.to).Some?
    && TypeNamed(f, ir.symbols, rel.from) == Some(t) && Means(f, ix, ParseLocalType(rel.to).value, Some(base))
  }

  ghost predicate DerivesAmong(
    ir: FileIr, f: FileFacts, ix: Index, rels: seq<Relationship>, t: string, base: string)
  {
    exists r :: r in rels && Derives(ir, f, ix, r, t, base)
  }

  ghost predicate DerivesIn(files: seq<FileIr>, facts: Facts, ix: Index, t: string, base: string) {
    exists ir :: ir in files && ir.file in facts && DerivesAmong(ir, facts[ir.file], ix, ir.relationships, t, base)
  }

  predicate HasBase(bases: map<string, seq<string>>, t: string, base: string) { t in bases && base in bases[t] }

  function WithBase(bases: map<string, seq<string>>, t: string, base: string): (r: map<string, seq<string>>)
    ensures forall x, b :: HasBase(r, x, b) <==> HasBase(bases, x, b) || (x == t && b == base)
  {
    bases[t := (if t in bases then bases[t] else []) + [base]]
  }

  /** What one reference adds. */
  method BaseOf(ir: FileIr, f: FileFacts, ix: Index, rel: Relationship, before: map<string, seq<string>>)
    returns (bases: map<string, seq<string>>)
    ensures forall t, b :: HasBase(bases, t, b) <==> HasBase(before, t, b) || Derives(ir, f, ix, rel, t, b)
  {
    hide Means, HasBase, WithBase;
    bases := before;
    if !rel.kind.Implements? { return; }
    var simple := ParseLocalType(rel.to);
    var from := TypeNamed(f, ir.symbols, rel.from);
    if simple.None? || from.None? { return; }
    var target := ResolveFqn(simple.value, f, ix);
    forall b ensures Means(f, ix, simple.value, Some(b)) <==> target == Some(b) {
      if Means(f, ix, simple.value, Some(b)) { MeansOneThing(f, ix, simple.value, target, Some(b)); }
    }
    if target.Some? { bases := WithBase(bases, from.value, target.value); }
  }

  method BasesOfFile(ir: FileIr, f: FileFacts, ix: Index, before: map<string, seq<string>>)
    returns (bases: map<string, seq<string>>)
    ensures forall t, b :: HasBase(bases, t, b) <==> HasBase(before, t, b) || DerivesAmong(ir, f, ix, ir.relationships, t, b)
  {
    hide Derives, HasBase;
    bases := before;
    for i := 0 to |ir.relationships|
      invariant forall t, b :: HasBase(bases, t, b) <==>
        HasBase(before, t, b) || DerivesAmong(ir, f, ix, ir.relationships[..i], t, b)
    {
      var rel := ir.relationships[i];
      assert ir.relationships[..i + 1] == ir.relationships[..i] + [rel];
      bases := BaseOf(ir, f, ix, rel, bases);
    }
    assert ir.relationships[..|ir.relationships|] == ir.relationships;
  }

  method FillBases(files: seq<FileIr>, facts: Facts, ix: Index) returns (bases: map<string, seq<string>>)
    ensures forall t, b :: HasBase(bases, t, b) <==> DerivesIn(files, facts, ix, t, b)
  {
    hide DerivesAmong, HasBase;
    bases := map[];
    NoBases();
    for i := 0 to |files|
      invariant forall t, b :: HasBase(bases, t, b) <==> DerivesIn(files[..i], facts, ix, t, b)
    {
      assert files[..i + 1] == files[..i] + [files[i]];
      if files[i].file in facts { bases := BasesOfFile(files[i], facts[files[i].file], ix, bases); }
    }
    assert files[..|files|] == files;
  }

  lemma NoBases()
    ensures forall t, b :: !HasBase(map[], t, b)
  {
  }

  // ── the whole pass ──────────────────────────────────────────

  /** What becomes of one file. */
  ghost predicate FileResolved(ir: FileIr, facts: Facts, ix: Index, r: ResolvedFile) {
    if ir.file in facts then Resolves(facts[ir.file], ix, ir.relationships, r.relationships, r.unbound)
    else
      && r.relationships == Settled(ir.relationships) && |r.relationships| + r.unbound == |ir.relationships|
      && forall k :: k in r.relationships <==> k in ir.relationships && !IsPlaceholder(k.to)
  }

  /** The index the pass looks names up in: that of the files' symbols, with bases named
      before any base was known. */
  ghost predicate IsIndexOf(files: seq<FileIr>, facts: Facts, ix: Index) {
    && Indexes(Types(files, facts), Members(files, facts), ix)
    && forall t, b :: (t, b) in Bases(ix) <==> DerivesIn(files, facts, ix.(bases := map[]), t, b)
  }

  method Resolve(files: seq<FileIr>, facts: Facts) returns (resolved: seq<ResolvedFile>, ix: Index)
    ensures IsIndexOf(files, facts, ix) && |resolved| == |files|
    ensures forall i :: 0 <= i < |files| ==> FileResolved(files[i], facts, ix, resolved[i])
  {
    hide Resolves, Settled, Types, Members, Derives, Means, IsFirst, IsLast;
    ix := BuildIndex(files, facts);
    ghost var bare := ix;
    var bases := FillBases(files, facts, ix);
    ix := ix.(bases := bases);
    assert ix.(bases := map[]) == bare;
    forall t, b ensures (t, b) in Bases(ix) <==> HasBase(bases, t, b) { }
    assert forall t, m :: Declares(ix, t, m) == Declares(bare, t, m);
    resolved := [];
    hide DerivesIn, Bases, Indexes;
    for i := 0 to |files|
      invariant |resolved| == i && forall j :: 0 <= j < i ==> FileResolved(files[j], facts, ix, resolved[j])
    {
      if files[i].file in facts {
        var kept, unbound := ResolveFile(files[i].relationships, facts[files[i].file], ix);
        resolved := resolved + [ResolvedFile(kept, unbound)];
      } else {
        var kept, unbound := ResolveWithoutFacts(files[i].relationships);
        resolved := resolved + [ResolvedFile(kept, unbound)];
      }
    }
  }

  /** No type and no member has an id that begins like a placeholder. */
  ghost predicate IdsAreResolved(files: seq<FileIr>) {
    forall f, s :: f in files && s in f.symbols && (IsType(s) || IsMember(s)) ==> !IsPlaceholder(s.id)
  }

  lemma {:induction false} EntriesAreResolved(f: FileFacts, symbols: seq<Symbol>)
    requires forall s :: s in symbols && (IsType(s) || IsMember(s)) ==> !IsPlaceholder(s.id)
    ensures forall e :: e in TypesIn(f, symbols) ==> !IsPlaceholder(e.id)
    ensures forall e :: e in MembersIn(f, symbols) ==> !IsPlaceholder(e.id)
  {
    hide IsPlaceholder, IsType, IsMember, OwnerOf;
    if |symbols| > 0 {
      var n := |symbols| - 1;
      assert symbols == symbols[..n] + [symbols[n]];
      EntriesAreResolved(f, symbols[..n]);
    }
  }

  lemma {:induction false} AllEntriesAreResolved(files: seq<FileIr>, facts: Facts)
    requires IdsAreResolved(files)
    ensures forall e :: e in Types(files, facts) ==> !IsPlaceholder(e.id)
    ensures forall e :: e in Members(files, facts) ==> !IsPlaceholder(e.id)
  {
    if |files| > 0 {
      hide IsPlaceholder, IsType, IsMember, TypesIn, MembersIn;
      var n := |files| - 1;
      assert files == files[..n] + [files[n]];
      AllEntriesAreResolved(files[..n], facts);
      assert files[n] in files;
      if files[n].file in facts { EntriesAreResolved(facts[files[n].file], files[n].symbols); }
    }
  }

  lemma FirstIsEntry(types: seq<TypeEntry>, n: string, id: SymbolId)
    requires IsFirst(types, n, id) && forall e :: e in types ==> !IsPlaceholder(e.id)
    ensures !IsPlaceholder(id)
  {
    hide IsPlaceholder;
  }

  lemma LastIsEntry(members: seq<MemberEntry>, owner: string, name: string, id: SymbolId)
    requires IsLast(members, owner, name, id) && forall e :: e in members ==> !IsPlaceholder(e.id)
    ensures !IsPlaceholder(id)
  {
    hide IsPlaceholder;
  }

  /** The index of symbols with proper ids names nothing by a placeholder. */
  lemma IndexOfResolved(files: seq<FileIr>, facts: Facts, ix: Index)
    requires IdsAreResolved(files) && IsIndexOf(files, facts, ix)
    ensures IndexIsResolved(ix)
  {
    hide IsPlaceholder, Types, Members, DerivesIn, Bases, IdsAreResolved, IsFirst, IsLast;
    AllEntriesAreResolved(files, facts);
    forall n | n in ix.byFqn ensures !IsPlaceholder(ix.byFqn[n]) {
      FirstIsEntry(Types(files, facts), n, ix.byFqn[n]);
    }
    forall t, m | Declares(ix, t, m) ensures !IsPlaceholder(ix.members[t][m]) {
      LastIsEntry(Members(files, facts), t, m, ix.members[t][m]);
    }
  }

  /** After the pass no placeholder is left in any file, and nothing but targets was
      changed. */
  lemma PassLeavesNoPlaceholder(files: seq<FileIr>, facts: Facts, ix: Index, i: nat, r: ResolvedFile)
    requires IdsAreResolved(files) && IsIndexOf(files, facts, ix)
    requires i < |files| && FileResolved(files[i], facts, ix, r)
    ensures forall k :: k in r.relationships ==> IsBoundForm(files[i].relationships, k)
  {
    IndexOfResolved(files, facts, ix);
    hide Resolves, Settled, IsIndexOf, IndexIsResolved, IsPlaceholder, IdsAreResolved;
    var ir := files[i];
    if ir.file in facts {
      NoPlaceholderSurvives(facts[ir.file], ix, ir.relationships, r.relationships, r.unbound);
    } else {
      forall k | k in r.relationships ensures IsBoundForm(ir.relationships, k) { assert k == k.(to := k.to); }
    }
  }

  // ── ids that begin like a placeholder ───────────────────────

  /** A file that declares nothing and has at most one `using static`. */
  function Bystander(staticUsings: seq<string>): FileFacts { FileFacts([], [], staticUsings, []) }

  function ReferenceTo(id: SymbolId): Relationship {
    Relationship("a", id, Calls, None, [], "", "f", 1, Structural)
  }

  /** Whatever refers to it, nothing is resolved to a placeholder. */
  ghost predicate NeverYieldsPlaceholder(ix: Index) {
    forall f, rels, kept, unbound :: Resolves(f, ix, rels, kept, unbound) ==> forall k: Relationship :: k in kept ==> !IsPlaceholder(k.to)
  }

  /** To a bystander a name is a type of the global namespace or nothing. */
  lemma BystanderSees(ix: Index, paths: seq<string>, name: string, r: Option<string>)
    ensures Means(Bystander(paths), ix, name, r) <==> r == if name in ix.byFqn then Some(name) else None
  {
    var f := Bystander(paths);
    assert Scopes(f) == {} && Offering(ix, Scopes(f), name) == {};
    assert Offered(ix, f.usings, name) == {} && |Offered(ix, f.usings, name)| == 0;
  }

  lemma OneReference(f: FileFacts, ix: Index, rel: Relationship, to: SymbolId)
    requires Binds(f, ix, rel, to) && !IsOwnUsing(rel, ix) && !IsMalformed(rel)
    ensures Resolves(f, ix, [rel], [rel.(to := to)], 0)
  {
    hide Binds, IsOwnUsing, IsMalformed;
    var kept := [rel.(to := to)];
    assert [rel][..0] == [] && kept[..0] == [];
    assert Resolves(f, ix, [], [], 0);
  }

  lemma TypeIsReached(ix: Index, name: string)
    requires name in ix.byFqn
    ensures var rel := ReferenceTo(LocalTypeId(name)); Resolves(Bystander([]), ix, [rel], [rel.(to := ix.byFqn[name])], 0)
  {
    var f, rel := Bystander([]), ReferenceTo(LocalTypeId(name));
    PlaceholdersRoundTrip(name, Import("", ""));
    BystanderSees(ix, [], name, Some(name));
    hide Means, IsPlaceholder, Bystander;
    assert Binds(f, ix, rel, ix.byFqn[name]);
    OneReference(f, ix, rel, ix.byFqn[name]);
  }

  lemma MemberIsNamed(ix: Index, owner: string, member: string)
    requires Declares(ix, owner, member)
    ensures NamesMember(Bystander([owner]), ix, owner, member, ix.members[owner][member])
  {
    var f, id := Bystander([owner]), ix.members[owner][member];
    MemberOfTells(ix, owner, member);
    OwnersTurn(f, ix, owner);
    StaticTurns(f, ix, owner, 0, 1, 2);
    forall t ensures Means(f, ix, owner, Some(t)) ==> t == owner { BystanderSees(ix, [owner], owner, Some(t)); }
    hide LookedIn, MemberOf, Means;
    if LookedIn(f, ix, owner, 0, owner) {
      assert FoundAt(f, ix, owner, member, 0, owner, id);
    } else {
      assert FoundAt(f, ix, owner, member, 1, owner, id);
    }
  }

  lemma MemberIsReached(ix: Index, owner: string, member: string)
    requires Declares(ix, owner, member) && '|' !in member
    ensures var rel := ReferenceTo(ImportId(Import(owner, member)));
      Resolves(Bystander([owner]), ix, [rel], [rel.(to := ix.members[owner][member])], 0)
  {
    var f, rel := Bystander([owner]), ReferenceTo(ImportId(Import(owner, member)));
    PlaceholdersRoundTrip("", Import(owner, member));
    MemberIsNamed(ix, owner, member);
    hide NamesMember, IsPlaceholder, Bystander, Declares;
    assert Binds(f, ix, rel, ix.members[owner][member]);
    OneReference(f, ix, rel, ix.members[owner][member]);
  }

  /** No placeholder survives, whatever the references, exactly when no symbol that can
      be asked for has an id that begins like one. An id begins with its file's path,
      and so it does for every symbol of a directory named `unresolved_imports`. */
  lemma NoPlaceholderExactly(ix: Index)
    ensures NeverYieldsPlaceholder(ix) <==> IndexIsResolved(ix)
  {
    hide Resolves, IsPlaceholder, Bystander, ImportId, LocalTypeId;
    if IndexIsResolved(ix) {
      forall f, rels, kept, unbound | Resolves(f, ix, rels, kept, unbound)
        ensures forall k: Relationship :: k in kept ==> !IsPlaceholder(k.to)
      {
        NoPlaceholderSurvives(f, ix, rels, kept, unbound);
      }
    }
    if NeverYieldsPlaceholder(ix) {
      forall n | n in ix.byFqn ensures !IsPlaceholder(ix.byFqn[n]) {
        TypeIsReached(ix, n);
        var rel := ReferenceTo(LocalTypeId(n));
        assert rel.(to := ix.byFqn[n]) in [rel.(to := ix.byFqn[n])];
      }
      forall t, m | Declares(ix, t, m) && '|' !in m ensures !IsPlaceholder(ix.members[t][m]) {
        MemberIsReached(ix, t, m);
        var rel := ReferenceTo(ImportId(Import(t, m)));
        assert rel.(to := ix.members[t][m]) in [rel.(to := ix.members[t][m])];
      }
    }
  }
}
