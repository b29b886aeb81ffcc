/** What C# names and references come to, told by the strings they are written as and the
    prefixes of the namespaces a file declares into (csharp/import_resolver.rs). */
module CSharpLaws {
  import opened Wrappers
  import opened Ir
  import opened Ordering
  import opened Placeholders
  import opened CSharp
  import CSharpIndex
  import Utf8

  // ── scopes ──────────────────────────────────────────────────

  /** The file declares something in this namespace, or in one nested in it. */
  ghost predicate Around(f: FileFacts, s: string) {
    exists d :: d in f.declared && (d.space == s || s + "." <= d.space)
  }

  lemma NotAfterTheLast(s: string, k: nat, c: char, last: Option<nat>)
    requires last == LastOf(s, c) && k < |s| && s[k] == c
    ensures last.Some? && k <= last.value
  {
    hide LastOf;
    assert forall i :: last.Some? && last.value < i < |s| ==> s[i] == s[last.value + 1..][i - last.value - 1];
  }

  lemma {:induction false} EnclosingArePrefixes(space: string, s: string)
    ensures s in Enclosing(space) <==> s + "." <= space
    decreases |space|
  {
    var cut := LastOf(space, '.');
    hide LastOf;
    if s + "." <= space {
      NotAfterTheLast(space, |s|, '.', cut);
      assert s == space[..|s|];
    }
    if cut.Some? {
      var parent := space[..cut.value];
      EnclosingArePrefixes(parent, s);
      if s == parent { assert s + "." == space[..cut.value + 1]; }
      if s + "." <= space && |s| < cut.value { assert s + "." == parent[..|s| + 1]; }
    }
  }

  lemma ScopesArePrefixes(f: FileFacts, s: string)
    ensures s in Scopes(f) <==> Around(f, s)
  {
    forall d | d in f.declared ensures s in Enclosing(d.space) <==> s + "." <= d.space {
      EnclosingArePrefixes(d.space, s);
    }
    hide Enclosing;
  }

  // ── what a name means ───────────────────────────────────────

  /** This is the full name of the type of this simple name in this namespace, and there
      is such a type. */
  predicate TypeIn(ix: Index, space: string, name: string, full: string) {
    full in ix.byFqn && full == if space == "" then name else space + "." + name
  }

  predicate Longer(a: string, b: string) {
    |Utf8.Encode(a)| > |Utf8.Encode(b)| || (|Utf8.Encode(a)| == |Utf8.Encode(b)| && CharsLe(a, b))
  }

  /** The type of a name in a namespace around the file, no longer one having one. */
  ghost predicate Innermost(f: FileFacts, ix: Index, name: string, full: string) {
    exists s :: Around(f, s) && TypeIn(ix, s, name, full)
      && forall t, other :: Around(f, t) && TypeIn(ix, t, name, other) ==> Longer(s, t)
  }

  ghost predicate Enclosed(f: FileFacts, ix: Index, name: string) {
    exists s, full :: Around(f, s) && TypeIn(ix, s, name, full)
  }

  ghost predicate Used(f: FileFacts, ix: Index, name: string, full: string) {
    exists u :: u in f.usings && TypeIn(ix, u, name, full)
  }

  /** Some using offers this type, and none another of the name. */
  ghost predicate OnlyUsed(f: FileFacts, ix: Index, name: string, full: string) {
    Used(f, ix, name, full) && forall other :: Used(f, ix, name, other) ==> other == full
  }

  lemma TypeInTells(ix: Index, space: string, name: string, full: string)
    ensures TypeIn(ix, space, name, full) <==> full == Fqn(space, name) && Fqn(space, name) in ix.byFqn
  {
  }

  lemma LongerIsNearer(a: string, b: string)
    ensures Longer(a, b) <==> Nearer(a, b)
  {
    LastCompares(a, b);
    hide CharsLe, Le;
  }

  lemma OfferingTells(f: FileFacts, ix: Index, name: string, s: string)
    ensures s in Offering(ix, Scopes(f), name) <==> exists full :: Around(f, s) && TypeIn(ix, s, name, full)
  {
    ScopesArePrefixes(f, s);
    TypeInTells(ix, s, name, Fqn(s, name));
    hide Scopes, Around, Fqn, TypeIn;
    forall full ensures TypeIn(ix, s, name, full) <==> full == Fqn(s, name) && Fqn(s, name) in ix.byFqn {
      TypeInTells(ix, s, name, full);
    }
  }

  lemma OfferedTells(f: FileFacts, ix: Index, name: string, full: string)
    ensures full in Offered(ix, f.usings, name) <==> Used(f, ix, name, full)
  {
    forall u ensures TypeIn(ix, u, name, full) <==> full == Fqn(u, name) && Fqn(u, name) in ix.byFqn {
      TypeInTells(ix, u, name, full);
    }
    hide Fqn, TypeIn;
  }

  /** The first alias of a name decides it, whatever else has the name. */
  lemma FirstAliasDecides(f: FileFacts, ix: Index, name: string, i: nat, r: Option<string>)
    requires Means(f, ix, name, r) && i < |f.aliases| && f.aliases[i].name == name
    requires forall j :: 0 <= j < i ==> f.aliases[j].name != name
    ensures r == if f.aliases[i].target in ix.byFqn then Some(f.aliases[i].target) else None
  {
    AliasFound(f.aliases, name, i);
    hide FirstAlias;
  }

  lemma {:induction false} AliasFound(aliases: seq<Alias>, name: string, i: nat)
    requires i < |aliases| && aliases[i].name == name && forall j :: 0 <= j < i ==> aliases[j].name != name
    ensures FirstAlias(aliases, name) == Some(aliases[i].target)
  {
    if i > 0 {
      assert aliases[1..][i - 1] == aliases[i];
      forall j | 0 <= j < i - 1 ensures aliases[1..][j].name != name { assert aliases[1..][j] == aliases[j + 1]; }
      AliasFound(aliases[1..], name, i - 1);
    }
  }

  lemma {:induction false} NoAlias(aliases: seq<Alias>, name: string)
    requires forall a :: a in aliases ==> a.name != name
    ensures FirstAlias(aliases, name).None?
  {
    if |aliases| > 0 {
      assert aliases[0] in aliases;
      NoAlias(aliases[1..], name);
    }
  }

  /** With no alias in the way the innermost namespace around the file that has the type
      decides; where none has it, the one type that usings offer; where they offer none
      or several, the global namespace. */
  lemma NearestNamespaceDecides(f: FileFacts, ix: Index, name: string, r: Option<string>)
    requires Means(f, ix, name, r) && forall a :: a in f.aliases ==> a.name != name
    ensures Enclosed(f, ix, name) ==> r.Some? && Innermost(f, ix, name, r.value)
    ensures !Enclosed(f, ix, name) && (exists full :: OnlyUsed(f, ix, name, full)) ==>
      r.Some? && OnlyUsed(f, ix, name, r.value)
    ensures !Enclosed(f, ix, name) && (forall full :: !OnlyUsed(f, ix, name, full)) ==>
      r == if name in ix.byFqn then Some(name) else None
  {
    NoAlias(f.aliases, name);
    var near, offered := Offering(ix, Scopes(f), name), Offered(ix, f.usings, name);
    forall s ensures s in near <==> exists full :: Around(f, s) && TypeIn(ix, s, name, full) {
      OfferingTells(f, ix, name, s);
    }
    hide Around, TypeIn, Used;
    forall full ensures full in offered <==> Used(f, ix, name, full) { OfferedTells(f, ix, name, full); }
    if Enclosed(f, ix, name) {
      var s :| s in near;
      NearestIsInnermost(f, ix, name, near, r);
    } else {
      assert near == {};
      OneOffered(offered);
      hide Scopes, FirstAlias, Offering, Offered;
    }
  }

  lemma OneOffered(offered: set<string>)
    ensures |offered| == 1 <==> exists n :: n in offered && forall m :: m in offered ==> m == n
  {
    if |offered| == 1 {
      var n :| n in offered;
      assert |offered - {n}| == 0;
      assert offered - {n} == {};
      assert forall m :: m in offered ==> m == n || m in offered - {n};
    }
    if n :| n in offered && forall m :: m in offered ==> m == n { assert offered == {n}; }
  }

  lemma NearestIsInnermost(f: FileFacts, ix: Index, name: string, near: set<string>, r: Option<string>)
    requires forall s :: s in near <==> exists full :: Around(f, s) && TypeIn(ix, s, name, full)
    requires IsNearest(near, name, r)
    ensures r.Some? && Innermost(f, ix, name, r.value)
  {
    hide Around;
    var s :| s in near && r == Some(Fqn(s, name)) && forall t :: t in near ==> Nearer(s, t);
    forall full ensures TypeIn(ix, s, name, full) <==> full == Fqn(s, name) && Fqn(s, name) in ix.byFqn {
      TypeInTells(ix, s, name, full);
    }
    hide TypeIn, Fqn, Nearer, Longer;
    forall t, other | Around(f, t) && TypeIn(ix, t, name, other) ensures Longer(s, t) {
      assert t in near;
      LongerIsNearer(s, t);
    }
  }

  /** A path's simple name is what follows its last dot. */
  lemma SimpleNameFollows(space: string, name: string)
    requires '.' !in name
    ensures SimpleName(space + "." + name) == name && SimpleName(name) == name
  {
    var path := space + "." + name;
    var cut := LastOf(path, '.');
    assert path[|space|] == '.';
    NotAfterTheLast(path, |space|, '.', cut);
    assert forall k :: |space| < k < |path| ==> path[k] == name[k - |space| - 1];
    hide LastOf;
  }

  // ── what becomes of a reference ─────────────────────────────

  /** What is no placeholder stays as it is. */
  lemma SettledReference(f: FileFacts, ix: Index, rel: Relationship, to: SymbolId)
    requires !("unresolved_import" <= rel.to) && !("unresolved_local_type" <= rel.to)
    ensures Binds(f, ix, rel, to) <==> to == rel.to
    ensures !IsOwnUsing(rel, ix) && !IsMalformed(rel)
  {
    PlaceholdersRead(rel.to, "", Import("", ""));
    NoPrefixNoParse(rel.to);
    hide IsPlaceholder, ParseImport, ParseLocalType, NamesType, NamesMember;
  }

  /** A name is bound to the type it means. */
  lemma LocalReference(f: FileFacts, ix: Index, rel: Relationship, name: string, to: SymbolId)
    requires rel.to == "unresolved_local_type|" + name
    ensures Binds(f, ix, rel, to) <==> exists full :: Means(f, ix, name, Some(full)) && full in ix.byFqn && ix.byFqn[full] == to
    ensures !IsOwnUsing(rel, ix) && !IsMalformed(rel)
  {
    PlaceholdersRead(rel.to, name, Import("", ""));
    assert "unresolved_local_type" <= rel.to;
    hide IsPlaceholder, ParseImport, ParseLocalType, Means, NamesMember;
  }

  /** A using of a namespace is passed over where the repository declares it, and is an
      import of a package otherwise. */
  lemma NamespaceReference(f: FileFacts, ix: Index, rel: Relationship, space: string, to: SymbolId)
    requires rel.kind == Imports && rel.to == "unresolved_import|" + space + "|*"
    ensures IsOwnUsing(rel, ix) <==> space in ix.namespaces
    ensures space !in ix.namespaces ==> (Binds(f, ix, rel, to) <==> to == "ext::" + space + "::package")
    ensures !IsMalformed(rel)
  {
    IsNoLocal(rel.to, space, "*");
    PlaceholdersRead(rel.to, "", Import(space, "*"));
    hide IsPlaceholder, ParseImport, ParseLocalType, NamesType, NamesMember;
  }

  /** Any other import is bound to the member it names. */
  lemma MemberReference(f: FileFacts, ix: Index, rel: Relationship, owner: string, member: string, to: SymbolId)
    requires rel.to == "unresolved_import|" + owner + "|" + member && '|' !in member
    requires rel.kind != Imports || member != "*"
    ensures Binds(f, ix, rel, to) <==> NamesMember(f, ix, owner, member, to)
    ensures !IsOwnUsing(rel, ix) && !IsMalformed(rel)
  {
    IsNoLocal(rel.to, owner, member);
    PlaceholdersRead(rel.to, "", Import(owner, member));
    hide IsPlaceholder, ParseImport, ParseLocalType, NamesType, NamesMember;
  }

  lemma IsNoLocal(id: SymbolId, owner: string, member: string)
    requires id == "unresolved_import|" + owner + "|" + member
    ensures IsPlaceholder(id) && ParseLocalType(id).None?
  {
    assert id[11] == 'i' && "unresolved_local_type|"[11] == 'l';
    assert "unresolved_import" <= id;
  }

  /** And what reads as none of these is passed over. */
  lemma MalformedReference(rel: Relationship)
    ensures IsMalformed(rel) <==>
      && ("unresolved_import" <= rel.to || "unresolved_local_type" <= rel.to)
      && (forall name: string :: rel.to != "unresolved_local_type|" + name)
      && forall owner: string, member: string :: '|' !in member ==> rel.to != "unresolved_import|" + owner + "|" + member
  {
    PlaceholdersRead(rel.to, "", Import("", ""));
    forall name: string ensures ParseLocalType(rel.to) == Some(name) <==> rel.to == "unresolved_local_type|" + name {
      PlaceholdersRead(rel.to, name, Import("", ""));
    }
    forall owner: string, member: string
      ensures ParseImport(rel.to) == Some(Import(owner, member))
        <==> '|' !in member && rel.to == "unresolved_import|" + owner + "|" + member
    {
      PlaceholdersRead(rel.to, "", Import(owner, member));
    }
    hide ParseImport, ParseLocalType, IsPlaceholder;
    if ParseLocalType(rel.to).Some? {
      var name := ParseLocalType(rel.to).value;
      assert rel.to == "unresolved_local_type|" + name;
    }
    if ParseImport(rel.to).Some? {
      var i := ParseImport(rel.to).value;
      assert ParseImport(rel.to) == Some(Import(i.owner, i.symbol));
      assert rel.to == "unresolved_import|" + i.owner + "|" + i.symbol;
    }
  }

  // ── what the index holds ────────────────────────────────────

  /** The namespace of the last declaration of a name; none is the global one. */
  ghost predicate SpaceIs(declared: seq<Declared>, name: string, space: string) {
    if exists d :: d in declared && d.name == name
    then exists i: nat :: DeclaresLast(declared, name, i) && declared[i].space == space
    else space == ""
  }

  predicate DeclaresLast(declared: seq<Declared>, name: string, i: nat) {
    i < |declared| && declared[i].name == name && forall j :: i < j < |declared| ==> declared[j].name != name
  }

  lemma {:induction false} SpaceOfTells(declared: seq<Declared>, name: string)
    ensures SpaceIs(declared, name, CSharpIndex.SpaceOf(declared, name))
  {
    if |declared| > 0 {
      var n := |declared| - 1;
      assert declared == declared[..n] + [declared[n]];
      if declared[n].name == name {
        assert DeclaresLast(declared, name, n);
      } else {
        SpaceOfTells(declared[..n], name);
        var space := CSharpIndex.SpaceOf(declared[..n], name);
        if i: nat :| DeclaresLast(declared[..n], name, i) && declared[..n][i].space == space {
          assert DeclaresLast(declared, name, i) && declared[i].space == space;
        }
      }
    }
  }

  lemma OneSpace(declared: seq<Declared>, name: string, a: string, b: string)
    requires SpaceIs(declared, name, a) && SpaceIs(declared, name, b)
    ensures a == b
  {
  }

  /** The full name of a type of this simple name, as the file declares it. */
  ghost predicate FullName(f: FileFacts, name: string, full: string) {
    exists space :: SpaceIs(f.declared, name, space) && full == if space == "" then name else space + "." + name
  }

  lemma FqnOfTells(f: FileFacts, name: string, full: string)
    ensures CSharpIndex.FqnOf(f, name) == full <==> FullName(f, name, full)
  {
    SpaceOfTells(f.declared, name);
    var space := CSharpIndex.SpaceOf(f.declared, name);
    forall other | SpaceIs(f.declared, name, other) ensures other == space { OneSpace(f.declared, name, other, space); }
    hide SpaceIs, CSharpIndex.SpaceOf;
  }

  ghost predicate IsTypeEntry(f: FileFacts, s: Symbol, e: CSharpIndex.TypeEntry) {
    && (s.kind == Class || s.kind == Interface || s.kind == Enum)
    && SpaceIs(f.declared, s.name, e.space) && FullName(f, s.name, e.fqn) && e.id == s.id
  }

  lemma TypeEntryTells(f: FileFacts, s: Symbol, e: CSharpIndex.TypeEntry)
    ensures var made := CSharpIndex.TypeEntry(CSharpIndex.SpaceOf(f.declared, s.name), CSharpIndex.FqnOf(f, s.name), s.id);
      IsTypeEntry(f, s, e) <==> CSharpIndex.IsType(s) && e == made
  {
    SpaceOfTells(f.declared, s.name);
    FqnOfTells(f, s.name, e.fqn);
    if SpaceIs(f.declared, s.name, e.space) {
      OneSpace(f.declared, s.name, e.space, CSharpIndex.SpaceOf(f.declared, s.name));
    }
    hide SpaceIs, FullName, CSharpIndex.SpaceOf, CSharpIndex.FqnOf;
  }

  /** Classes, interfaces and enums are indexed as types, and nothing else is. */
  lemma {:induction false} TypesAreIndexed(f: FileFacts, symbols: seq<Symbol>, e: CSharpIndex.TypeEntry)
    ensures e in CSharpIndex.TypesIn(f, symbols) <==> exists s :: s in symbols && IsTypeEntry(f, s, e)
  {
    if |symbols| > 0 {
      var n := |symbols| - 1;
      assert symbols == symbols[..n] + [symbols[n]];
      TypesAreIndexed(f, symbols[..n], e);
      TypeEntryTells(f, symbols[n], e);
      hide IsTypeEntry, CSharpIndex.IsType, CSharpIndex.SpaceOf, CSharpIndex.FqnOf;
    }
  }

  lemma {:induction false} FirstSeparatorAt(a: string, rest: string)
    requires ':' !in a
    ensures CSharpIndex.FirstSeparator(a + "::" + rest) == Some(|a|)
  {
    var s := a + "::" + rest;
    if |a| == 0 {
      assert s[..2] == "::";
    } else {
      assert s[0] == a[0] && s[..2] != "::";
      assert s[1..] == a[1..] + "::" + rest;
      FirstSeparatorAt(a[1..], rest);
    }
  }

  lemma {:induction false} LastSeparatorAt(a: string, b: string)
    requires ':' !in b
    ensures CSharpIndex.LastSeparator(a + "::" + b) == Some(|a|)
  {
    var s := a + "::" + b;
    if |b| == 0 {
      assert s[|s| - 2..] == "::";
    } else {
      assert s[|s| - 1] == b[|b| - 1] && s[|s| - 2..][1] != ':';
      assert s[..|s| - 1] == a + "::" + b[..|b| - 1];
      LastSeparatorAt(a, b[..|b| - 1]);
    }
  }

  lemma NameIsBetween(file: string, name: string, kind: string)
    requires ':' !in file && ':' !in kind
    ensures CSharpIndex.NameOf(file + "::" + name + "::" + kind) == Some(name)
  {
    var id := file + "::" + name + "::" + kind;
    assert id == file + "::" + (name + "::" + kind) && id == (file + "::" + name) + "::" + kind;
    FirstSeparatorAt(file, name + "::" + kind);
    LastSeparatorAt(file + "::" + name, kind);
    assert id[|file| + 2..|file| + 2 + |name|] == name;
    hide CSharpIndex.FirstSeparator, CSharpIndex.LastSeparator;
  }

  /** A member's id names its owner before its own name. */
  lemma OwnerIsFirst(file: string, owner: string, member: string, kind: string)
    requires ':' !in file && ':' !in owner && ':' !in kind
    ensures CSharpIndex.OwnerOf(file + "::" + owner + "::" + member + "::" + kind) == Some(owner)
  {
    var name := owner + "::" + member;
    assert file + "::" + owner + "::" + member + "::" + kind == file + "::" + name + "::" + kind;
    NameIsBetween(file, name, kind);
    FirstSeparatorAt(owner, member);
    assert name[..|owner|] == owner;
    hide CSharpIndex.NameOf, CSharpIndex.FirstSeparator;
  }

  lemma {:induction false} NoSeparator(s: string)
    requires ':' !in s
    ensures CSharpIndex.FirstSeparator(s).None?
  {
    if |s| >= 2 {
      assert s[..2][0] == s[0];
      NoSeparator(s[1..]);
    }
  }

  /** And one that names no owner has none. */
  lemma NameAloneHasNoOwner(file: string, name: string, kind: string)
    requires ':' !in file && ':' !in name && ':' !in kind
    ensures CSharpIndex.OwnerOf(file + "::" + name + "::" + kind).None?
  {
    NameIsBetween(file, name, kind);
    NoSeparator(name);
    hide CSharpIndex.NameOf, CSharpIndex.FirstSeparator;
  }

  /** A method or property, under the full name of the type its id names. */
  ghost predicate IsMemberEntry(f: FileFacts, s: Symbol, e: CSharpIndex.MemberEntry) {
    && (s.kind == Method || s.kind == Property) && CSharpIndex.OwnerOf(s.id).Some?
    && FullName(f, CSharpIndex.OwnerOf(s.id).value, e.owner) && e.name == s.name && e.id == s.id
  }

  lemma {:induction false} MembersAreIndexed(f: FileFacts, symbols: seq<Symbol>, e: CSharpIndex.MemberEntry)
    ensures e in CSharpIndex.MembersIn(f, symbols) <==> exists s :: s in symbols && IsMemberEntry(f, s, e)
  {
    hide CSharpIndex.OwnerOf;
    if |symbols| > 0 {
      var n := |symbols| - 1;
      assert symbols == symbols[..n] + [symbols[n]];
      MembersAreIndexed(f, symbols[..n], e);
      MemberEntryTells(f, symbols[n], e);
      hide IsMemberEntry, CSharpIndex.IsMember, CSharpIndex.FqnOf;
    }
  }

  lemma MemberEntryTells(f: FileFacts, s: Symbol, e: CSharpIndex.MemberEntry)
    ensures IsMemberEntry(f, s, e) <==>
      && CSharpIndex.IsMember(s) && CSharpIndex.OwnerOf(s.id).Some?
      && e == CSharpIndex.MemberEntry(CSharpIndex.FqnOf(f, CSharpIndex.OwnerOf(s.id).value), s.name, s.id)
  {
    hide CSharpIndex.OwnerOf;
    if CSharpIndex.OwnerOf(s.id).Some? { FqnOfTells(f, CSharpIndex.OwnerOf(s.id).value, e.owner); }
    hide FullName, CSharpIndex.FqnOf;
  }

  /** The last type of an id gives the full name that references from it start at. */
  ghost predicate IsNamed(f: FileFacts, symbols: seq<Symbol>, id: SymbolId, full: string) {
    exists i: nat :: IsLastType(symbols, id, i) && FullName(f, symbols[i].name, full)
  }

  predicate IsTypeOf(s: Symbol, id: SymbolId) {
    (s.kind == Class || s.kind == Interface || s.kind == Enum) && s.id == id
  }

  predicate IsLastType(symbols: seq<Symbol>, id: SymbolId, i: nat) {
    i < |symbols| && IsTypeOf(symbols[i], id) && forall j :: i < j < |symbols| ==> !IsTypeOf(symbols[j], id)
  }

  lemma {:induction false} TypeNamedTells(f: FileFacts, symbols: seq<Symbol>, id: SymbolId, full: string)
    ensures CSharpIndex.TypeNamed(f, symbols, id) == Some(full) <==> IsNamed(f, symbols, id, full)
  {
    if |symbols| > 0 {
      var n := |symbols| - 1;
      TypeNamedTells(f, symbols[..n], id, full);
      FqnOfTells(f, symbols[n].name, full);
      assert IsTypeOf(symbols[n], id) <==> CSharpIndex.IsType(symbols[n]) && symbols[n].id == id;
      hide FullName, CSharpIndex.FqnOf, IsTypeOf, CSharpIndex.IsType;
      if IsTypeOf(symbols[n], id) {
        assert IsLastType(symbols, id, n);
      } else {
        forall i: nat ensures IsLastType(symbols, id, i) <==> IsLastType(symbols[..n], id, i) {
          if i < n { assert symbols[i] == symbols[..n][i]; }
        }
      }
    }
  }
}
