/** What the snapshot format guarantees: nothing is lost, nothing truncated or
    padded is accepted, and every older layout still reads. */
module CodecLaws {
  import opened Wrappers
  import opened Bytes
  import opened Ir
  import opened Codec
  import Utf8

  // ── three laws every field keeps ────────────────────────────

  /** What was written comes back, whatever follows it. */
  ghost predicate RoundTrips<T(!new)>(read: Reader<T>, write: Writer<T>, fits: T -> bool) {
    forall x, k :: fits(x) ==> read(write(x, k)) == Parsed(x, k)
  }

  /** A successful parse does not look at what follows it. */
  ghost predicate Extends<T(!new)>(read: Reader<T>) {
    forall s, more :: read(s).Parsed? ==> read(s + more) == read(s).Then(more)
  }

  /** Whatever is read could have been written. */
  ghost predicate Yields<T(!new)>(read: Reader<T>, fits: T -> bool) {
    forall s :: read(s).Parsed? ==> fits(read(s).value)
  }

  // ── what fits ───────────────────────────────────────────────

  predicate FitsString(x: string) { |Utf8.Encode(x)| < LIMIT }
  predicate FitsOptional(x: Option<string>) { x.Some? ==> FitsString(x.value) }

  predicate FitsAll<T>(fits: T -> bool, xs: seq<T>) {
    |xs| < LIMIT && forall i :: 0 <= i < |xs| ==> fits(xs[i])
  }

  predicate FitsSymbol(x: Symbol) {
    FitsString(x.id) && FitsString(x.name) && FitsString(x.file) && FitsOptional(x.signature)
  }

  predicate FitsRelationship(version: nat, x: Relationship) {
    && FitsString(x.from) && FitsString(x.to) && FitsOptional(x.alias)
    && FitsAll(FitsString, x.properties) && FitsString(x.context) && FitsString(x.file)
    && (version < 3 ==> x.resolution.Structural?)
  }

  function RelationshipFits(version: nat): Relationship -> bool { x => FitsRelationship(version, x) }

  predicate FitsAlias(x: AliasEntry) { FitsString(x.aliasName) && FitsString(x.definedInFile) }
  predicate FitsChain(x: (string, seq<AliasEntry>)) { FitsString(x.0) && FitsAll(FitsAlias, x.1) }
  predicate FitsReExport(x: ReExportEntry) { FitsString(x.exportedName) && FitsString(x.sourceModule) }
  predicate FitsReExports(x: (string, seq<ReExportEntry>)) { FitsString(x.0) && FitsAll(FitsReExport, x.1) }
  predicate FitsCount(x: (string, u32)) { FitsString(x.0) }
  predicate FitsFlag(x: (string, bool)) { FitsString(x.0) }

  predicate FitsSection<T>(present: bool, fits: T -> bool, xs: seq<T>) {
    if present then FitsAll(fits, xs) else xs == []
  }

  /** A snapshot the layout of `version` can hold in full. */
  predicate Fits(version: byte, x: GraphSnapshot) {
    && FitsAll(FitsSymbol, x.symbols)
    && FitsAll(RelationshipFits(version), x.relationships)
    && FitsAll(FitsChain, x.aliasChains)
    && FitsSection(version >= 2, FitsReExports, x.fileReexports)
    && FitsSection(version >= 4, FitsCount, x.assertions)
    && FitsSection(version >= 4, FitsFlag, x.assertionsCounted)
    && FitsSection(version >= 5, FitsCount, x.unboundReferences)
    && FitsSection(version >= 6, FitsCount, x.unboundOutside)
  }

  // ── primitives ──────────────────────────────────────────────

  lemma U32RoundTrip(n: nat, k: seq<byte>)
    requires n < LIMIT
    ensures ReadU32(WriteU32(n, k)) == Parsed(n, k)
  {
    var s := WriteU32(n, k);
    var q := n / 256;
    var r := q / 256;
    assert n == 256 * q + s[0] as int;
    assert q == 256 * r + s[1] as int;
    assert r == 256 * (r / 256) + s[2] as int;
    assert r / 256 == s[3] as int;
    assert s[4..] == k;
  }

  lemma U32Extends(s: seq<byte>, more: seq<byte>)
    ensures ReadU32(s).Parsed? ==> ReadU32(s + more) == ReadU32(s).Then(more)
  {
    if |s| >= 4 { assert (s + more)[4..] == s[4..] + more; }
  }

  lemma U8Extend(s: seq<byte>, more: seq<byte>)
    requires ReadU8(s).Parsed?
    ensures ReadU8(s + more) == ReadU8(s).Then(more)
  {
    assert (s + more)[1..] == s[1..] + more;
  }

  lemma U8Extends()
    ensures Extends(ReadU8)
  {
    forall s, more | ReadU8(s).Parsed? ensures ReadU8(s + more) == ReadU8(s).Then(more) { U8Extend(s, more); }
  }

  lemma U32RoundTrips()
    ensures forall n: nat, k :: n < LIMIT ==> ReadU32(WriteU32(n, k)) == Parsed(n, k)
  {
    forall n: nat, k | n < LIMIT ensures ReadU32(WriteU32(n, k)) == Parsed(n, k) { U32RoundTrip(n, k); }
  }

  lemma U32ExtendsAll()
    ensures Extends(ReadU32)
  {
    forall s, more | ReadU32(s).Parsed? ensures ReadU32(s + more) == ReadU32(s).Then(more) { U32Extends(s, more); }
  }

  lemma StringRoundTrip(x: string, k: seq<byte>)
    requires FitsString(x)
    ensures ReadString(WriteString(x, k)) == Parsed(x, k)
  {
    var e := Utf8.Encode(x);
    U32RoundTrip(|e|, e + k);
    Utf8.RoundTrip(x);
    assert (e + k)[..|e|] == e && (e + k)[|e|..] == k;
  }

  lemma StringExtend(s: seq<byte>, more: seq<byte>)
    requires ReadString(s).Parsed?
    ensures ReadString(s + more) == ReadString(s).Then(more)
  {
    U32Extends(s, more);
    var n, t := ReadU32(s).value, ReadU32(s).rest;
    assert (t + more)[..n] == t[..n] && (t + more)[n..] == t[n..] + more;
  }

  lemma StringYield(s: seq<byte>)
    requires ReadString(s).Parsed?
    ensures FitsString(ReadString(s).value)
  {
    var n, t := ReadU32(s).value, ReadU32(s).rest;
    Utf8.Canonical(t[..n]);
  }

  lemma StringRoundTrips()
    ensures RoundTrips(ReadString, WriteString, FitsString)
  {
    forall x, k | FitsString(x) ensures ReadString(WriteString(x, k)) == Parsed(x, k) { StringRoundTrip(x, k); }
  }

  lemma StringExtends()
    ensures Extends(ReadString)
  {
    forall s, more | ReadString(s).Parsed? ensures ReadString(s + more) == ReadString(s).Then(more) {
      StringExtend(s, more);
    }
  }

  lemma StringYields()
    ensures Yields(ReadString, FitsString)
  {
    forall s | ReadString(s).Parsed? ensures FitsString(ReadString(s).value) { StringYield(s); }
  }

  lemma OptionalRoundTrip(x: Option<string>, k: seq<byte>)
    requires FitsOptional(x)
    ensures ReadOptional(WriteOptional(x, k)) == Parsed(x, k)
  {
    if x.Some? { StringRoundTrip(x.value, k); }
  }

  lemma OptionalExtend(s: seq<byte>, more: seq<byte>)
    requires ReadOptional(s).Parsed?
    ensures ReadOptional(s + more) == ReadOptional(s).Then(more)
  {
    assert (s + more)[1..] == s[1..] + more;
    if s[0] != 0 { StringExtend(s[1..], more); }
  }

  lemma OptionalYield(s: seq<byte>)
    requires ReadOptional(s).Parsed?
    ensures FitsOptional(ReadOptional(s).value)
  {
    if s[0] != 0 { StringYield(s[1..]); }
  }

  lemma CodeRoundTrip<T>(table: byte -> Option<T>, x: T, b: byte, k: seq<byte>)
    requires table(b) == Some(x)
    ensures ReadCode(table, WriteU8(b, k)) == Parsed(x, k)
  {
  }

  lemma KindTable(x: SymbolKind)
    ensures KindOf(KindCode(x)) == Some(x)
  {
    match x { case Class => case Interface => case TypeAlias => case Function => case Method => case Property =>
              case Variable => case Module => case Enum => case EnumVariant => case ExternalPackage => }
  }

  lemma LanguageTable(x: Language)
    ensures LanguageOf(LanguageCode(x)) == Some(x)
  {
    match x { case TypeScript => case JavaScript => case Python => case Rust => case Go => case Java => case C =>
              case Cpp => case Ruby => case Php => case CSharp => case Kotlin => case Swift => case Sql => case Lua => }
  }

  lemma RelationshipTable(x: RelationshipKind)
    ensures RelationshipOf(RelationshipCode(x)) == Some(x)
  {
    match x { case Imports => case Calls => case Extends => case Implements => case UsesType =>
              case AccessesProperty => case ReExports => case Instantiates => case Tests => }
  }

  lemma CodeExtends<T>(table: byte -> Option<T>, s: seq<byte>, more: seq<byte>)
    ensures ReadCode(table, s).Parsed? ==> ReadCode(table, s + more) == ReadCode(table, s).Then(more)
  {
    if |s| > 0 { assert (s + more)[1..] == s[1..] + more; }
  }

  lemma ScopeRoundTrips()
    ensures forall x: AliasScope, k :: ReadCode(ScopeOf, WriteU8(ScopeCode(x), k)) == Parsed(x, k)
  {
    forall x: AliasScope, k ensures ReadCode(ScopeOf, WriteU8(ScopeCode(x), k)) == Parsed(x, k) {
      CodeRoundTrip(ScopeOf, x, ScopeCode(x), k);
    }
  }

  lemma ScopeExtends()
    ensures forall s, more :: ReadCode(ScopeOf, s).Parsed? ==> ReadCode(ScopeOf, s + more) == ReadCode(ScopeOf, s).Then(more)
  {
    forall s, more | ReadCode(ScopeOf, s).Parsed? ensures ReadCode(ScopeOf, s + more) == ReadCode(ScopeOf, s).Then(more) {
      CodeExtends(ScopeOf, s, more);
    }
  }

  lemma ResolutionExtend(version: nat, s: seq<byte>, more: seq<byte>)
    requires ReadResolution(version, s).Parsed?
    ensures ReadResolution(version, s + more) == ReadResolution(version, s).Then(more)
  {
    if version >= 3 { assert (s + more)[1..] == s[1..] + more; }
  }

  // ── lists ───────────────────────────────────────────────────

  lemma {:induction false} AllRoundTrips<T(!new)>(read: Reader<T>, write: Writer<T>, fits: T -> bool, xs: seq<T>, k: seq<byte>)
    requires RoundTrips(read, write, fits)
    requires forall i :: 0 <= i < |xs| ==> fits(xs[i])
    ensures ReadAll(read, |xs|, WriteAll(write, xs, k)) == Parsed(xs, k)
  {
    if |xs| > 0 {
      var rest := WriteAll(write, xs[1..], k);
      assert read(write(xs[0], rest)) == Parsed(xs[0], rest);
      AllRoundTrips(read, write, fits, xs[1..], k);
      assert [xs[0]] + xs[1..] == xs;
    }
  }

  lemma {:induction false} AllExtends<T(!new)>(read: Reader<T>, n: nat, s: seq<byte>, more: seq<byte>)
    requires Extends(read) && ReadAll(read, n, s).Parsed?
    ensures ReadAll(read, n, s + more) == ReadAll(read, n, s).Then(more)
  {
    if n > 0 {
      assert read(s + more) == read(s).Then(more);
      AllExtends(read, n - 1, read(s).rest, more);
    }
  }

  lemma {:induction false} AllYields<T(!new)>(read: Reader<T>, fits: T -> bool, n: nat, s: seq<byte>)
    requires Yields(read, fits) && ReadAll(read, n, s).Parsed?
    ensures |ReadAll(read, n, s).value| == n
    ensures forall i :: 0 <= i < n ==> fits(ReadAll(read, n, s).value[i])
  {
    if n > 0 {
      assert fits(read(s).value);
      AllYields(read, fits, n - 1, read(s).rest);
    }
  }

  lemma ListRoundTrips<T(!new)>(read: Reader<T>, write: Writer<T>, fits: T -> bool, xs: seq<T>, k: seq<byte>)
    requires RoundTrips(read, write, fits) && FitsAll(fits, xs)
    ensures ReadList(read, WriteList(write, xs, k)) == Parsed(xs, k)
  {
    U32RoundTrip(|xs|, WriteAll(write, xs, k));
    AllRoundTrips(read, write, fits, xs, k);
  }

  lemma ListExtends<T(!new)>(read: Reader<T>, s: seq<byte>, more: seq<byte>)
    requires Extends(read) && ReadList(read, s).Parsed?
    ensures ReadList(read, s + more) == ReadList(read, s).Then(more)
  {
    U32Extends(s, more);
    AllExtends(read, ReadU32(s).value, ReadU32(s).rest, more);
  }

  lemma ListYields<T(!new)>(read: Reader<T>, fits: T -> bool, s: seq<byte>)
    requires Yields(read, fits) && ReadList(read, s).Parsed?
    ensures FitsAll(fits, ReadList(read, s).value)
  {
    AllYields(read, fits, ReadU32(s).value, ReadU32(s).rest);
  }

  lemma ListsRoundTrip<T(!new)>(read: Reader<T>, write: Writer<T>, fits: T -> bool)
    requires RoundTrips(read, write, fits)
    ensures forall xs, k :: FitsAll(fits, xs) ==> ReadList(read, WriteList(write, xs, k)) == Parsed(xs, k)
  {
    forall xs, k | FitsAll(fits, xs) ensures ReadList(read, WriteList(write, xs, k)) == Parsed(xs, k) {
      ListRoundTrips(read, write, fits, xs, k);
    }
  }

  lemma ListsExtend<T(!new)>(read: Reader<T>)
    requires Extends(read)
    ensures forall s, more :: ReadList(read, s).Parsed? ==> ReadList(read, s + more) == ReadList(read, s).Then(more)
  {
    forall s, more | ReadList(read, s).Parsed? ensures ReadList(read, s + more) == ReadList(read, s).Then(more) {
      ListExtends(read, s, more);
    }
  }

  lemma ListsYield<T(!new)>(read: Reader<T>, fits: T -> bool)
    requires Yields(read, fits)
    ensures forall s :: ReadList(read, s).Parsed? ==> FitsAll(fits, ReadList(read, s).value)
  {
    forall s | ReadList(read, s).Parsed? ensures FitsAll(fits, ReadList(read, s).value) {
      ListYields(read, fits, s);
    }
  }

  // ── records ─────────────────────────────────────────────────

  lemma SymbolRoundTrip(x: Symbol, k: seq<byte>)
    requires FitsSymbol(x)
    ensures ReadSymbol(WriteSymbol(x, k)) == Parsed(x, k)
  {
    var k7 := WriteOptional(x.signature, k);
    var k6 := WriteU32(x.lineEnd, k7);
    var k5 := WriteU32(x.lineStart, k6);
    var k4 := WriteString(x.file, k5);
    var k3 := WriteU8(LanguageCode(x.language), k4);
    var k2 := WriteU8(KindCode(x.kind), k3);
    var k1 := WriteString(x.name, k2);
    StringRoundTrip(x.id, k1);
    StringRoundTrip(x.name, k2);
    KindTable(x.kind);
    CodeRoundTrip(KindOf, x.kind, KindCode(x.kind), k3);
    LanguageTable(x.language);
    CodeRoundTrip(LanguageOf, x.language, LanguageCode(x.language), k4);
    StringRoundTrip(x.file, k5);
    U32RoundTrip(x.lineStart, k6);
    U32RoundTrip(x.lineEnd, k7);
    OptionalRoundTrip(x.signature, k);
    SymbolParses(KindOf, LanguageOf, x, WriteSymbol(x, k), k1, k2, k3, k4, k5, k6, k7, k);
  }

  lemma SymbolParses(
    kinds: byte -> Option<SymbolKind>, languages: byte -> Option<Language>, x: Symbol,
    s: seq<byte>, k1: seq<byte>, k2: seq<byte>, k3: seq<byte>, k4: seq<byte>, k5: seq<byte>, k6: seq<byte>,
    k7: seq<byte>, k8: seq<byte>)
    requires ReadString(s) == Parsed(x.id, k1) && ReadString(k1) == Parsed(x.name, k2)
    requires ReadCode(kinds, k2) == Parsed(x.kind, k3) && ReadCode(languages, k3) == Parsed(x.language, k4)
    requires ReadString(k4) == Parsed(x.file, k5) && ReadU32(k5) == Parsed(x.lineStart, k6)
    requires ReadU32(k6) == Parsed(x.lineEnd, k7) && ReadOptional(k7) == Parsed(x.signature, k8)
    ensures ReadSymbolBy(kinds, languages, s) == Parsed(x, k8)
  {
  }

  lemma SymbolRoundTrips()
    ensures RoundTrips(ReadSymbol, WriteSymbol, FitsSymbol)
  {
    forall x, k | FitsSymbol(x) ensures ReadSymbol(WriteSymbol(x, k)) == Parsed(x, k) { SymbolRoundTrip(x, k); }
  }

  lemma SymbolExtend(kinds: byte -> Option<SymbolKind>, languages: byte -> Option<Language>, s: seq<byte>, more: seq<byte>)
    requires ReadSymbolBy(kinds, languages, s).Parsed?
    ensures ReadSymbolBy(kinds, languages, s + more) == ReadSymbolBy(kinds, languages, s).Then(more)
  {
    StringExtend(s, more);
    var s1 := ReadString(s).rest;
    StringExtend(s1, more);
    var s2 := ReadString(s1).rest;
    CodeExtends(kinds, s2, more);
    var s3 := ReadCode(kinds, s2).rest;
    CodeExtends(languages, s3, more);
    var s4 := ReadCode(languages, s3).rest;
    StringExtend(s4, more);
    var s5 := ReadString(s4).rest;
    U32Extends(s5, more);
    var s6 := ReadU32(s5).rest;
    U32Extends(s6, more);
    var s7 := ReadU32(s6).rest;
    OptionalExtend(s7, more);
  }

  lemma SymbolExtends()
    ensures Extends(ReadSymbol)
  {
    forall s, more | ReadSymbol(s).Parsed? ensures ReadSymbol(s + more) == ReadSymbol(s).Then(more) {
      SymbolExtend(KindOf, LanguageOf, s, more);
    }
  }

  lemma SymbolYield(kinds: byte -> Option<SymbolKind>, languages: byte -> Option<Language>, s: seq<byte>)
    requires ReadSymbolBy(kinds, languages, s).Parsed?
    ensures FitsSymbol(ReadSymbolBy(kinds, languages, s).value)
  {
    StringYield(s);
    var s1 := ReadString(s).rest;
    StringYield(s1);
    var s2 := ReadString(s1).rest;
    var s3 := ReadCode(kinds, s2).rest;
    var s4 := ReadCode(languages, s3).rest;
    StringYield(s4);
    var s5 := ReadString(s4).rest;
    var s6 := ReadU32(s5).rest;
    var s7 := ReadU32(s6).rest;
    OptionalYield(s7);
  }

  lemma SymbolYields()
    ensures Yields(ReadSymbol, FitsSymbol)
  {
    forall s | ReadSymbol(s).Parsed? ensures FitsSymbol(ReadSymbol(s).value) {
      SymbolYield(KindOf, LanguageOf, s);
    }
  }

  lemma RelationshipRoundTrip(version: nat, x: Relationship, k: seq<byte>)
    requires FitsRelationship(version, x)
    ensures ReadRelationship(version, WriteRelationship(version, x, k)) == Parsed(x, k)
  {
    var k8 := WriteResolution(version, x.resolution, k);
    var k7 := WriteU32(x.line, k8);
    var k6 := WriteString(x.file, k7);
    var k5 := WriteString(x.context, k6);
    var k4 := WriteList(WriteString, x.properties, k5);
    var k3 := WriteOptional(x.alias, k4);
    var k2 := WriteU8(RelationshipCode(x.kind), k3);
    var k1 := WriteString(x.to, k2);
    StringRoundTrip(x.from, k1);
    StringRoundTrip(x.to, k2);
    RelationshipTable(x.kind);
    CodeRoundTrip(RelationshipOf, x.kind, RelationshipCode(x.kind), k3);
    OptionalRoundTrip(x.alias, k4);
    StringRoundTrips();
    ListRoundTrips(ReadString, WriteString, FitsString, x.properties, k5);
    StringRoundTrip(x.context, k6);
    StringRoundTrip(x.file, k7);
    U32RoundTrip(x.line, k8);
    RelationshipParses(RelationshipOf, version, x, WriteRelationship(version, x, k), k1, k2, k3, k4, k5, k6, k7, k8, k);
  }

  lemma RelationshipParses(
    kinds: byte -> Option<RelationshipKind>, version: nat, x: Relationship,
    s: seq<byte>, k1: seq<byte>, k2: seq<byte>, k3: seq<byte>, k4: seq<byte>, k5: seq<byte>, k6: seq<byte>,
    k7: seq<byte>, k8: seq<byte>, k9: seq<byte>)
    requires ReadString(s) == Parsed(x.from, k1) && ReadString(k1) == Parsed(x.to, k2)
    requires ReadCode(kinds, k2) == Parsed(x.kind, k3) && ReadOptional(k3) == Parsed(x.alias, k4)
    requires ReadList(ReadString, k4) == Parsed(x.properties, k5) && ReadString(k5) == Parsed(x.context, k6)
    requires ReadString(k6) == Parsed(x.file, k7) && ReadU32(k7) == Parsed(x.line, k8)
    requires ReadResolution(version, k8) == Parsed(x.resolution, k9)
    ensures ReadRelationshipBy(kinds, version, s) == Parsed(x, k9)
  {
  }

  lemma RelationshipRoundTrips(version: nat)
    ensures RoundTrips(RelationshipReader(version), RelationshipWriter(version), RelationshipFits(version))
  {
    var fits := RelationshipFits(version);
    forall x, k | fits(x)
      ensures RelationshipReader(version)(RelationshipWriter(version)(x, k)) == Parsed(x, k)
    {
      RelationshipRoundTrip(version, x, k);
    }
  }

  lemma RelationshipExtend(kinds: byte -> Option<RelationshipKind>, version: nat, s: seq<byte>, more: seq<byte>)
    requires ReadRelationshipBy(kinds, version, s).Parsed?
    ensures ReadRelationshipBy(kinds, version, s + more) == ReadRelationshipBy(kinds, version, s).Then(more)
  {
    StringExtends();
    StringExtend(s, more);
    var s1 := ReadString(s).rest;
    StringExtend(s1, more);
    var s2 := ReadString(s1).rest;
    CodeExtends(kinds, s2, more);
    var s3 := ReadCode(kinds, s2).rest;
    OptionalExtend(s3, more);
    var s4 := ReadOptional(s3).rest;
    ListExtends(ReadString, s4, more);
    var s5 := ReadList(ReadString, s4).rest;
    StringExtend(s5, more);
    var s6 := ReadString(s5).rest;
    StringExtend(s6, more);
    var s7 := ReadString(s6).rest;
    U32Extends(s7, more);
    var s8 := ReadU32(s7).rest;
    ResolutionExtend(version, s8, more);
  }

  lemma RelationshipExtends(version: nat)
    ensures Extends(RelationshipReader(version))
  {
    var read := RelationshipReader(version);
    forall s, more | read(s).Parsed? ensures read(s + more) == read(s).Then(more) {
      RelationshipExtend(RelationshipOf, version, s, more);
    }
  }

  lemma RelationshipYield(kinds: byte -> Option<RelationshipKind>, version: nat, s: seq<byte>)
    requires ReadRelationshipBy(kinds, version, s).Parsed?
    ensures FitsRelationship(version, ReadRelationshipBy(kinds, version, s).value)
  {
    StringYields();
    StringYield(s);
    var s1 := ReadString(s).rest;
    StringYield(s1);
    var s2 := ReadString(s1).rest;
    var s3 := ReadCode(kinds, s2).rest;
    OptionalYield(s3);
    var s4 := ReadOptional(s3).rest;
    ListYields(ReadString, FitsString, s4);
    var s5 := ReadList(ReadString, s4).rest;
    StringYield(s5);
    var s6 := ReadString(s5).rest;
    StringYield(s6);
  }

  lemma RelationshipYields(version: nat)
    ensures Yields(RelationshipReader(version), RelationshipFits(version))
  {
    var read := RelationshipReader(version);
    forall s | read(s).Parsed? ensures RelationshipFits(version)(read(s).value) {
      RelationshipYield(RelationshipOf, version, s);
    }
  }

  lemma AliasRoundTrips()
    ensures RoundTrips(ReadAlias, WriteAlias, FitsAlias)
  {
    StringRoundTrips();
    ScopeRoundTrips();
  }

  lemma AliasExtends()
    ensures Extends(ReadAlias)
  {
    StringExtends();
    ScopeExtends();
  }

  lemma AliasYields()
    ensures Yields(ReadAlias, FitsAlias)
  {
    StringYields();
  }

  lemma ChainRoundTrips()
    ensures RoundTrips(ReadChain, WriteChain, FitsChain)
  {
    StringRoundTrips();
    AliasRoundTrips();
    ListsRoundTrip(ReadAlias, WriteAlias, FitsAlias);
  }

  lemma ChainExtends()
    ensures Extends(ReadChain)
  {
    StringExtends();
    AliasExtends();
    ListsExtend(ReadAlias);
  }

  lemma ChainYields()
    ensures Yields(ReadChain, FitsChain)
  {
    StringYields();
    AliasYields();
    ListsYield(ReadAlias, FitsAlias);
  }

  lemma ReExportRoundTrips()
    ensures RoundTrips(ReadReExport, WriteReExport, FitsReExport)
  {
    StringRoundTrips();
  }

  lemma ReExportExtends()
    ensures Extends(ReadReExport)
  {
    StringExtends();
  }

  lemma ReExportYields()
    ensures Yields(ReadReExport, FitsReExport)
  {
    StringYields();
  }

  lemma ReExportsRoundTrips()
    ensures RoundTrips(ReadReExports, WriteReExports, FitsReExports)
  {
    StringRoundTrips();
    ReExportRoundTrips();
    ListsRoundTrip(ReadReExport, WriteReExport, FitsReExport);
  }

  lemma ReExportsExtends()
    ensures Extends(ReadReExports)
  {
    StringExtends();
    ReExportExtends();
    ListsExtend(ReadReExport);
  }

  lemma ReExportsYields()
    ensures Yields(ReadReExports, FitsReExports)
  {
    StringYields();
    ReExportYields();
    ListsYield(ReadReExport, FitsReExport);
  }

  lemma CountRoundTrips()
    ensures RoundTrips(ReadCount, WriteCount, FitsCount)
  {
    StringRoundTrips();
    U32RoundTrips();
  }

  lemma CountExtends()
    ensures Extends(ReadCount)
  {
    StringExtends();
    U32ExtendsAll();
  }

  lemma CountYields()
    ensures Yields(ReadCount, FitsCount)
  {
    StringYields();
  }

  lemma FlagRoundTrips()
    ensures RoundTrips(ReadFlag, WriteFlag, FitsFlag)
  {
    StringRoundTrips();
  }

  lemma FlagExtends()
    ensures Extends(ReadFlag)
  {
    StringExtends();
    U8Extends();
  }

  lemma FlagYields()
    ensures Yields(ReadFlag, FitsFlag)
  {
    StringYields();
  }

  // ── the snapshot ────────────────────────────────────────────

  lemma SectionRoundTrips<T(!new)>(present: bool, read: Reader<T>, write: Writer<T>, fits: T -> bool, xs: seq<T>, k: seq<byte>)
    requires RoundTrips(read, write, fits) && FitsSection(present, fits, xs)
    ensures ReadSection(present, read, WriteSection(present, write, xs, k)) == Parsed(xs, k)
  {
    if present { ListRoundTrips(read, write, fits, xs, k); }
  }

  lemma SectionExtends<T(!new)>(present: bool, read: Reader<T>, s: seq<byte>, more: seq<byte>)
    requires Extends(read) && ReadSection(present, read, s).Parsed?
    ensures ReadSection(present, read, s + more) == ReadSection(present, read, s).Then(more)
  {
    if present { ListExtends(read, s, more); }
  }

  lemma SectionYields<T(!new)>(present: bool, read: Reader<T>, fits: T -> bool, s: seq<byte>)
    requires Yields(read, fits) && ReadSection(present, read, s).Parsed?
    ensures FitsSection(present, fits, ReadSection(present, read, s).value)
  {
    if present { ListYields(read, fits, s); }
  }

  lemma SectionsRoundTrip(version: byte, x: GraphSnapshot)
    requires Fits(version, x)
    ensures ReadSections(version, WriteSnapshot(version, x)[1..]) == Parsed(x, [])
  {
    var k8 := WriteSection(version >= 6, WriteCount, x.unboundOutside, []);
    var k7 := WriteSection(version >= 5, WriteCount, x.unboundReferences, k8);
    var k6 := WriteSection(version >= 4, WriteFlag, x.assertionsCounted, k7);
    var k5 := WriteSection(version >= 4, WriteCount, x.assertions, k6);
    var k4 := WriteSection(version >= 2, WriteReExports, x.fileReexports, k5);
    var k3 := WriteList(WriteChain, x.aliasChains, k4);
    var k2 := WriteList(RelationshipWriter(version), x.relationships, k3);
    var k1 := WriteList(WriteSymbol, x.symbols, k2);
    assert WriteSnapshot(version, x)[1..] == k1;
    SymbolRoundTrips();
    ListRoundTrips(ReadSymbol, WriteSymbol, FitsSymbol, x.symbols, k2);
    RelationshipRoundTrips(version);
    ListRoundTrips(RelationshipReader(version), RelationshipWriter(version), RelationshipFits(version), x.relationships, k3);
    ChainRoundTrips();
    ListRoundTrips(ReadChain, WriteChain, FitsChain, x.aliasChains, k4);
    ReExportsRoundTrips();
    SectionRoundTrips(version >= 2, ReadReExports, WriteReExports, FitsReExports, x.fileReexports, k5);
    CountRoundTrips();
    SectionRoundTrips(version >= 4, ReadCount, WriteCount, FitsCount, x.assertions, k6);
    FlagRoundTrips();
    SectionRoundTrips(version >= 4, ReadFlag, WriteFlag, FitsFlag, x.assertionsCounted, k7);
    SectionRoundTrips(version >= 5, ReadCount, WriteCount, FitsCount, x.unboundReferences, k8);
    SectionRoundTrips(version >= 6, ReadCount, WriteCount, FitsCount, x.unboundOutside, []);
  }

  lemma SectionsExtend(version: byte, s: seq<byte>, more: seq<byte>)
    requires ReadSections(version, s).Parsed?
    ensures ReadSections(version, s + more) == ReadSections(version, s).Then(more)
  {
    SymbolExtends();
    ListExtends(ReadSymbol, s, more);
    var s1 := ReadList(ReadSymbol, s).rest;
    RelationshipExtends(version);
    ListExtends(RelationshipReader(version), s1, more);
    var s2 := ReadList(RelationshipReader(version), s1).rest;
    ChainExtends();
    ListExtends(ReadChain, s2, more);
    var s3 := ReadList(ReadChain, s2).rest;
    ReExportsExtends();
    SectionExtends(version >= 2, ReadReExports, s3, more);
    var s4 := ReadSection(version >= 2, ReadReExports, s3).rest;
    CountExtends();
    SectionExtends(version >= 4, ReadCount, s4, more);
    var s5 := ReadSection(version >= 4, ReadCount, s4).rest;
    FlagExtends();
    SectionExtends(version >= 4, ReadFlag, s5, more);
    var s6 := ReadSection(version >= 4, ReadFlag, s5).rest;
    SectionExtends(version >= 5, ReadCount, s6, more);
    var s7 := ReadSection(version >= 5, ReadCount, s6).rest;
    SectionExtends(version >= 6, ReadCount, s7, more);
  }

  lemma SectionsYield(version: byte, s: seq<byte>)
    requires ReadSections(version, s).Parsed?
    ensures Fits(version, ReadSections(version, s).value)
  {
    SymbolYields();
    ListYields(ReadSymbol, FitsSymbol, s);
    var s1 := ReadList(ReadSymbol, s).rest;
    RelationshipYields(version);
    ListYields(RelationshipReader(version), RelationshipFits(version), s1);
    var s2 := ReadList(RelationshipReader(version), s1).rest;
    ChainYields();
    ListYields(ReadChain, FitsChain, s2);
    var s3 := ReadList(ReadChain, s2).rest;
    ReExportsYields();
    SectionYields(version >= 2, ReadReExports, FitsReExports, s3);
    var s4 := ReadSection(version >= 2, ReadReExports, s3).rest;
    CountYields();
    SectionYields(version >= 4, ReadCount, FitsCount, s4);
    var s5 := ReadSection(version >= 4, ReadCount, s4).rest;
    FlagYields();
    SectionYields(version >= 4, ReadFlag, FitsFlag, s5);
    var s6 := ReadSection(version >= 4, ReadFlag, s5).rest;
    SectionYields(version >= 5, ReadCount, FitsCount, s6);
    var s7 := ReadSection(version >= 5, ReadCount, s6).rest;
    SectionYields(version >= 6, ReadCount, FitsCount, s7);
  }

  /** What a version can hold comes back whole. */
  lemma SnapshotRoundTrip(version: byte, x: GraphSnapshot)
    requires 1 <= version <= SNAPSHOT_VERSION && Fits(version, x)
    ensures ReadSnapshot(WriteSnapshot(version, x)) == Some(x)
  {
    SectionsRoundTrip(version, x);
  }

  /** An accepted blob holds only what its version can hold: before version 3
      no edge is gate-safe, and a section a version lacks is empty. */
  lemma SnapshotYields(s: seq<byte>)
    requires ReadSnapshot(s).Some?
    ensures 1 <= s[0] <= SNAPSHOT_VERSION && Fits(s[0], ReadSnapshot(s).value)
    ensures Fits(SNAPSHOT_VERSION, ReadSnapshot(s).value)
  {
    SectionsYield(s[0], s[1..]);
    var x := ReadSnapshot(s).value;
    forall i | 0 <= i < |x.relationships| ensures RelationshipFits(SNAPSHOT_VERSION)(x.relationships[i]) {
      assert RelationshipFits(s[0])(x.relationships[i]);
    }
  }

  /** The current format is lossless on exactly the snapshots whose strings and
      lists all fit a 32-bit length. */
  lemma LosslessExactly(x: GraphSnapshot)
    ensures ReadSnapshot(WriteSnapshot(SNAPSHOT_VERSION, x)) == Some(x) <==> Fits(SNAPSHOT_VERSION, x)
  {
    if Fits(SNAPSHOT_VERSION, x) {
      SnapshotRoundTrip(SNAPSHOT_VERSION, x);
    } else if ReadSnapshot(WriteSnapshot(SNAPSHOT_VERSION, x)) == Some(x) {
      SnapshotYields(WriteSnapshot(SNAPSHOT_VERSION, x));
    }
  }

  /** No accepted blob begins another: a truncated snapshot and a padded one are
      both rejected. */
  lemma PrefixFree(s: seq<byte>, more: seq<byte>)
    requires ReadSnapshot(s).Some? && more != []
    ensures ReadSnapshot(s + more) == None
  {
    var v, t := s[0], s[1..];
    Finish(v, t, ReadSections(v, t));
    HeadAndTail(s, more);
    SectionsExtend(v, t, more);
    Finish(v, t + more, ReadSections(v, t).Then(more));
  }

  lemma HeadAndTail<T>(s: seq<T>, more: seq<T>)
    requires |s| > 0
    ensures [s[0]] + s[1..] == s && [s[0]] + (s[1..] + more) == s + more
  {
  }

  lemma Finish(version: byte, t: seq<byte>, r: Parsed<GraphSnapshot>)
    requires r == ReadSections(version, t)
    ensures ReadSnapshot([version] + t) ==
      if 1 <= version <= SNAPSHOT_VERSION && r.Parsed? && r.rest == [] then Some(r.value) else None
  {
    assert ([version] + t)[1..] == t;
  }

  lemma TruncatedIsRejected(version: byte, x: GraphSnapshot, n: nat)
    requires 1 <= version <= SNAPSHOT_VERSION && Fits(version, x) && n < |WriteSnapshot(version, x)|
    ensures ReadSnapshot(WriteSnapshot(version, x)[..n]) == None
  {
    var whole := WriteSnapshot(version, x);
    SnapshotRoundTrip(version, x);
    Split(whole, n);
    if ReadSnapshot(whole[..n]).Some? { PrefixFree(whole[..n], whole[n..]); }
  }

  lemma Split<T>(s: seq<T>, n: nat)
    requires n < |s|
    ensures s[..n] + s[n..] == s && s[n..] != []
  {
  }

  /** Rewriting what was read, at the current version, reads back the same. */
  lemma RewriteIsStable(s: seq<byte>)
    requires ReadSnapshot(s).Some?
    ensures ReadSnapshot(WriteSnapshot(SNAPSHOT_VERSION, ReadSnapshot(s).value)) == ReadSnapshot(s)
  {
    SnapshotYields(s);
    SnapshotRoundTrip(SNAPSHOT_VERSION, ReadSnapshot(s).value);
  }

  // ── older versions ──────────────────────────────────────────

  function AgedEdge(version: byte, r: Relationship): Relationship {
    if version >= 3 then r else r.(resolution := Structural)
  }

  function AgedEdges(version: byte, rs: seq<Relationship>): seq<Relationship> {
    if |rs| == 0 then [] else [AgedEdge(version, rs[0])] + AgedEdges(version, rs[1..])
  }

  /** What a snapshot keeps when only an older version's fields are stored. */
  function Aged(version: byte, x: GraphSnapshot): GraphSnapshot {
    GraphSnapshot(
      x.symbols, AgedEdges(version, x.relationships), x.aliasChains,
      if version >= 2 then x.fileReexports else [],
      if version >= 4 then x.assertions else [],
      if version >= 4 then x.assertionsCounted else [],
      if version >= 5 then x.unboundReferences else [],
      if version >= 6 then x.unboundOutside else [])
  }

  lemma {:induction false} AgedEdgesWriteTheSame(version: byte, rs: seq<Relationship>, k: seq<byte>)
    ensures WriteAll(RelationshipWriter(version), AgedEdges(version, rs), k)
         == WriteAll(RelationshipWriter(version), rs, k)
  {
    if |rs| > 0 { AgedEdgesWriteTheSame(version, rs[1..], k); }
  }

  lemma {:induction false} AgedEdgesFit(version: byte, rs: seq<Relationship>)
    requires forall i :: 0 <= i < |rs| ==> FitsRelationship(SNAPSHOT_VERSION, rs[i])
    ensures |AgedEdges(version, rs)| == |rs|
    ensures forall i :: 0 <= i < |rs| ==> FitsRelationship(version, AgedEdges(version, rs)[i])
  {
    if |rs| > 0 { AgedEdgesFit(version, rs[1..]); }
  }

  /** A snapshot stored in an older layout reads back with exactly the fields
      that layout has: missing sections empty, missing resolutions Structural. */
  lemma OldLayoutReads(version: byte, x: GraphSnapshot)
    requires 1 <= version <= SNAPSHOT_VERSION && Fits(SNAPSHOT_VERSION, x)
    ensures ReadSnapshot(WriteSnapshot(version, x)) == Some(Aged(version, x))
    ensures version == SNAPSHOT_VERSION ==> Aged(version, x) == x
  {
    var y := Aged(version, x);
    forall k { AgedEdgesWriteTheSame(version, x.relationships, k); }
    assert forall i :: 0 <= i < |x.relationships| ==> RelationshipFits(SNAPSHOT_VERSION)(x.relationships[i]);
    AgedEdgesFit(version, x.relationships);
    assert WriteSnapshot(version, x) == WriteSnapshot(version, y);
    SnapshotRoundTrip(version, y);
    if version >= 3 { AgedIsIdentity(version, x.relationships); }
  }

  lemma {:induction false} AgedIsIdentity(version: byte, rs: seq<Relationship>)
    requires version >= 3
    ensures AgedEdges(version, rs) == rs
  {
    if |rs| > 0 { AgedIsIdentity(version, rs[1..]); }
  }
}
