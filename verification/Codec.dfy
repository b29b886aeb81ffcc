/** The snapshot format (sqlite.rs): what each field looks like on disk.

    A writer puts a value in front of the bytes that follow it; a reader takes a
    value off the front and hands back the rest. The imperative encoder and
    decoder are in `SnapshotIo`; here is what they must produce. */
module Codec {
  import opened Wrappers
  import opened Bytes
  import opened Ir
  import Utf8

  datatype Parsed<+T> = NoParse | Parsed(value: T, rest: seq<byte>) {
    predicate IsFailure() { NoParse? }

    function PropagateFailure<U>(): Parsed<U>
      requires NoParse?
    {
      NoParse
    }

    function Extract(): (T, seq<byte>)
      requires Parsed?
    {
      (value, rest)
    }

    /** The same parse with more input after it. */
    function Then(more: seq<byte>): Parsed<T> {
      if NoParse? then NoParse else Parsed(value, rest + more)
    }
  }

  type Reader<+T> = seq<byte> -> Parsed<T>
  type Writer<-T> = (T, seq<byte>) -> seq<byte>

  const LIMIT: nat := 0x1_0000_0000

  // ── primitives ──────────────────────────────────────────────

  function WriteU8(b: byte, k: seq<byte>): seq<byte> { [b] + k }

  function ReadU8(s: seq<byte>): Parsed<byte> {
    if |s| == 0 then NoParse else Parsed(s[0], s[1..])
  }

  /** Little-endian. A length is cast, so it is taken modulo 2^32. */
  function WriteU32(n: nat, k: seq<byte>): seq<byte> {
    [n % 256, n / 256 % 256, n / 256 / 256 % 256, n / 256 / 256 / 256 % 256] + k
  }

  function ReadU32(s: seq<byte>): Parsed<u32> {
    if |s| < 4 then NoParse
    else Parsed(s[0] + 256 * (s[1] as int + 256 * (s[2] as int + 256 * (s[3] as int))), s[4..])
  }

  function WriteString(x: string, k: seq<byte>): seq<byte> {
    WriteU32(|Utf8.Encode(x)|, Utf8.Encode(x) + k)
  }

  function ReadString(s: seq<byte>): Parsed<string> {
    var (n, s) :- ReadU32(s);
    if n > |s| then NoParse
    else match Utf8.Decode(s[..n])
      case None => NoParse
      case Some(x) => Parsed(x, s[n..])
  }

  function WriteOptional(x: Option<string>, k: seq<byte>): seq<byte> {
    match x
    case None => WriteU8(0, k)
    case Some(v) => WriteU8(1, WriteString(v, k))
  }

  function ReadOptional(s: seq<byte>): Parsed<Option<string>> {
    var (has, s) :- ReadU8(s);
    if has == 0 then Parsed(None, s)
    else
      var (v, s) :- ReadString(s);
      Parsed(Some(v), s)
  }

  // ── lists ───────────────────────────────────────────────────

  function WriteAll<T>(write: Writer<T>, xs: seq<T>, k: seq<byte>): seq<byte> {
    if |xs| == 0 then k else write(xs[0], WriteAll(write, xs[1..], k))
  }

  function ReadAll<T>(read: Reader<T>, n: nat, s: seq<byte>): Parsed<seq<T>> {
    if n == 0 then Parsed([], s)
    else
      var (x, s) :- read(s);
      var (xs, s) :- ReadAll(read, n - 1, s);
      Parsed([x] + xs, s)
  }

  function WriteList<T>(write: Writer<T>, xs: seq<T>, k: seq<byte>): seq<byte> {
    WriteU32(|xs|, WriteAll(write, xs, k))
  }

  function ReadList<T>(read: Reader<T>, s: seq<byte>): Parsed<seq<T>> {
    var (n, s) :- ReadU32(s);
    ReadAll(read, n, s)
  }

  // ── code tables ─────────────────────────────────────────────

  function KindCode(kind: SymbolKind): byte {
    match kind
    case Class => 1 case Interface => 2 case TypeAlias => 3 case Function => 4 case Method => 5
    case Property => 6 case Variable => 7 case Module => 8 case Enum => 9 case EnumVariant => 10
    case ExternalPackage => 11
  }

  function KindOf(b: byte): Option<SymbolKind> {
    match b
    case 1 => Some(Class) case 2 => Some(Interface) case 3 => Some(TypeAlias) case 4 => Some(Function)
    case 5 => Some(Method) case 6 => Some(Property) case 7 => Some(Variable) case 8 => Some(Module)
    case 9 => Some(Enum) case 10 => Some(EnumVariant) case 11 => Some(ExternalPackage)
    case _ => None
  }

  function LanguageCode(language: Language): byte {
    match language
    case TypeScript => 1 case JavaScript => 2 case Python => 3 case Rust => 4 case Go => 5
    case Java => 6 case C => 7 case Cpp => 8 case Ruby => 9 case Php => 10 case CSharp => 11
    case Kotlin => 12 case Swift => 13 case Sql => 14 case Lua => 15
  }

  function LanguageOf(b: byte): Option<Language> {
    match b
    case 1 => Some(TypeScript) case 2 => Some(JavaScript) case 3 => Some(Python) case 4 => Some(Rust)
    case 5 => Some(Go) case 6 => Some(Java) case 7 => Some(C) case 8 => Some(Cpp) case 9 => Some(Ruby)
    case 10 => Some(Php) case 11 => Some(CSharp) case 12 => Some(Kotlin) case 13 => Some(Swift)
    case 14 => Some(Sql) case 15 => Some(Lua)
    case _ => None
  }

  function RelationshipCode(kind: RelationshipKind): byte { KindRank(kind) + 1 }

  function RelationshipOf(b: byte): Option<RelationshipKind> {
    match b
    case 1 => Some(Imports) case 2 => Some(Calls) case 3 => Some(Extends) case 4 => Some(Implements)
    case 5 => Some(UsesType) case 6 => Some(AccessesProperty) case 7 => Some(ReExports)
    case 8 => Some(Instantiates) case 9 => Some(Tests)
    case _ => None
  }

  function ScopeCode(scope: AliasScope): byte {
    match scope
    case ImportAlias => 1 case ReExportAlias => 2 case BarrelReExport => 3 case DefaultImport => 4
  }

  function ScopeOf(b: byte): Option<AliasScope> {
    match b
    case 1 => Some(ImportAlias) case 2 => Some(ReExportAlias) case 3 => Some(BarrelReExport)
    case 4 => Some(DefaultImport)
    case _ => None
  }

  function ResolutionCode(resolution: Resolution): byte {
    if resolution.Resolved? then 1 else 0
  }

  /** An unknown byte reads as the weaker value. */
  function ResolutionOf(b: byte): Resolution {
    if b == 1 then Resolved else Structural
  }

  function ReadCode<T>(table: byte -> Option<T>, s: seq<byte>): Parsed<T> {
    var (b, s) :- ReadU8(s);
    match table(b)
    case None => NoParse
    case Some(x) => Parsed(x, s)
  }

  // ── records ─────────────────────────────────────────────────

  function WriteSymbol(x: Symbol, k: seq<byte>): seq<byte> {
    WriteString(x.id, WriteString(x.name, WriteU8(KindCode(x.kind), WriteU8(LanguageCode(x.language),
    WriteString(x.file, WriteU32(x.lineStart, WriteU32(x.lineEnd, WriteOptional(x.signature, k))))))))
  }

  /** Reads a symbol by whatever code tables are in force. */
  function ReadSymbolBy(kinds: byte -> Option<SymbolKind>, languages: byte -> Option<Language>, s: seq<byte>): Parsed<Symbol> {
    var (id, s) :- ReadString(s);
    var (name, s) :- ReadString(s);
    var (kind, s) :- ReadCode(kinds, s);
    var (language, s) :- ReadCode(languages, s);
    var (file, s) :- ReadString(s);
    var (lineStart, s) :- ReadU32(s);
    var (lineEnd, s) :- ReadU32(s);
    var (signature, s) :- ReadOptional(s);
    Parsed(Symbol(id, name, kind, language, file, lineStart, lineEnd, signature), s)
  }

  function ReadSymbol(s: seq<byte>): Parsed<Symbol> { ReadSymbolBy(KindOf, LanguageOf, s) }

  /** The resolution byte arrived with version 3. */
  function WriteResolution(version: nat, r: Resolution, k: seq<byte>): seq<byte> {
    if version >= 3 then WriteU8(ResolutionCode(r), k) else k
  }

  function ReadResolution(version: nat, s: seq<byte>): Parsed<Resolution> {
    if version >= 3 then
      var (b, s) :- ReadU8(s);
      Parsed(ResolutionOf(b), s)
    else Parsed(Structural, s)
  }

  function WriteRelationship(version: nat, x: Relationship, k: seq<byte>): seq<byte> {
    WriteString(x.from, WriteString(x.to, WriteU8(RelationshipCode(x.kind), WriteOptional(x.alias,
    WriteList(WriteString, x.properties, WriteString(x.context, WriteString(x.file, WriteU32(x.line,
    WriteResolution(version, x.resolution, k)))))))))
  }

  function ReadRelationshipBy(kinds: byte -> Option<RelationshipKind>, version: nat, s: seq<byte>): Parsed<Relationship> {
    var (from, s) :- ReadString(s);
    var (to, s) :- ReadString(s);
    var (kind, s) :- ReadCode(kinds, s);
    var (alias, s) :- ReadOptional(s);
    var (properties, s) :- ReadList(ReadString, s);
    var (context, s) :- ReadString(s);
    var (file, s) :- ReadString(s);
    var (line, s) :- ReadU32(s);
    var (resolution, s) :- ReadResolution(version, s);
    Parsed(Relationship(from, to, kind, alias, properties, context, file, line, resolution), s)
  }

  function ReadRelationship(version: nat, s: seq<byte>): Parsed<Relationship> {
    ReadRelationshipBy(RelationshipOf, version, s)
  }

  function RelationshipWriter(version: nat): Writer<Relationship> { (x, k) => WriteRelationship(version, x, k) }
  function RelationshipReader(version: nat): Reader<Relationship> { s => ReadRelationship(version, s) }

  function WriteAlias(x: AliasEntry, k: seq<byte>): seq<byte> {
    WriteString(x.aliasName, WriteString(x.definedInFile, WriteU8(ScopeCode(x.scope), k)))
  }

  function ReadAlias(s: seq<byte>): Parsed<AliasEntry> {
    var (name, s) :- ReadString(s);
    var (file, s) :- ReadString(s);
    var (scope, s) :- ReadCode(ScopeOf, s);
    Parsed(AliasEntry(name, file, scope), s)
  }

  function WriteChain(x: (string, seq<AliasEntry>), k: seq<byte>): seq<byte> {
    WriteString(x.0, WriteList(WriteAlias, x.1, k))
  }

  function ReadChain(s: seq<byte>): Parsed<(string, seq<AliasEntry>)> {
    var (canonical, s) :- ReadString(s);
    var (entries, s) :- ReadList(ReadAlias, s);
    Parsed((canonical, entries), s)
  }

  function WriteReExport(x: ReExportEntry, k: seq<byte>): seq<byte> {
    WriteString(x.exportedName, WriteString(x.sourceModule, k))
  }

  function ReadReExport(s: seq<byte>): Parsed<ReExportEntry> {
    var (name, s) :- ReadString(s);
    var (source, s) :- ReadString(s);
    Parsed(ReExportEntry(name, source), s)
  }

  function WriteReExports(x: (string, seq<ReExportEntry>), k: seq<byte>): seq<byte> {
    WriteString(x.0, WriteList(WriteReExport, x.1, k))
  }

  function ReadReExports(s: seq<byte>): Parsed<(string, seq<ReExportEntry>)> {
    var (file, s) :- ReadString(s);
    var (entries, s) :- ReadList(ReadReExport, s);
    Parsed((file, entries), s)
  }

  function WriteCount(x: (string, u32), k: seq<byte>): seq<byte> {
    WriteString(x.0, WriteU32(x.1, k))
  }

  function ReadCount(s: seq<byte>): Parsed<(string, u32)> {
    var (name, s) :- ReadString(s);
    var (count, s) :- ReadU32(s);
    Parsed((name, count), s)
  }

  function WriteFlag(x: (string, bool), k: seq<byte>): seq<byte> {
    WriteString(x.0, WriteU8(if x.1 then 1 else 0, k))
  }

  function ReadFlag(s: seq<byte>): Parsed<(string, bool)> {
    var (name, s) :- ReadString(s);
    var (b, s) :- ReadU8(s);
    Parsed((name, b != 0), s)
  }

  // ── the snapshot ────────────────────────────────────────────

  const SNAPSHOT_VERSION: byte := 6

  datatype GraphSnapshot = GraphSnapshot(
    symbols: seq<Symbol>,
    relationships: seq<Relationship>,
    aliasChains: seq<(string, seq<AliasEntry>)>,
    fileReexports: seq<(string, seq<ReExportEntry>)>,
    assertions: seq<(string, u32)>,
    assertionsCounted: seq<(string, bool)>,
    unboundReferences: seq<(string, u32)>,
    unboundOutside: seq<(string, u32)>)

  /** A section a version does not have is not written, and reads as empty. */
  function WriteSection<T>(present: bool, write: Writer<T>, xs: seq<T>, k: seq<byte>): seq<byte> {
    if present then WriteList(write, xs, k) else k
  }

  function ReadSection<T>(present: bool, read: Reader<T>, s: seq<byte>): Parsed<seq<T>> {
    if present then ReadList(read, s) else Parsed([], s)
  }

  /** The layout a given version has on disk. */
  function WriteSnapshot(version: byte, x: GraphSnapshot): seq<byte> {
    WriteU8(version,
    WriteList(WriteSymbol, x.symbols,
    WriteList(RelationshipWriter(version), x.relationships,
    WriteList(WriteChain, x.aliasChains,
    WriteSection(version >= 2, WriteReExports, x.fileReexports,
    WriteSection(version >= 4, WriteCount, x.assertions,
    WriteSection(version >= 4, WriteFlag, x.assertionsCounted,
    WriteSection(version >= 5, WriteCount, x.unboundReferences,
    WriteSection(version >= 6, WriteCount, x.unboundOutside, [])))))))))
  }

  function ReadSections(version: byte, s: seq<byte>): Parsed<GraphSnapshot> {
    var (symbols, s) :- ReadList(ReadSymbol, s);
    var (relationships, s) :- ReadList(RelationshipReader(version), s);
    var (aliasChains, s) :- ReadList(ReadChain, s);
    var (fileReexports, s) :- ReadSection(version >= 2, ReadReExports, s);
    var (assertions, s) :- ReadSection(version >= 4, ReadCount, s);
    var (assertionsCounted, s) :- ReadSection(version >= 4, ReadFlag, s);
    var (unboundReferences, s) :- ReadSection(version >= 5, ReadCount, s);
    var (unboundOutside, s) :- ReadSection(version >= 6, ReadCount, s);
    Parsed(GraphSnapshot(symbols, relationships, aliasChains, fileReexports, assertions,
                         assertionsCounted, unboundReferences, unboundOutside), s)
  }

  /** What a blob means; `None` if it is rejected. */
  function ReadSnapshot(s: seq<byte>): Option<GraphSnapshot> {
    match ReadU8(s)
    case NoParse => None
    case Parsed(version, s) =>
      if !(1 <= version <= SNAPSHOT_VERSION) then None
      else match ReadSections(version, s)
        case NoParse => None
        case Parsed(x, rest) => if rest == [] then Some(x) else None
  }
}
