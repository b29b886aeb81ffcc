/** The records every component exchanges (ir.rs, resolver.rs, symbol_id.rs). */
module Ir {
  import opened Wrappers

  type u32 = n: int | 0 <= n < 0x1_0000_0000

  type SymbolId = string

  datatype SymbolKind =
    | Class | Interface | TypeAlias | Function | Method | Property | Variable
    | Module | Enum | EnumVariant | ExternalPackage

  datatype Language =
    | TypeScript | JavaScript | Python | Rust | Go | Java | C | Cpp | Ruby | Php
    | CSharp | Kotlin | Swift | Sql | Lua

  datatype RelationshipKind =
    | Imports | Calls | Extends | Implements | UsesType | AccessesProperty
    | ReExports | Instantiates | Tests

  /** How an edge's target was determined. */
  datatype Resolution = Structural | Resolved {
    function Rank(): nat { if Structural? then 0 else 1 }
    predicate Meets(floor: Resolution) { Rank() >= floor.Rank() }
    predicate GateSafe() { Resolved? }
  }

  datatype Symbol = Symbol(
    id: SymbolId, name: string, kind: SymbolKind, language: Language, file: string,
    lineStart: u32, lineEnd: u32, signature: Option<string>)

  datatype Relationship = Relationship(
    from: SymbolId, to: SymbolId, kind: RelationshipKind, alias: Option<string>,
    properties: seq<string>, context: string, file: string, line: u32, resolution: Resolution)

  datatype AliasScope = ImportAlias | ReExportAlias | BarrelReExport | DefaultImport

  datatype AliasEntry = AliasEntry(aliasName: string, definedInFile: string, scope: AliasScope)

  datatype ReExportEntry = ReExportEntry(exportedName: string, sourceModule: string)

  /** The kind's position in its declaration, which is its derived order. */
  function KindRank(kind: RelationshipKind): nat {
    match kind
    case Imports => 0 case Calls => 1 case Extends => 2 case Implements => 3 case UsesType => 4
    case AccessesProperty => 5 case ReExports => 6 case Instantiates => 7 case Tests => 8
  }

  function KindName(kind: RelationshipKind): string {
    match kind
    case Imports => "imports" case Calls => "calls" case Extends => "extends"
    case Implements => "implements" case UsesType => "uses-type"
    case AccessesProperty => "accesses-property" case ReExports => "re-exports"
    case Instantiates => "instantiates" case Tests => "tests"
  }

  predicate EndsWith(s: string, suffix: string) {
    |suffix| <= |s| && s[|s| - |suffix|..] == suffix
  }

  /** The text left after a prefix and then a suffix are taken off in turn. */
  function Strip(s: string, prefix: string, suffix: string): Option<string> {
    if !(prefix <= s) then None
    else
      var rest := s[|prefix|..];
      if EndsWith(rest, suffix) then Some(rest[..|rest| - |suffix|]) else None
  }

  predicate IsExternalPackage(id: SymbolId) {
    "ext::" <= id && EndsWith(id, "::package")
  }

  function ParseExternalPackage(id: SymbolId): Option<string> {
    Strip(id, "ext::", "::package")
  }

  function ExternalPackageId(package: string): SymbolId {
    "ext::" + package + "::package"
  }
}
