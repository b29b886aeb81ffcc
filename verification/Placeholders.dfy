/** Ids that stand for a reference not yet resolved (symbol_id.rs). */
module Placeholders {
  import opened Wrappers
  import opened Ir

  const IMPORT_PREFIX := "unresolved_import"
  const LOCAL_TYPE_PREFIX := "unresolved_local_type"

  /** The symbol part of a whole-module import. */
  const IMPORT_ALL := "*"

  predicate IsPlaceholder(id: SymbolId) { IMPORT_PREFIX <= id || LOCAL_TYPE_PREFIX <= id }

  /** Where a character last occurs. */
  function LastOf(s: string, c: char): (r: Option<nat>)
    ensures r.Some? ==> r.value < |s| && s[r.value] == c && c !in s[r.value + 1..]
    ensures r.None? ==> c !in s
  {
    if |s| == 0 then None
    else if s[|s| - 1] == c then Some(|s| - 1)
    else
      var r := LastOf(s[..|s| - 1], c);
      assert s == s[..|s| - 1] + [s[|s| - 1]];
      assert r.Some? ==> s[r.value + 1..] == s[..|s| - 1][r.value + 1..] + [s[|s| - 1]];
      r
  }

  /** What follows a prefix and a separator. */
  function After(id: SymbolId, prefix: string): Option<string> {
    if prefix + "|" <= id then Some(id[|prefix| + 1..]) else None
  }

  function ParseLocalType(id: SymbolId): Option<string> { After(id, LOCAL_TYPE_PREFIX) }

  datatype Import = Import(owner: string, symbol: string)

  function ParseImport(id: SymbolId): Option<Import> {
    match After(id, IMPORT_PREFIX)
    case None => None
    case Some(rest) =>
      match LastOf(rest, '|')
      case None => None
      case Some(cut) => Some(Import(rest[..cut], rest[cut + 1..]))
  }

  function LocalTypeId(name: string): SymbolId { LOCAL_TYPE_PREFIX + "|" + name }

  function ImportId(i: Import): SymbolId { IMPORT_PREFIX + "|" + i.owner + "|" + i.symbol }

  /** What a resolver parses is what the extractor wrote, so long as the symbol has no
      separator in it; the module may have any. */
  lemma PlaceholdersRoundTrip(name: string, i: Import)
    requires '|' !in i.symbol
    ensures ParseLocalType(LocalTypeId(name)) == Some(name) && ParseImport(LocalTypeId(name)).None?
    ensures ParseImport(ImportId(i)) == Some(i) && ParseLocalType(ImportId(i)).None?
    ensures IsPlaceholder(LocalTypeId(name)) && IsPlaceholder(ImportId(i))
  {
    hide LastOf;
    AfterItself(LOCAL_TYPE_PREFIX, name);
    AfterItself(IMPORT_PREFIX, i.owner + "|" + i.symbol);
    assert ImportId(i) == IMPORT_PREFIX + "|" + (i.owner + "|" + i.symbol);
    AfterAnother(LocalTypeId(name), LOCAL_TYPE_PREFIX, IMPORT_PREFIX);
    AfterAnother(ImportId(i), IMPORT_PREFIX, LOCAL_TYPE_PREFIX);
    LastSeparator(i.owner, i.symbol);
  }

  /** Nothing else is read as either kind, or taken for a placeholder. */
  lemma PlaceholdersRead(id: SymbolId, name: string, i: Import)
    ensures ParseLocalType(id) == Some(name) <==> id == "unresolved_local_type|" + name
    ensures ParseImport(id) == Some(i) <==> '|' !in i.symbol && id == "unresolved_import|" + i.owner + "|" + i.symbol
    ensures IsPlaceholder(id) <==> "unresolved_import" <= id || "unresolved_local_type" <= id
  {
    AfterTells(id, LOCAL_TYPE_PREFIX, name);
    ImportReads(id, i);
    hide After, LastOf, ParseImport;
  }

  lemma ImportReads(id: SymbolId, i: Import)
    ensures ParseImport(id) == Some(i) <==> '|' !in i.symbol && id == "unresolved_import|" + i.owner + "|" + i.symbol
  {
    assert ImportId(i) == "unresolved_import|" + i.owner + "|" + i.symbol;
    if '|' !in i.symbol { PlaceholdersRoundTrip("", i); }
    if ParseImport(id) == Some(i) { ImportWasWritten(id, i); }
    hide ParseImport, ImportId;
  }

  lemma ImportWasWritten(id: SymbolId, i: Import)
    requires ParseImport(id) == Some(i)
    ensures '|' !in i.symbol && id == ImportId(i)
  {
    hide LastOf, After;
    var rest := After(id, IMPORT_PREFIX).value;
    AfterTells(id, IMPORT_PREFIX, rest);
    var cut := LastOf(rest, '|').value;
    assert rest == rest[..cut] + "|" + rest[cut + 1..];
    assert id == IMPORT_PREFIX + "|" + (i.owner + "|" + i.symbol);
  }

  lemma AfterTells(id: SymbolId, prefix: string, rest: string)
    ensures After(id, prefix) == Some(rest) <==> id == prefix + "|" + rest
  {
    assert prefix + "|" + rest == (prefix + "|") + rest;
    if prefix + "|" <= id { assert id == (prefix + "|") + id[|prefix| + 1..]; }
  }

  lemma AfterItself(prefix: string, rest: string)
    ensures After(prefix + "|" + rest, prefix) == Some(rest) && prefix <= prefix + "|" + rest
  {
    assert prefix + "|" + rest == (prefix + "|") + rest;
    assert prefix + "|" + rest == prefix + ("|" + rest);
  }

  /** The two prefixes part at their twelfth letter. */
  lemma AfterAnother(id: SymbolId, prefix: string, other: string)
    requires |prefix| > 11 && |other| > 11 && prefix[11] != other[11] && prefix <= id
    ensures After(id, other).None?
  {
    assert id[11] == prefix[11] && (other + "|")[11] == other[11];
  }

  lemma {:induction false} LastSeparator(owner: string, symbol: string)
    requires '|' !in symbol
    ensures LastOf(owner + "|" + symbol, '|') == Some(|owner|)
    ensures (owner + "|" + symbol)[..|owner|] == owner && (owner + "|" + symbol)[|owner| + 1..] == symbol
  {
    var s := owner + "|" + symbol;
    if |symbol| == 0 {
      assert s == owner + "|";
    } else {
      LastSeparator(owner, symbol[..|symbol| - 1]);
      assert s[..|s| - 1] == owner + "|" + symbol[..|symbol| - 1];
      assert s[|s| - 1] == symbol[|symbol| - 1];
    }
  }

  lemma PackagesAreNoPlaceholders(package: string)
    ensures !IsPlaceholder(ExternalPackageId(package))
  {
    assert ExternalPackageId(package)[0] == 'e';
  }
}
