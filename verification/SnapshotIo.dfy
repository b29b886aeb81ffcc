/** The encoder and decoder of sqlite.rs, byte by byte, against the format. */
module SnapshotIo {
  import opened Wrappers
  import opened Bytes
  import opened Ir
  import opened Codec
  import opened CodecLaws
  import Utf8

  datatype StoreError =
    | StringTooLarge | UnexpectedEof | InvalidUtf8 | UnknownCode | UnsupportedVersion | TrailingBytes
    | SnapshotNotFound

  // ── the cursor ──────────────────────────────────────────────

  /** The cursor did what the format says: failed where it has no parse, and
      otherwise took exactly that value and left exactly that rest. */
  ghost predicate Took<T>(p: Parsed<T>, r: Result<T, StoreError>, rest: seq<byte>) {
    match p
    case NoParse => r.Err?
    case Parsed(v, k) => r == Ok(v) && rest == k
  }

  class ByteCursor {
    const bytes: seq<byte>
    var pos: nat

    ghost predicate Valid()
      reads this
    {
      pos <= |bytes|
    }

    ghost function Rest(): seq<byte>
      reads this
      requires Valid()
    {
      bytes[pos..]
    }

    constructor (bytes: seq<byte>)
      ensures Valid() && Rest() == bytes
    {
      this.bytes := bytes;
      pos := 0;
    }

    method TakeU8() returns (r: Result<byte, StoreError>)
      requires Valid()
      modifies this
      ensures Valid() && Took(ReadU8(old(Rest())), r, Rest())
    {
      if pos >= |bytes| {
        return Err(UnexpectedEof);
      }
      r := Ok(bytes[pos]);
      pos := pos + 1;
    }

    method TakeU32() returns (r: Result<u32, StoreError>)
      requires Valid()
      modifies this
      ensures Valid() && Took(ReadU32(old(Rest())), r, Rest())
    {
      if pos + 4 > |bytes| {
        return Err(UnexpectedEof);
      }
      var b := bytes[pos..pos + 4];
      assert forall i :: 0 <= i < 4 ==> Rest()[i] == b[i];
      r := Ok(b[0] + 256 * (b[1] as int + 256 * (b[2] as int + 256 * (b[3] as int))));
      pos := pos + 4;
    }

    method TakeString() returns (r: Result<string, StoreError>)
      requires Valid()
      modifies this
      ensures Valid() && Took(ReadString(old(Rest())), r, Rest())
    {
      var len :- TakeU32();
      if pos + len > |bytes| {
        return Err(UnexpectedEof);
      }
      var slice := bytes[pos..pos + len];
      assert slice == Rest()[..len];
      pos := pos + len;
      var text := Utf8.Decode(slice);
      r := if text.Some? then Ok(text.value) else Err(InvalidUtf8);
    }

    method TakeOptional() returns (r: Result<Option<string>, StoreError>)
      requires Valid()
      modifies this
      ensures Valid() && Took(ReadOptional(old(Rest())), r, Rest())
    {
      var has :- TakeU8();
      if has == 0 {
        return Ok(None);
      }
      var text :- TakeString();
      r := Ok(Some(text));
    }

    method TakeCode<T>(table: byte -> Option<T>) returns (r: Result<T, StoreError>)
      requires Valid()
      modifies this
      ensures Valid() && Took(ReadCode(table, old(Rest())), r, Rest())
    {
      var b :- TakeU8();
      var x := table(b);
      r := if x.Some? then Ok(x.value) else Err(UnknownCode);
    }

    predicate AtEnd()
      reads this
    {
      pos == |bytes|
    }
  }

  // ── reading lists ───────────────────────────────────────────

  ghost function Prepend<T>(xs: seq<T>, p: Parsed<seq<T>>): Parsed<seq<T>> {
    match p
    case NoParse => NoParse
    case Parsed(ys, k) => Parsed(xs + ys, k)
  }

  /** Reading `n` items behind those already taken. */
  ghost function TakeAll<T>(read: Reader<T>, n: nat, items: seq<T>, s: seq<byte>): Parsed<seq<T>> {
    if n == 0 then Parsed(items, s)
    else match read(s)
      case NoParse => NoParse
      case Parsed(x, rest) => TakeAll(read, n - 1, items + [x], rest)
  }

  lemma {:induction false} TakeAllReads<T>(read: Reader<T>, n: nat, items: seq<T>, s: seq<byte>)
    ensures TakeAll(read, n, items, s) == Prepend(items, ReadAll(read, n, s))
  {
    if n == 0 {
      assert items + [] == items;
    } else if read(s).Parsed? {
      var x, rest := read(s).value, read(s).rest;
      TakeAllReads(read, n - 1, items + [x], rest);
      if ReadAll(read, n - 1, rest).Parsed? {
        var ys := ReadAll(read, n - 1, rest).value;
        assert items + ([x] + ys) == (items + [x]) + ys;
      }
    }
  }

  /** A stand-in for a reader, so that a loop need not look inside it. */
  ghost predicate Same<T(!new)>(f: Reader<T>, read: Reader<T>) {
    forall s {:trigger read(s)} :: f(s) == read(s)
  }

  lemma StandIn<T(!new)>(read: Reader<T>) returns (f: Reader<T>)
    ensures Same(f, read)
  {
    f := read;
  }

  lemma SameAt<T(!new)>(f: Reader<T>, read: Reader<T>, s: seq<byte>)
    requires Same(f, read)
    ensures f(s) == read(s)
  {
  }

  lemma {:induction false} SameAll<T(!new)>(f: Reader<T>, read: Reader<T>, n: nat, s: seq<byte>)
    requires Same(f, read)
    ensures TakeAll(f, n, [], s) == ReadAll(read, n, s)
  {
    SameReads(f, read, n, s);
    NoneTaken(f, n, s);
  }

  lemma {:induction false} SameReads<T(!new)>(f: Reader<T>, read: Reader<T>, n: nat, s: seq<byte>)
    requires Same(f, read)
    ensures ReadAll(f, n, s) == ReadAll(read, n, s)
  {
    SameAt(f, read, s);
    if n > 0 && read(s).Parsed? { SameReads(f, read, n - 1, read(s).rest); }
  }

  lemma NoneTaken<T>(read: Reader<T>, n: nat, s: seq<byte>)
    ensures TakeAll(read, n, [], s) == ReadAll(read, n, s)
  {
    TakeAllReads(read, n, [], s);
    var p := ReadAll(read, n, s);
    if p.Parsed? { assert [] + p.value == p.value; }
  }

  // ── reading records ─────────────────────────────────────────

  method TakeSymbol(ghost f: Reader<Symbol>, c: ByteCursor) returns (r: Result<Symbol, StoreError>)
    requires c.Valid() && Same(f, ReadSymbol)
    modifies c
    ensures c.Valid() && Took(f(old(c.Rest())), r, c.Rest())
  {
    SameAt(f, ReadSymbol, c.Rest());
    var id :- c.TakeString();
    var name :- c.TakeString();
    var kind :- c.TakeCode(KindOf);
    var language :- c.TakeCode(LanguageOf);
    var file :- c.TakeString();
    var lineStart :- c.TakeU32();
    var lineEnd :- c.TakeU32();
    var signature :- c.TakeOptional();
    r := Ok(Symbol(id, name, kind, language, file, lineStart, lineEnd, signature));
  }

  method TakeSymbolsItems(n: nat, ghost f: Reader<Symbol>, c: ByteCursor) returns (r: Result<seq<Symbol>, StoreError>)
    requires c.Valid() && Same(f, ReadSymbol)
    modifies c
    ensures c.Valid() && Took(TakeAll(f, n, [], old(c.Rest())), r, c.Rest())
  {
    var items: seq<Symbol> := [];
    ghost var whole := TakeAll(f, n, [], c.Rest());
    var left := n;
    while left > 0
      invariant c.Valid() && TakeAll(f, left, items, c.Rest()) == whole
    {
      var item :- TakeSymbol(f, c);
      items := items + [item];
      left := left - 1;
    }
    r := Ok(items);
  }

  method TakeSymbols(c: ByteCursor) returns (r: Result<seq<Symbol>, StoreError>)
    requires c.Valid()
    modifies c
    ensures c.Valid() && Took(ReadList(ReadSymbol, old(c.Rest())), r, c.Rest())
  {
    var n :- c.TakeU32();
    ghost var f := StandIn(ReadSymbol);
    SameAll(f, ReadSymbol, n, c.Rest());
    r := TakeSymbolsItems(n, f, c);
  }

  method TakeText(ghost f: Reader<string>, c: ByteCursor) returns (r: Result<string, StoreError>)
    requires c.Valid() && Same(f, ReadString)
    modifies c
    ensures c.Valid() && Took(f(old(c.Rest())), r, c.Rest())
  {
    SameAt(f, ReadString, c.Rest());
    var text :- c.TakeString();
    r := Ok(text);
  }

  method TakeStringsItems(n: nat, ghost f: Reader<string>, c: ByteCursor) returns (r: Result<seq<string>, StoreError>)
    requires c.Valid() && Same(f, ReadString)
    modifies c
    ensures c.Valid() && Took(TakeAll(f, n, [], old(c.Rest())), r, c.Rest())
  {
    var items: seq<string> := [];
    ghost var whole := TakeAll(f, n, [], c.Rest());
    var left := n;
    while left > 0
      invariant c.Valid() && TakeAll(f, left, items, c.Rest()) == whole
    {
      var item :- TakeText(f, c);
      items := items + [item];
      left := left - 1;
    }
    r := Ok(items);
  }

  method TakeStrings(c: ByteCursor) returns (r: Result<seq<string>, StoreError>)
    requires c.Valid()
    modifies c
    ensures c.Valid() && Took(ReadList(ReadString, old(c.Rest())), r, c.Rest())
  {
    var n :- c.TakeU32();
    ghost var f := StandIn(ReadString);
    SameAll(f, ReadString, n, c.Rest());
    r := TakeStringsItems(n, f, c);
  }

  method TakeResolution(version: byte, c: ByteCursor) returns (r: Result<Resolution, StoreError>)
    requires c.Valid()
    modifies c
    ensures c.Valid() && Took(ReadResolution(version, old(c.Rest())), r, c.Rest())
  {
    if version >= 3 {
      var raw :- c.TakeU8();
      r := Ok(ResolutionOf(raw));
    } else {
      r := Ok(Structural);
    }
  }

  method TakeRelationship(version: byte, ghost f: Reader<Relationship>, c: ByteCursor) returns (r: Result<Relationship, StoreError>)
    requires c.Valid() && Same(f, RelationshipReader(version))
    modifies c
    ensures c.Valid() && Took(f(old(c.Rest())), r, c.Rest())
  {
    SameAt(f, RelationshipReader(version), c.Rest());
    var from :- c.TakeString();
    var to :- c.TakeString();
    var kind :- c.TakeCode(RelationshipOf);
    var alias :- c.TakeOptional();
    var properties :- TakeStrings(c);
    var context :- c.TakeString();
    var file :- c.TakeString();
    var line :- c.TakeU32();
    var resolution :- TakeResolution(version, c);
    r := Ok(Relationship(from, to, kind, alias, properties, context, file, line, resolution));
  }

  method TakeRelationshipsItems(version: byte, n: nat, ghost f: Reader<Relationship>, c: ByteCursor) returns (r: Result<seq<Relationship>, StoreError>)
    requires c.Valid() && Same(f, RelationshipReader(version))
    modifies c
    ensures c.Valid() && Took(TakeAll(f, n, [], old(c.Rest())), r, c.Rest())
  {
    var items: seq<Relationship> := [];
    ghost var whole := TakeAll(f, n, [], c.Rest());
    var left := n;
    while left > 0
      invariant c.Valid() && TakeAll(f, left, items, c.Rest()) == whole
    {
      var item :- TakeRelationship(version, f, c);
      items := items + [item];
      left := left - 1;
    }
    r := Ok(items);
  }

  method TakeRelationships(version: byte, c: ByteCursor) returns (r: Result<seq<Relationship>, StoreError>)
    requires c.Valid()
    modifies c
    ensures c.Valid() && Took(ReadList(RelationshipReader(version), old(c.Rest())), r, c.Rest())
  {
    var n :- c.TakeU32();
    ghost var f := StandIn(RelationshipReader(version));
    SameAll(f, RelationshipReader(version), n, c.Rest());
    r := TakeRelationshipsItems(version, n, f, c);
  }

  method TakeAlias(ghost f: Reader<AliasEntry>, c: ByteCursor) returns (r: Result<AliasEntry, StoreError>)
    requires c.Valid() && Same(f, ReadAlias)
    modifies c
    ensures c.Valid() && Took(f(old(c.Rest())), r, c.Rest())
  {
    SameAt(f, ReadAlias, c.Rest());
    var name :- c.TakeString();
    var file :- c.TakeString();
    var scope :- c.TakeCode(ScopeOf);
    r := Ok(AliasEntry(name, file, scope));
  }

  method TakeAliasesItems(n: nat, ghost f: Reader<AliasEntry>, c: ByteCursor) returns (r: Result<seq<AliasEntry>, StoreError>)
    requires c.Valid() && Same(f, ReadAlias)
    modifies c
    ensures c.Valid() && Took(TakeAll(f, n, [], old(c.Rest())), r, c.Rest())
  {
    var items: seq<AliasEntry> := [];
    ghost var whole := TakeAll(f, n, [], c.Rest());
    var left := n;
    while left > 0
      invariant c.Valid() && TakeAll(f, left, items, c.Rest()) == whole
    {
      var item :- TakeAlias(f, c);
      items := items + [item];
      left := left - 1;
    }
    r := Ok(items);
  }

  method TakeAliases(c: ByteCursor) returns (r: Result<seq<AliasEntry>, StoreError>)
    requires c.Valid()
    modifies c
    ensures c.Valid() && Took(ReadList(ReadAlias, old(c.Rest())), r, c.Rest())
  {
    var n :- c.TakeU32();
    ghost var f := StandIn(ReadAlias);
    SameAll(f, ReadAlias, n, c.Rest());
    r := TakeAliasesItems(n, f, c);
  }

  method TakeChain(ghost f: Reader<(string, seq<AliasEntry>)>, c: ByteCursor) returns (r: Result<(string, seq<AliasEntry>), StoreError>)
    requires c.Valid() && Same(f, ReadChain)
    modifies c
    ensures c.Valid() && Took(f(old(c.Rest())), r, c.Rest())
  {
    SameAt(f, ReadChain, c.Rest());
    var canonical :- c.TakeString();
    var entries :- TakeAliases(c);
    r := Ok((canonical, entries));
  }

  method TakeChainsItems(n: nat, ghost f: Reader<(string, seq<AliasEntry>)>, c: ByteCursor) returns (r: Result<seq<(string, seq<AliasEntry>)>, StoreError>)
    requires c.Valid() && Same(f, ReadChain)
    modifies c
    ensures c.Valid() && Took(TakeAll(f, n, [], old(c.Rest())), r, c.Rest())
  {
    var items: seq<(string, seq<AliasEntry>)> := [];
    ghost var whole := TakeAll(f, n, [], c.Rest());
    var left := n;
    while left > 0
      invariant c.Valid() && TakeAll(f, left, items, c.Rest()) == whole
    {
      var item :- TakeChain(f, c);
      items := items + [item];
      left := left - 1;
    }
    r := Ok(items);
  }

  method TakeChains(c: ByteCursor) returns (r: Result<seq<(string, seq<AliasEntry>)>, StoreError>)
    requires c.Valid()
    modifies c
    ensures c.Valid() && Took(ReadList(ReadChain, old(c.Rest())), r, c.Rest())
  {
    var n :- c.TakeU32();
    ghost var f := StandIn(ReadChain);
    SameAll(f, ReadChain, n, c.Rest());
    r := TakeChainsItems(n, f, c);
  }

  method TakeReExport(ghost f: Reader<ReExportEntry>, c: ByteCursor) returns (r: Result<ReExportEntry, StoreError>)
    requires c.Valid() && Same(f, ReadReExport)
    modifies c
    ensures c.Valid() && Took(f(old(c.Rest())), r, c.Rest())
  {
    SameAt(f, ReadReExport, c.Rest());
    var name :- c.TakeString();
    var source :- c.TakeString();
    r := Ok(ReExportEntry(name, source));
  }

  method TakeReExportEntriesItems(n: nat, ghost f: Reader<ReExportEntry>, c: ByteCursor) returns (r: Result<seq<ReExportEntry>, StoreError>)
    requires c.Valid() && Same(f, ReadReExport)
    modifies c
    ensures c.Valid() && Took(TakeAll(f, n, [], old(c.Rest())), r, c.Rest())
  {
    var items: seq<ReExportEntry> := [];
    ghost var whole := TakeAll(f, n, [], c.Rest());
    var left := n;
    while left > 0
      invariant c.Valid() && TakeAll(f, left, items, c.Rest()) == whole
    {
      var item :- TakeReExport(f, c);
      items := items + [item];
      left := left - 1;
    }
    r := Ok(items);
  }

  method TakeReExportEntries(c: ByteCursor) returns (r: Result<seq<ReExportEntry>, StoreError>)
    requires c.Valid()
    modifies c
    ensures c.Valid() && Took(ReadList(ReadReExport, old(c.Rest())), r, c.Rest())
  {
    var n :- c.TakeU32();
    ghost var f := StandIn(ReadReExport);
    SameAll(f, ReadReExport, n, c.Rest());
    r := TakeReExportEntriesItems(n, f, c);
  }

  method TakeFileReExports(ghost f: Reader<(string, seq<ReExportEntry>)>, c: ByteCursor) returns (r: Result<(string, seq<ReExportEntry>), StoreError>)
    requires c.Valid() && Same(f, ReadReExports)
    modifies c
    ensures c.Valid() && Took(f(old(c.Rest())), r, c.Rest())
  {
    SameAt(f, ReadReExports, c.Rest());
    var file :- c.TakeString();
    var entries :- TakeReExportEntries(c);
    r := Ok((file, entries));
  }

  method TakeAllReExportsItems(n: nat, ghost f: Reader<(string, seq<ReExportEntry>)>, c: ByteCursor) returns (r: Result<seq<(string, seq<ReExportEntry>)>, StoreError>)
    requires c.Valid() && Same(f, ReadReExports)
    modifies c
    ensures c.Valid() && Took(TakeAll(f, n, [], old(c.Rest())), r, c.Rest())
  {
    var items: seq<(string, seq<ReExportEntry>)> := [];
    ghost var whole := TakeAll(f, n, [], c.Rest());
    var left := n;
    while left > 0
      invariant c.Valid() && TakeAll(f, left, items, c.Rest()) == whole
    {
      var item :- TakeFileReExports(f, c);
      items := items + [item];
      left := left - 1;
    }
    r := Ok(items);
  }

  method TakeAllReExports(c: ByteCursor) returns (r: Result<seq<(string, seq<ReExportEntry>)>, StoreError>)
    requires c.Valid()
    modifies c
    ensures c.Valid() && Took(ReadList(ReadReExports, old(c.Rest())), r, c.Rest())
  {
    var n :- c.TakeU32();
    ghost var f := StandIn(ReadReExports);
    SameAll(f, ReadReExports, n, c.Rest());
    r := TakeAllReExportsItems(n, f, c);
  }

  method TakeCount(ghost f: Reader<(string, u32)>, c: ByteCursor) returns (r: Result<(string, u32), StoreError>)
    requires c.Valid() && Same(f, ReadCount)
    modifies c
    ensures c.Valid() && Took(f(old(c.Rest())), r, c.Rest())
  {
    SameAt(f, ReadCount, c.Rest());
    var name :- c.TakeString();
    var count :- c.TakeU32();
    r := Ok((name, count));
  }

  method TakeCountsItems(n: nat, ghost f: Reader<(string, u32)>, c: ByteCursor) returns (r: Result<seq<(string, u32)>, StoreError>)
    requires c.Valid() && Same(f, ReadCount)
    modifies c
    ensures c.Valid() && Took(TakeAll(f, n, [], old(c.Rest())), r, c.Rest())
  {
    var items: seq<(string, u32)> := [];
    ghost var whole := TakeAll(f, n, [], c.Rest());
    var left := n;
    while left > 0
      invariant c.Valid() && TakeAll(f, left, items, c.Rest()) == whole
    {
      var item :- TakeCount(f, c);
      items := items + [item];
      left := left - 1;
    }
    r := Ok(items);
  }

  method TakeCounts(c: ByteCursor) returns (r: Result<seq<(string, u32)>, StoreError>)
    requires c.Valid()
    modifies c
    ensures c.Valid() && Took(ReadList(ReadCount, old(c.Rest())), r, c.Rest())
  {
    var n :- c.TakeU32();
    ghost var f := StandIn(ReadCount);
    SameAll(f, ReadCount, n, c.Rest());
    r := TakeCountsItems(n, f, c);
  }

  method TakeFlag(ghost f: Reader<(string, bool)>, c: ByteCursor) returns (r: Result<(string, bool), StoreError>)
    requires c.Valid() && Same(f, ReadFlag)
    modifies c
    ensures c.Valid() && Took(f(old(c.Rest())), r, c.Rest())
  {
    SameAt(f, ReadFlag, c.Rest());
    var name :- c.TakeString();
    var raw :- c.TakeU8();
    r := Ok((name, raw != 0));
  }

  method TakeFlagsItems(n: nat, ghost f: Reader<(string, bool)>, c: ByteCursor) returns (r: Result<seq<(string, bool)>, StoreError>)
    requires c.Valid() && Same(f, ReadFlag)
    modifies c
    ensures c.Valid() && Took(TakeAll(f, n, [], old(c.Rest())), r, c.Rest())
  {
    var items: seq<(string, bool)> := [];
    ghost var whole := TakeAll(f, n, [], c.Rest());
    var left := n;
    while left > 0
      invariant c.Valid() && TakeAll(f, left, items, c.Rest()) == whole
    {
      var item :- TakeFlag(f, c);
      items := items + [item];
      left := left - 1;
    }
    r := Ok(items);
  }

  method TakeFlags(c: ByteCursor) returns (r: Result<seq<(string, bool)>, StoreError>)
    requires c.Valid()
    modifies c
    ensures c.Valid() && Took(ReadList(ReadFlag, old(c.Rest())), r, c.Rest())
  {
    var n :- c.TakeU32();
    ghost var f := StandIn(ReadFlag);
    SameAll(f, ReadFlag, n, c.Rest());
    r := TakeFlagsItems(n, f, c);
  }

  /** The decoder: accepts exactly what the format gives a meaning, and returns
      that meaning. */
  method FromBytes(bytes: seq<byte>) returns (r: Result<GraphSnapshot, StoreError>)
    ensures match ReadSnapshot(bytes) case None => r.Err? case Some(x) => r == Ok(x)
  {
    var c := new ByteCursor(bytes);
    var version :- c.TakeU8();
    if !(1 <= version <= SNAPSHOT_VERSION) {
      return Err(UnsupportedVersion);
    }
    var x :- TakeSections(version, c);
    if !c.AtEnd() {
      return Err(TrailingBytes);
    }
    r := Ok(x);
  }

  method TakeSections(version: byte, c: ByteCursor) returns (r: Result<GraphSnapshot, StoreError>)
    requires c.Valid()
    modifies c
    ensures c.Valid() && Took(ReadSections(version, old(c.Rest())), r, c.Rest())
  {
    var symbols :- TakeSymbols(c);
    var relationships :- TakeRelationships(version, c);
    var aliasChains :- TakeChains(c);
    var fileReexports: seq<(string, seq<ReExportEntry>)> := [];
    if version >= 2 { fileReexports :- TakeAllReExports(c); }
    var assertions: seq<(string, u32)> := [];
    if version >= 4 { assertions :- TakeCounts(c); }
    var assertionsCounted: seq<(string, bool)> := [];
    if version >= 4 { assertionsCounted :- TakeFlags(c); }
    var unboundReferences: seq<(string, u32)> := [];
    if version >= 5 { unboundReferences :- TakeCounts(c); }
    var unboundOutside: seq<(string, u32)> := [];
    if version >= 6 { unboundOutside :- TakeCounts(c); }
    r := Ok(GraphSnapshot(symbols, relationships, aliasChains, fileReexports, assertions,
                          assertionsCounted, unboundReferences, unboundOutside));
  }

  // ── what can be written ─────────────────────────────────────

  /** Encoding fails only on a string too long for its length field. A list that
      is too long does not fail: its count is cast. */
  predicate Spells<T>(spells: T -> bool, xs: seq<T>) {
    forall i :: 0 <= i < |xs| ==> spells(xs[i])
  }

  predicate SpellsRelationship(x: Relationship) {
    && FitsString(x.from) && FitsString(x.to) && FitsOptional(x.alias)
    && Spells(FitsString, x.properties) && FitsString(x.context) && FitsString(x.file)
  }

  predicate SpellsChain(x: (string, seq<AliasEntry>)) { FitsString(x.0) && Spells(FitsAlias, x.1) }
  predicate SpellsReExports(x: (string, seq<ReExportEntry>)) { FitsString(x.0) && Spells(FitsReExport, x.1) }

  predicate SpellsSnapshot(x: GraphSnapshot) {
    && Spells(FitsSymbol, x.symbols) && Spells(SpellsRelationship, x.relationships)
    && Spells(SpellsChain, x.aliasChains) && Spells(SpellsReExports, x.fileReexports)
    && Spells(FitsCount, x.assertions) && Spells(FitsFlag, x.assertionsCounted)
    && Spells(FitsCount, x.unboundReferences) && Spells(FitsCount, x.unboundOutside)
  }

  // ── the buffer ──────────────────────────────────────────────

  /** Written bytes. A write is described by what the buffer becomes in front of
      any continuation. */
  class ByteBuffer {
    var data: seq<byte>

    constructor ()
      ensures data == []
    {
      data := [];
    }

    method PutU8(b: byte)
      modifies this
      ensures forall k :: data + k == old(data) + WriteU8(b, k)
    {
      data := data + [b];
    }

    method PutU32(n: nat)
      modifies this
      ensures forall k :: data + k == old(data) + WriteU32(n, k)
    {
      data := data + [n % 256, n / 256 % 256, n / 256 / 256 % 256, n / 256 / 256 / 256 % 256];
    }

    method PutString(x: string) returns (r: Result<(), StoreError>)
      modifies this
      ensures r.Ok? <==> FitsString(x)
      ensures r.Ok? ==> forall k :: data + k == old(data) + WriteString(x, k)
    {
      var bytes := Utf8.Encode(x);
      if |bytes| >= LIMIT {
        return Err(StringTooLarge);
      }
      PutU32(|bytes|);
      ghost var counted := data;
      data := data + bytes;
      assert forall k :: data + k == counted + (bytes + k);
      r := Ok(());
    }

    method PutOptional(x: Option<string>) returns (r: Result<(), StoreError>)
      modifies this
      ensures r.Ok? <==> FitsOptional(x)
      ensures r.Ok? ==> forall k :: data + k == old(data) + WriteOptional(x, k)
    {
      match x {
        case None =>
          PutU8(0);
          r := Ok(());
        case Some(v) =>
          PutU8(1);
          r := PutString(v);
      }
    }
  }

  ghost predicate SameWriter<T(!new)>(g: Writer<T>, write: Writer<T>) {
    forall x, k {:trigger write(x, k)} :: g(x, k) == write(x, k)
  }

  lemma StandInWriter<T(!new)>(write: Writer<T>) returns (g: Writer<T>)
    ensures SameWriter(g, write)
  {
    g := write;
  }

  lemma SameWriterAt<T(!new)>(g: Writer<T>, write: Writer<T>, x: T, k: seq<byte>)
    requires SameWriter(g, write)
    ensures g(x, k) == write(x, k)
  {
  }

  lemma {:induction false} SameWriteAll<T(!new)>(g: Writer<T>, write: Writer<T>, xs: seq<T>, k: seq<byte>)
    requires SameWriter(g, write)
    ensures WriteAll(g, xs, k) == WriteAll(write, xs, k)
  {
    if |xs| > 0 {
      SameWriteAll(g, write, xs[1..], k);
      SameWriterAt(g, write, xs[0], WriteAll(write, xs[1..], k));
    }
  }

  lemma WriteAllStep<T(!new)>(g: Writer<T>, xs: seq<T>, i: nat, k: seq<byte>)
    requires i < |xs|
    ensures WriteAll(g, xs[i..], k) == g(xs[i], WriteAll(g, xs[i + 1..], k))
  {
    assert xs[i..][1..] == xs[i + 1..];
  }

  // ── writing records ─────────────────────────────────────────

  method PutSymbol(x: Symbol, ghost g: Writer<Symbol>, out: ByteBuffer) returns (r: Result<(), StoreError>)
    requires SameWriter(g, WriteSymbol)
    modifies out
    ensures r.Ok? <==> FitsSymbol(x)
    ensures r.Ok? ==> forall k :: out.data + k == old(out.data) + g(x, k)
  {
    forall k { SameWriterAt(g, WriteSymbol, x, k); }
    var _ :- out.PutString(x.id);
    var _ :- out.PutString(x.name);
    out.PutU8(KindCode(x.kind));
    out.PutU8(LanguageCode(x.language));
    var _ :- out.PutString(x.file);
    out.PutU32(x.lineStart);
    out.PutU32(x.lineEnd);
    var _ :- out.PutOptional(x.signature);
    r := Ok(());
  }

  method PutSymbolsItems(xs: seq<Symbol>, ghost g: Writer<Symbol>, out: ByteBuffer) returns (r: Result<(), StoreError>)
    requires SameWriter(g, WriteSymbol)
    modifies out
    ensures r.Ok? <==> Spells(FitsSymbol, xs)
    ensures r.Ok? ==> forall k :: out.data + k == old(out.data) + WriteAll(g, xs, k)
  {
    ghost var before := out.data;
    for i := 0 to |xs|
      invariant Spells(FitsSymbol, xs[..i])
      invariant forall k :: out.data + WriteAll(g, xs[i..], k) == before + WriteAll(g, xs, k)
    {
      forall k { WriteAllStep(g, xs, i, k); }
      assert xs[..i + 1] == xs[..i] + [xs[i]];
      var _ :- PutSymbol(xs[i], g, out);
    }
    assert xs[..|xs|] == xs && xs[|xs|..] == [];
    r := Ok(());
  }

  method PutSymbols(xs: seq<Symbol>, out: ByteBuffer) returns (r: Result<(), StoreError>)
    modifies out
    ensures r.Ok? <==> Spells(FitsSymbol, xs)
    ensures r.Ok? ==> forall k :: out.data + k == old(out.data) + WriteList(WriteSymbol, xs, k)
  {
    out.PutU32(|xs|);
    ghost var g := StandInWriter(WriteSymbol);
    forall k { SameWriteAll(g, WriteSymbol, xs, k); }
    r := PutSymbolsItems(xs, g, out);
  }

  method PutText(x: string, ghost g: Writer<string>, out: ByteBuffer) returns (r: Result<(), StoreError>)
    requires SameWriter(g, WriteString)
    modifies out
    ensures r.Ok? <==> FitsString(x)
    ensures r.Ok? ==> forall k :: out.data + k == old(out.data) + g(x, k)
  {
    forall k { SameWriterAt(g, WriteString, x, k); }
    var _ :- out.PutString(x);
    r := Ok(());
  }

  method PutStringsItems(xs: seq<string>, ghost g: Writer<string>, out: ByteBuffer) returns (r: Result<(), StoreError>)
    requires SameWriter(g, WriteString)
    modifies out
    ensures r.Ok? <==> Spells(FitsString, xs)
    ensures r.Ok? ==> forall k :: out.data + k == old(out.data) + WriteAll(g, xs, k)
  {
    ghost var before := out.data;
    for i := 0 to |xs|
      invariant Spells(FitsString, xs[..i])
      invariant forall k :: out.data + WriteAll(g, xs[i..], k) == before + WriteAll(g, xs, k)
    {
      forall k { WriteAllStep(g, xs, i, k); }
      assert xs[..i + 1] == xs[..i] + [xs[i]];
      var _ :- PutText(xs[i], g, out);
    }
    assert xs[..|xs|] == xs && xs[|xs|..] == [];
    r := Ok(());
  }

  method PutStrings(xs: seq<string>, out: ByteBuffer) returns (r: Result<(), StoreError>)
    modifies out
    ensures r.Ok? <==> Spells(FitsString, xs)
    ensures r.Ok? ==> forall k :: out.data + k == old(out.data) + WriteList(WriteString, xs, k)
  {
    out.PutU32(|xs|);
    ghost var g := StandInWriter(WriteString);
    forall k { SameWriteAll(g, WriteString, xs, k); }
    r := PutStringsItems(xs, g, out);
  }

  method PutOrigin(x: Relationship, out: ByteBuffer) returns (r: Result<(), StoreError>)
    modifies out
    ensures r.Ok? <==> FitsString(x.context) && FitsString(x.file)
    ensures r.Ok? ==> forall k :: out.data + k == old(out.data)
                        + WriteString(x.context, WriteString(x.file, WriteU32(x.line,
                          WriteResolution(SNAPSHOT_VERSION, x.resolution, k))))
  {
    var _ :- out.PutString(x.context);
    var _ :- out.PutString(x.file);
    out.PutU32(x.line);
    out.PutU8(ResolutionCode(x.resolution));
    r := Ok(());
  }

  lemma RelationshipParts(x: Relationship, k: seq<byte>)
    ensures RelationshipWriter(SNAPSHOT_VERSION)(x, k) ==
      WriteString(x.from, WriteString(x.to, WriteU8(RelationshipCode(x.kind), WriteOptional(x.alias,
      WriteList(WriteString, x.properties, WriteString(x.context, WriteString(x.file, WriteU32(x.line,
      WriteResolution(SNAPSHOT_VERSION, x.resolution, k)))))))))
  {
  }

  method PutRelationship(x: Relationship, ghost g: Writer<Relationship>, out: ByteBuffer) returns (r: Result<(), StoreError>)
    requires SameWriter(g, RelationshipWriter(SNAPSHOT_VERSION))
    modifies out
    ensures r.Ok? <==> SpellsRelationship(x)
    ensures r.Ok? ==> forall k :: out.data + k == old(out.data) + g(x, k)
  {
    ghost var d0 := out.data;
    var _ :- out.PutString(x.from);
    ghost var d1 := out.data;
    var _ :- out.PutString(x.to);
    ghost var d2 := out.data;
    out.PutU8(RelationshipCode(x.kind));
    ghost var d3 := out.data;
    var _ :- out.PutOptional(x.alias);
    ghost var d4 := out.data;
    var _ :- PutStrings(x.properties, out);
    ghost var d5 := out.data;
    var _ :- PutOrigin(x, out);
    forall k ensures out.data + k == d0 + g(x, k) {
      var k5 := WriteString(x.context, WriteString(x.file, WriteU32(x.line, WriteResolution(SNAPSHOT_VERSION, x.resolution, k))));
      var k4 := WriteList(WriteString, x.properties, k5);
      var k3 := WriteOptional(x.alias, k4);
      var k2 := WriteU8(RelationshipCode(x.kind), k3);
      var k1 := WriteString(x.to, k2);
      assert out.data + k == d5 + k5 && d5 + k5 == d4 + k4 && d4 + k4 == d3 + k3;
      assert d3 + k3 == d2 + k2 && d2 + k2 == d1 + k1 && d1 + k1 == d0 + WriteString(x.from, k1);
      SameWriterAt(g, RelationshipWriter(SNAPSHOT_VERSION), x, k);
      RelationshipParts(x, k);
      assert g(x, k) == WriteString(x.from, k1);
    }
    r := Ok(());
  }

  method PutRelationshipsItems(xs: seq<Relationship>, ghost g: Writer<Relationship>, out: ByteBuffer) returns (r: Result<(), StoreError>)
    requires SameWriter(g, RelationshipWriter(SNAPSHOT_VERSION))
    modifies out
    ensures r.Ok? <==> Spells(SpellsRelationship, xs)
    ensures r.Ok? ==> forall k :: out.data + k == old(out.data) + WriteAll(g, xs, k)
  {
    ghost var before := out.data;
    for i := 0 to |xs|
      invariant Spells(SpellsRelationship, xs[..i])
      invariant forall k :: out.data + WriteAll(g, xs[i..], k) == before + WriteAll(g, xs, k)
    {
      forall k { WriteAllStep(g, xs, i, k); }
      assert xs[..i + 1] == xs[..i] + [xs[i]];
      var _ :- PutRelationship(xs[i], g, out);
    }
    assert xs[..|xs|] == xs && xs[|xs|..] == [];
    r := Ok(());
  }

  method PutRelationships(xs: seq<Relationship>, out: ByteBuffer) returns (r: Result<(), StoreError>)
    modifies out
    ensures r.Ok? <==> Spells(SpellsRelationship, xs)
    ensures r.Ok? ==> forall k :: out.data + k == old(out.data) + WriteList(RelationshipWriter(SNAPSHOT_VERSION), xs, k)
  {
    out.PutU32(|xs|);
    ghost var g := StandInWriter(RelationshipWriter(SNAPSHOT_VERSION));
    forall k { SameWriteAll(g, RelationshipWriter(SNAPSHOT_VERSION), xs, k); }
    r := PutRelationshipsItems(xs, g, out);
  }

  method PutAlias(x: AliasEntry, ghost g: Writer<AliasEntry>, out: ByteBuffer) returns (r: Result<(), StoreError>)
    requires SameWriter(g, WriteAlias)
    modifies out
    ensures r.Ok? <==> FitsAlias(x)
    ensures r.Ok? ==> forall k :: out.data + k == old(out.data) + g(x, k)
  {
    forall k { SameWriterAt(g, WriteAlias, x, k); }
    var _ :- out.PutString(x.aliasName);
    var _ :- out.PutString(x.definedInFile);
    out.PutU8(ScopeCode(x.scope));
    r := Ok(());
  }

  method PutAliasesItems(xs: seq<AliasEntry>, ghost g: Writer<AliasEntry>, out: ByteBuffer) returns (r: Result<(), StoreError>)
    requires SameWriter(g, WriteAlias)
    modifies out
    ensures r.Ok? <==> Spells(FitsAlias, xs)
    ensures r.Ok? ==> forall k :: out.data + k == old(out.data) + WriteAll(g, xs, k)
  {
    ghost var before := out.data;
    for i := 0 to |xs|
      invariant Spells(FitsAlias, xs[..i])
      invariant forall k :: out.data + WriteAll(g, xs[i..], k) == before + WriteAll(g, xs, k)
    {
      forall k { WriteAllStep(g, xs, i, k); }
      assert xs[..i + 1] == xs[..i] + [xs[i]];
      var _ :- PutAlias(xs[i], g, out);
    }
    assert xs[..|xs|] == xs && xs[|xs|..] == [];
    r := Ok(());
  }

  method PutAliases(xs: seq<AliasEntry>, out: ByteBuffer) returns (r: Result<(), StoreError>)
    modifies out
    ensures r.Ok? <==> Spells(FitsAlias, xs)
    ensures r.Ok? ==> forall k :: out.data + k == old(out.data) + WriteList(WriteAlias, xs, k)
  {
    out.PutU32(|xs|);
    ghost var g := StandInWriter(WriteAlias);
    forall k { SameWriteAll(g, WriteAlias, xs, k); }
    r := PutAliasesItems(xs, g, out);
  }

  method PutChain(x: (string, seq<AliasEntry>), ghost g: Writer<(string, seq<AliasEntry>)>, out: ByteBuffer) returns (r: Result<(), StoreError>)
    requires SameWriter(g, WriteChain)
    modifies out
    ensures r.Ok? <==> SpellsChain(x)
    ensures r.Ok? ==> forall k :: out.data + k == old(out.data) + g(x, k)
  {
    forall k { SameWriterAt(g, WriteChain, x, k); }
    var _ :- out.PutString(x.0);
    var _ :- PutAliases(x.1, out);
    r := Ok(());
  }

  method PutChainsItems(xs: seq<(string, seq<AliasEntry>)>, ghost g: Writer<(string, seq<AliasEntry>)>, out: ByteBuffer) returns (r: Result<(), StoreError>)
    requires SameWriter(g, WriteChain)
    modifies out
    ensures r.Ok? <==> Spells(SpellsChain, xs)
    ensures r.Ok? ==> forall k :: out.data + k == old(out.data) + WriteAll(g, xs, k)
  {
    ghost var before := out.data;
    for i := 0 to |xs|
      invariant Spells(SpellsChain, xs[..i])
      invariant forall k :: out.data + WriteAll(g, xs[i..], k) == before + WriteAll(g, xs, k)
    {
      forall k { WriteAllStep(g, xs, i, k); }
      assert xs[..i + 1] == xs[..i] + [xs[i]];
      var _ :- PutChain(xs[i], g, out);
    }
    assert xs[..|xs|] == xs && xs[|xs|..] == [];
    r := Ok(());
  }

  method PutChains(xs: seq<(string, seq<AliasEntry>)>, out: ByteBuffer) returns (r: Result<(), StoreError>)
    modifies out
    ensures r.Ok? <==> Spells(SpellsChain, xs)
    ensures r.Ok? ==> forall k :: out.data + k == old(out.data) + WriteList(WriteChain, xs, k)
  {
    out.PutU32(|xs|);
    ghost var g := StandInWriter(WriteChain);
    forall k { SameWriteAll(g, WriteChain, xs, k); }
    r := PutChainsItems(xs, g, out);
  }

  method PutReExport(x: ReExportEntry, ghost g: Writer<ReExportEntry>, out: ByteBuffer) returns (r: Result<(), StoreError>)
    requires SameWriter(g, WriteReExport)
    modifies out
    ensures r.Ok? <==> FitsReExport(x)
    ensures r.Ok? ==> forall k :: out.data + k == old(out.data) + g(x, k)
  {
    forall k { SameWriterAt(g, WriteReExport, x, k); }
    var _ :- out.PutString(x.exportedName);
    var _ :- out.PutString(x.sourceModule);
    r := Ok(());
  }

  method PutReExportEntriesItems(xs: seq<ReExportEntry>, ghost g: Writer<ReExportEntry>, out: ByteBuffer) returns (r: Result<(), StoreError>)
    requires SameWriter(g, WriteReExport)
    modifies out
    ensures r.Ok? <==> Spells(FitsReExport, xs)
    ensures r.Ok? ==> forall k :: out.data + k == old(out.data) + WriteAll(g, xs, k)
  {
    ghost var before := out.data;
    for i := 0 to |xs|
      invariant Spells(FitsReExport, xs[..i])
      invariant forall k :: out.data + WriteAll(g, xs[i..], k) == before + WriteAll(g, xs, k)
    {
      forall k { WriteAllStep(g, xs, i, k); }
      assert xs[..i + 1] == xs[..i] + [xs[i]];
      var _ :- PutReExport(xs[i], g, out);
    }
    assert xs[..|xs|] == xs && xs[|xs|..] == [];
    r := Ok(());
  }

  method PutReExportEntries(xs: seq<ReExportEntry>, out: ByteBuffer) returns (r: Result<(), StoreError>)
    modifies out
    ensures r.Ok? <==> Spells(FitsReExport, xs)
    ensures r.Ok? ==> forall k :: out.data + k == old(out.data) + WriteList(WriteReExport, xs, k)
  {
    out.PutU32(|xs|);
    ghost var g := StandInWriter(WriteReExport);
    forall k { SameWriteAll(g, WriteReExport, xs, k); }
    r := PutReExportEntriesItems(xs, g, out);
  }

  method PutFileReExports(x: (string, seq<ReExportEntry>), ghost g: Writer<(string, seq<ReExportEntry>)>, out: ByteBuffer) returns (r: Result<(), StoreError>)
    requires SameWriter(g, WriteReExports)
    modifies out
    ensures r.Ok? <==> SpellsReExports(x)
    ensures r.Ok? ==> forall k :: out.data + k == old(out.data) + g(x, k)
  {
    forall k { SameWriterAt(g, WriteReExports, x, k); }
    var _ :- out.PutString(x.0);
    var _ :- PutReExportEntries(x.1, out);
    r := Ok(());
  }

  method PutAllReExportsItems(xs: seq<(string, seq<ReExportEntry>)>, ghost g: Writer<(string, seq<ReExportEntry>)>, out: ByteBuffer) returns (r: Result<(), StoreError>)
    requires SameWriter(g, WriteReExports)
    modifies out
    ensures r.Ok? <==> Spells(SpellsReExports, xs)
    ensures r.Ok? ==> forall k :: out.data + k == old(out.data) + WriteAll(g, xs, k)
  {
    ghost var before := out.data;
    for i := 0 to |xs|
      invariant Spells(SpellsReExports, xs[..i])
      invariant forall k :: out.data + WriteAll(g, xs[i..], k) == before + WriteAll(g, xs, k)
    {
      forall k { WriteAllStep(g, xs, i, k); }
      assert xs[..i + 1] == xs[..i] + [xs[i]];
      var _ :- PutFileReExports(xs[i], g, out);
    }
    assert xs[..|xs|] == xs && xs[|xs|..] == [];
    r := Ok(());
  }

  method PutAllReExports(xs: seq<(string, seq<ReExportEntry>)>, out: ByteBuffer) returns (r: Result<(), StoreError>)
    modifies out
    ensures r.Ok? <==> Spells(SpellsReExports, xs)
    ensures r.Ok? ==> forall k :: out.data + k == old(out.data) + WriteList(WriteReExports, xs, k)
  {
    out.PutU32(|xs|);
    ghost var g := StandInWriter(WriteReExports);
    forall k { SameWriteAll(g, WriteReExports, xs, k); }
    r := PutAllReExportsItems(xs, g, out);
  }

  method PutCount(x: (string, u32), ghost g: Writer<(string, u32)>, out: ByteBuffer) returns (r: Result<(), StoreError>)
    requires SameWriter(g, WriteCount)
    modifies out
    ensures r.Ok? <==> FitsCount(x)
    ensures r.Ok? ==> forall k :: out.data + k == old(out.data) + g(x, k)
  {
    forall k { SameWriterAt(g, WriteCount, x, k); }
    var _ :- out.PutString(x.0);
    out.PutU32(x.1);
    r := Ok(());
  }

  method PutCountsItems(xs: seq<(string, u32)>, ghost g: Writer<(string, u32)>, out: ByteBuffer) returns (r: Result<(), StoreError>)
    requires SameWriter(g, WriteCount)
    modifies out
    ensures r.Ok? <==> Spells(FitsCount, xs)
    ensures r.Ok? ==> forall k :: out.data + k == old(out.data) + WriteAll(g, xs, k)
  {
    ghost var before := out.data;
    for i := 0 to |xs|
      invariant Spells(FitsCount, xs[..i])
      invariant forall k :: out.data + WriteAll(g, xs[i..], k) == before + WriteAll(g, xs, k)
    {
      forall k { WriteAllStep(g, xs, i, k); }
      assert xs[..i + 1] == xs[..i] + [xs[i]];
      var _ :- PutCount(xs[i], g, out);
    }
    assert xs[..|xs|] == xs && xs[|xs|..] == [];
    r := Ok(());
  }

  method PutCounts(xs: seq<(string, u32)>, out: ByteBuffer) returns (r: Result<(), StoreError>)
    modifies out
    ensures r.Ok? <==> Spells(FitsCount, xs)
    ensures r.Ok? ==> forall k :: out.data + k == old(out.data) + WriteList(WriteCount, xs, k)
  {
    out.PutU32(|xs|);
    ghost var g := StandInWriter(WriteCount);
    forall k { SameWriteAll(g, WriteCount, xs, k); }
    r := PutCountsItems(xs, g, out);
  }

  method PutFlag(x: (string, bool), ghost g: Writer<(string, bool)>, out: ByteBuffer) returns (r: Result<(), StoreError>)
    requires SameWriter(g, WriteFlag)
    modifies out
    ensures r.Ok? <==> FitsFlag(x)
    ensures r.Ok? ==> forall k :: out.data + k == old(out.data) + g(x, k)
  {
    forall k { SameWriterAt(g, WriteFlag, x, k); }
    var _ :- out.PutString(x.0);
    out.PutU8(if x.1 then 1 else 0);
    r := Ok(());
  }

  method PutFlagsItems(xs: seq<(string, bool)>, ghost g: Writer<(string, bool)>, out: ByteBuffer) returns (r: Result<(), StoreError>)
    requires SameWriter(g, WriteFlag)
    modifies out
    ensures r.Ok? <==> Spells(FitsFlag, xs)
    ensures r.Ok? ==> forall k :: out.data + k == old(out.data) + WriteAll(g, xs, k)
  {
    ghost var before := out.data;
    for i := 0 to |xs|
      invariant Spells(FitsFlag, xs[..i])
      invariant forall k :: out.data + WriteAll(g, xs[i..], k) == before + WriteAll(g, xs, k)
    {
      forall k { WriteAllStep(g, xs, i, k); }
      assert xs[..i + 1] == xs[..i] + [xs[i]];
      var _ :- PutFlag(xs[i], g, out);
    }
    assert xs[..|xs|] == xs && xs[|xs|..] == [];
    r := Ok(());
  }

  method PutFlags(xs: seq<(string, bool)>, out: ByteBuffer) returns (r: Result<(), StoreError>)
    modifies out
    ensures r.Ok? <==> Spells(FitsFlag, xs)
    ensures r.Ok? ==> forall k :: out.data + k == old(out.data) + WriteList(WriteFlag, xs, k)
  {
    out.PutU32(|xs|);
    ghost var g := StandInWriter(WriteFlag);
    forall k { SameWriteAll(g, WriteFlag, xs, k); }
    r := PutFlagsItems(xs, g, out);
  }

  function SideTables(x: GraphSnapshot): seq<byte> {
    WriteList(WriteCount, x.assertions, WriteList(WriteFlag, x.assertionsCounted,
    WriteList(WriteCount, x.unboundReferences, WriteList(WriteCount, x.unboundOutside, []))))
  }

  lemma SnapshotParts(x: GraphSnapshot)
    ensures WriteSnapshot(SNAPSHOT_VERSION, x) ==
      WriteU8(SNAPSHOT_VERSION, WriteList(WriteSymbol, x.symbols,
      WriteList(RelationshipWriter(SNAPSHOT_VERSION), x.relationships, WriteList(WriteChain, x.aliasChains,
      WriteList(WriteReExports, x.fileReexports, SideTables(x))))))
  {
  }

  method PutSideTables(x: GraphSnapshot, out: ByteBuffer) returns (r: Result<(), StoreError>)
    modifies out
    ensures r.Ok? <==> && Spells(FitsCount, x.assertions) && Spells(FitsFlag, x.assertionsCounted)
                       && Spells(FitsCount, x.unboundReferences) && Spells(FitsCount, x.unboundOutside)
    ensures r.Ok? ==> out.data == old(out.data) + SideTables(x)
  {
    var _ :- PutCounts(x.assertions, out);
    var _ :- PutFlags(x.assertionsCounted, out);
    var _ :- PutCounts(x.unboundReferences, out);
    r := PutCounts(x.unboundOutside, out);
    assert r.Ok? ==> out.data + [] == out.data;
  }

  /** The encoder: fails exactly on an overlong string, and otherwise produces
      the current layout. */
  method ToBytes(x: GraphSnapshot) returns (r: Result<seq<byte>, StoreError>)
    ensures r.Ok? <==> SpellsSnapshot(x)
    ensures r.Ok? ==> r.value == WriteSnapshot(SNAPSHOT_VERSION, x)
  {
    var out := new ByteBuffer();
    out.PutU8(SNAPSHOT_VERSION);
    ghost var d1 := out.data;
    var _ :- PutSymbols(x.symbols, out);
    ghost var d2 := out.data;
    var _ :- PutRelationships(x.relationships, out);
    ghost var d3 := out.data;
    var _ :- PutChains(x.aliasChains, out);
    ghost var d4 := out.data;
    var _ :- PutAllReExports(x.fileReexports, out);
    ghost var d5 := out.data;
    var _ :- PutSideTables(x, out);
    ghost var k5 := SideTables(x);
    ghost var k4 := WriteList(WriteReExports, x.fileReexports, k5);
    ghost var k3 := WriteList(WriteChain, x.aliasChains, k4);
    ghost var k2 := WriteList(RelationshipWriter(SNAPSHOT_VERSION), x.relationships, k3);
    ghost var k1 := WriteList(WriteSymbol, x.symbols, k2);
    assert out.data == d5 + k5 && d5 + k5 == d4 + k4 && d4 + k4 == d3 + k3 && d3 + k3 == d2 + k2;
    assert d2 + k2 == d1 + k1 && d1 + k1 == [] + WriteU8(SNAPSHOT_VERSION, k1);
    SnapshotParts(x);
    r := Ok(out.data);
  }

  /** A snapshot that encodes comes back from its own bytes exactly when every
      list fits its 32-bit count. */
  method SaveAndLoad(x: GraphSnapshot) returns (r: Result<GraphSnapshot, StoreError>)
    ensures r == Ok(x) <==> Fits(SNAPSHOT_VERSION, x)
  {
    LosslessExactly(x);
    if Fits(SNAPSHOT_VERSION, x) { FitsSpells(x); }
    var bytes :- ToBytes(x);
    r := FromBytes(bytes);
  }

  lemma FitsSpells(x: GraphSnapshot)
    requires Fits(SNAPSHOT_VERSION, x)
    ensures SpellsSnapshot(x)
  {
    assert forall i :: 0 <= i < |x.relationships| ==> RelationshipFits(SNAPSHOT_VERSION)(x.relationships[i]);
  }

  /** One reference with 2^32 properties. */
  const CROWDED: GraphSnapshot := GraphSnapshot(
    [], [Relationship("a", "b", Calls, None, seq(LIMIT, i => ""), "", "f", 1, Structural)], [], [], [], [], [], [])

  /** Every string in it is short, so it is written without an error, and what is
      written does not read back as it. */
  lemma CrowdedIsLost()
    ensures SpellsSnapshot(CROWDED)
    ensures ReadSnapshot(WriteSnapshot(SNAPSHOT_VERSION, CROWDED)) != Some(CROWDED)
  {
    var r := CROWDED.relationships[0];
    assert |r.properties| == LIMIT;
    ShortStringsFit();
    assert SpellsRelationship(r);
    assert !RelationshipFits(SNAPSHOT_VERSION)(r);
    assert !Fits(SNAPSHOT_VERSION, CROWDED);
    LosslessExactly(CROWDED);
  }

  lemma ShortStringsFit()
    ensures FitsString("") && FitsString("a") && FitsString("b") && FitsString("f")
  {
  }
}
