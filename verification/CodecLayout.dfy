/** The bytes themselves: what a scalar, a code and a whole snapshot come out as, and what
    odd bytes are read as (sqlite.rs). */
module CodecLayout {
  import opened Wrappers
  import opened Bytes
  import opened Ir
  import opened Codec
  import opened CodecLaws
  import Utf8

  /** The four forms of section 3 of RFC 3629. */
  lemma ScalarBytes(c: char)
    ensures var v := c as int;
      Utf8.EncodeScalar(c) ==
        if v < 0x80 then [v]
        else if v < 0x800 then [0xC0 + v / 64, 0x80 + v % 64]
        else if v < 0x1_0000 then [0xE0 + v / 64 / 64, 0x80 + v / 64 % 64, 0x80 + v % 64]
        else [0xF0 + v / 64 / 64 / 64, 0x80 + v / 64 / 64 % 64, 0x80 + v / 64 % 64, 0x80 + v % 64]
  {
    var v := c as int;
    Utf8.LeadFits(v);
    Groups(v, v / 64, v / 64 / 64, v / 64 / 64 / 64);
    hide Utf8.Lead, Utf8.Tail;
  }

  lemma Groups(v: nat, a: nat, b: nat, c: nat)
    requires a == v / 64 && b == a / 64 && c == b / 64
    ensures Utf8.Lead(v, 0) == v && Utf8.Lead(v, 1) == a && Utf8.Lead(v, 2) == b && Utf8.Lead(v, 3) == c
    ensures Utf8.Tail(v, 0) == [] && Utf8.Tail(v, 1) == [0x80 + v % 64]
    ensures Utf8.Tail(v, 2) == [0x80 + a % 64, 0x80 + v % 64]
    ensures Utf8.Tail(v, 3) == [0x80 + b % 64, 0x80 + a % 64, 0x80 + v % 64]
  {
    OneGroup(v, a, 0);
    OneGroup(v, a, 1);
    OneGroup(v, a, 2);
    OneGroup(a, b, 0);
    OneGroup(a, b, 1);
    OneGroup(b, c, 0);
    NoGroup(v);
    NoGroup(a);
    NoGroup(b);
    NoGroup(c);
    hide Utf8.Lead, Utf8.Tail;
  }

  lemma NoGroup(v: nat)
    ensures Utf8.Lead(v, 0) == v && Utf8.Tail(v, 0) == []
  {
  }

  lemma OneGroup(v: nat, a: nat, n: nat)
    requires a == v / 64
    ensures Utf8.Lead(v, n + 1) == Utf8.Lead(a, n) && Utf8.Tail(v, n + 1) == Utf8.Tail(a, n) + [0x80 + v % 64]
  {
  }

  // ── code tables ─────────────────────────────────────────────

  /** Codes run from one, in these orders, and no other byte is one. */
  predicate IsTable<T(==)>(order: seq<T>, code: T -> byte, of: byte -> Option<T>) {
    && (forall i :: 0 <= i < |order| ==> code(order[i]) == i + 1)
    && forall b: byte :: of(b) == if 1 <= b <= |order| then Some(order[b - 1]) else None
  }

  lemma KindCodes()
    ensures IsTable(
      [Class, Interface, TypeAlias, Function, Method, Property, Variable, Module, Enum, EnumVariant, ExternalPackage],
      KindCode, KindOf)
  {
  }

  lemma LanguageCodes()
    ensures IsTable(
      [TypeScript, JavaScript, Python, Rust, Go, Java, C, Cpp, Ruby, Php, CSharp, Kotlin, Swift, Sql, Lua],
      LanguageCode, LanguageOf)
  {
  }

  lemma RelationshipCodes()
    ensures IsTable(
      [Imports, Calls, Extends, Implements, UsesType, AccessesProperty, ReExports, Instantiates, Tests],
      RelationshipCode, RelationshipOf)
  {
  }

  lemma ScopeCodes()
    ensures IsTable([ImportAlias, ReExportAlias, BarrelReExport, DefaultImport], ScopeCode, ScopeOf)
  {
  }

  /** The weakest resolution is zero, and what any byte but one is read as. */
  lemma OddResolutionIsWeak(b: byte)
    ensures ResolutionCode(Structural) == 0 && ResolutionCode(Resolved) == 1
    ensures ResolutionOf(b) == Resolved <==> b == 1
  {
  }

  /** Any flag but zero is set, and any mark but zero has a string after it. */
  lemma OddFlagIsSet(x: string, b: byte, k: seq<byte>)
    requires |Utf8.Encode(x)| < 0x1_0000_0000
    ensures ReadFlag(WriteString(x, [b] + k)) == Parsed((x, b != 0), k)
    ensures b != 0 ==> ReadOptional([b] + WriteString(x, k)) == Parsed(Some(x), k)
    ensures ReadOptional([0] + k) == Parsed(None, k)
  {
    StringRoundTrip(x, [b] + k);
    StringRoundTrip(x, k);
    hide WriteString, ReadString;
    assert ([b] + k)[1..] == k && ([0] + k)[1..] == k;
    assert ([b] + WriteString(x, k))[1..] == WriteString(x, k);
  }

  // ── a snapshot, byte by byte ────────────────────────────────

  /** A length of one, and an ASCII character. */
  lemma OneCharacter(c: char, k: seq<byte>)
    requires c as int < 0x80
    ensures WriteString([c], k) == [1, 0, 0, 0, c as int] + k
  {
    ScalarBytes(c);
    assert [c][1..] == [];
    assert Utf8.Encode([c]) == Utf8.EncodeScalar(c) + Utf8.Encode([]);
    assert Utf8.Encode([c]) == [c as int];
    assert [c as int] + k == ([c as int] + k);
    hide Utf8.Encode, Utf8.EncodeScalar;
  }

  /** Least byte first. */
  lemma FourBytes(a: byte, b: byte, c: byte, d: byte, k: seq<byte>)
    ensures WriteU32(a + 256 * (b + 256 * (c + 256 * d)), k) == [a, b, c, d] + k
  {
    var n := a + 256 * (b + 256 * (c + 256 * d));
    assert n % 256 == a && n / 256 == b + 256 * (c + 256 * d);
    assert n / 256 % 256 == b && n / 256 / 256 == c + 256 * d;
  }

  lemma Small(n: byte, k: seq<byte>)
    ensures WriteU32(n, k) == [n, 0, 0, 0] + k
  {
    FourBytes(n, 0, 0, 0, k);
  }

  lemma OneItem<T>(write: Writer<T>, x: T, k: seq<byte>)
    ensures WriteList(write, [x], k) == [1, 0, 0, 0] + write(x, k)
  {
    Small(1, write(x, k));
    assert [x][1..] == [];
    assert WriteAll(write, [x], k) == write(x, WriteAll(write, [], k));
  }

  /** What a symbol is spelled as, field by field. */
  function SymbolBytes(k: seq<byte>): seq<byte> {
    [1, 0, 0, 0, 97] + ([1, 0, 0, 0, 98] + ([5] + ([5] + ([1, 0, 0, 0, 102]
    + ([1, 0, 0, 0] + ([2, 0, 0, 0] + ([1] + ([1, 0, 0, 0, 115] + k))))))))
  }

  lemma SomeSymbol(k: seq<byte>)
    ensures WriteSymbol(Symbol("a", "b", Method, Go, "f", 1, 2, Some("s")), k) == SymbolBytes(k)
  {
    OneCharacter('s', k);
    var k1 := [1] + ([1, 0, 0, 0, 115] + k);
    Small(2, k1);
    var k2 := [2, 0, 0, 0] + k1;
    Small(1, k2);
    var k3 := [1, 0, 0, 0] + k2;
    OneCharacter('f', k3);
    var k4 := [5] + ([5] + ([1, 0, 0, 0, 102] + k3));
    OneCharacter('b', k4);
    OneCharacter('a', [1, 0, 0, 0, 98] + k4);
    hide WriteString, WriteU32;
  }

  function RelationshipBytes(k: seq<byte>): seq<byte> {
    [1, 0, 0, 0, 97] + ([1, 0, 0, 0, 99] + ([2] + ([1] + ([1, 0, 0, 0, 100]
    + ([1, 0, 0, 0] + ([1, 0, 0, 0, 112] + ([1, 0, 0, 0, 120] + ([1, 0, 0, 0, 102]
    + ([3, 0, 0, 0] + ([1] + k))))))))))
  }

  lemma SomeRelationship(k: seq<byte>)
    ensures WriteRelationship(6, Relationship("a", "c", Calls, Some("d"), ["p"], "x", "f", 3, Resolved), k)
      == RelationshipBytes(k)
  {
    var k1 := [1] + k;
    Small(3, k1);
    var k2 := [3, 0, 0, 0] + k1;
    OneCharacter('f', k2);
    var k3 := [1, 0, 0, 0, 102] + k2;
    OneCharacter('x', k3);
    var k4 := [1, 0, 0, 0, 120] + k3;
    OneItem(WriteString, "p", k4);
    OneCharacter('p', k4);
    var k5 := [1, 0, 0, 0] + ([1, 0, 0, 0, 112] + k4);
    OneCharacter('d', k5);
    var k6 := [2] + ([1] + ([1, 0, 0, 0, 100] + k5));
    OneCharacter('c', k6);
    OneCharacter('a', [1, 0, 0, 0, 99] + k6);
    hide WriteString, WriteU32, WriteList;
  }

  const SAMPLE: GraphSnapshot := GraphSnapshot(
    [Symbol("a", "b", Method, Go, "f", 1, 2, Some("s"))],
    [Relationship("a", "c", Calls, Some("d"), ["p"], "x", "f", 3, Resolved)],
    [("a", [AliasEntry("n", "f", BarrelReExport)])], [("f", [ReExportEntry("e", "m")])],
    [("a", 7)], [("f", true)], [("f", 8)], [("g", 9)])

  /** One of everything, in the order version 6 writes it. */
  lemma OneOfEverything()
    ensures WriteSnapshot(SNAPSHOT_VERSION, SAMPLE)
      == [6] + ([1, 0, 0, 0] + SymbolBytes([1, 0, 0, 0] + RelationshipBytes(SideBytes())))
  {
    SideSections();
    var k := SideBytes();
    SomeRelationship(k);
    OneItem(RelationshipWriter(6), SAMPLE.relationships[0], k);
    var k2 := [1, 0, 0, 0] + RelationshipBytes(k);
    SomeSymbol(k2);
    OneItem(WriteSymbol, SAMPLE.symbols[0], k2);
    hide WriteList, WriteSymbol, WriteRelationship, WriteSection, SideBytes, SymbolBytes, RelationshipBytes;
  }

  /** The alias chains, the re-exports, and the counts. */
  function SideBytes(): seq<byte> {
    ChainBytes(ReExportBytes([1, 0, 0, 0, 1, 0, 0, 0, 97, 7, 0, 0, 0] + ([1, 0, 0, 0, 1, 0, 0, 0, 102, 1]
    + ([1, 0, 0, 0, 1, 0, 0, 0, 102, 8, 0, 0, 0] + [1, 0, 0, 0, 1, 0, 0, 0, 103, 9, 0, 0, 0]))))
  }

  function ChainBytes(k: seq<byte>): seq<byte> {
    [1, 0, 0, 0] + ([1, 0, 0, 0, 97] + ([1, 0, 0, 0] + ([1, 0, 0, 0, 110] + ([1, 0, 0, 0, 102] + ([3] + k)))))
  }

  function ReExportBytes(k: seq<byte>): seq<byte> {
    [1, 0, 0, 0] + ([1, 0, 0, 0, 102] + ([1, 0, 0, 0] + ([1, 0, 0, 0, 101] + ([1, 0, 0, 0, 109] + k))))
  }

  lemma SomeCount(c: char, n: byte, k: seq<byte>)
    requires c as int < 0x80
    ensures WriteList(WriteCount, [([c], n as u32)], k) == [1, 0, 0, 0, 1, 0, 0, 0, c as int, n, 0, 0, 0] + k
  {
    OneItem(WriteCount, ([c], n as u32), k);
    Small(n, k);
    OneCharacter(c, [n, 0, 0, 0] + k);
    hide WriteList, WriteString, WriteU32;
  }

  lemma SomeFlag(c: char, k: seq<byte>)
    requires c as int < 0x80
    ensures WriteList(WriteFlag, [([c], true)], k) == [1, 0, 0, 0, 1, 0, 0, 0, c as int, 1] + k
  {
    OneItem(WriteFlag, ([c], true), k);
    OneCharacter(c, [1] + k);
    hide WriteList, WriteString;
  }

  lemma SomeReExport(k: seq<byte>)
    ensures WriteList(WriteReExports, [("f", [ReExportEntry("e", "m")])], k) == ReExportBytes(k)
  {
    OneItem(WriteReExports, ("f", [ReExportEntry("e", "m")]), k);
    OneItem(WriteReExport, ReExportEntry("e", "m"), k);
    OneCharacter('m', k);
    OneCharacter('e', [1, 0, 0, 0, 109] + k);
    OneCharacter('f', [1, 0, 0, 0] + ([1, 0, 0, 0, 101] + ([1, 0, 0, 0, 109] + k)));
    hide WriteList, WriteString;
  }

  lemma SomeChain(k: seq<byte>)
    ensures WriteList(WriteChain, [("a", [AliasEntry("n", "f", BarrelReExport)])], k) == ChainBytes(k)
  {
    OneItem(WriteChain, ("a", [AliasEntry("n", "f", BarrelReExport)]), k);
    OneItem(WriteAlias, AliasEntry("n", "f", BarrelReExport), k);
    OneCharacter('f', [3] + k);
    OneCharacter('n', [1, 0, 0, 0, 102] + ([3] + k));
    OneCharacter('a', [1, 0, 0, 0] + ([1, 0, 0, 0, 110] + ([1, 0, 0, 0, 102] + ([3] + k))));
    hide WriteList, WriteString;
  }

  lemma SideSections()
    ensures WriteList(WriteChain, [("a", [AliasEntry("n", "f", BarrelReExport)])],
      WriteSection(true, WriteReExports, [("f", [ReExportEntry("e", "m")])],
      WriteSection(true, WriteCount, [("a", 7)], WriteSection(true, WriteFlag, [("f", true)],
      WriteSection(true, WriteCount, [("f", 8)], WriteSection(true, WriteCount, [("g", 9)], [])))))) == SideBytes()
  {
    var k1 := [1, 0, 0, 0, 1, 0, 0, 0, 103, 9, 0, 0, 0];
    SomeCount('g', 9, []);
    assert k1 + [] == k1;
    var k2 := [1, 0, 0, 0, 1, 0, 0, 0, 102, 8, 0, 0, 0] + k1;
    SomeCount('f', 8, k1);
    var k3 := [1, 0, 0, 0, 1, 0, 0, 0, 102, 1] + k2;
    SomeFlag('f', k2);
    var k4 := [1, 0, 0, 0, 1, 0, 0, 0, 97, 7, 0, 0, 0] + k3;
    SomeCount('a', 7, k3);
    SomeReExport(k4);
    SomeChain(ReExportBytes(k4));
    hide ChainBytes, ReExportBytes, WriteList, WriteCount, WriteFlag, WriteReExports, WriteChain;
  }
}
