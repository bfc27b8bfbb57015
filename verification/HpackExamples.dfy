/** The examples of Appendix C of RFC 7541, decoded by the codec of the server. */
module HpackExamples {
  import opened Bits
  import PrefixInt
  import opened Huffman
  import opened HuffmanString
  import opened HuffmanTables
  import opened HuffmanExamples
  import opened Eos
  import opened HpackCode
  import opened HexOctets
  import opened TableSpec
  import opened HpackString
  import opened HpackBlock
  import opened HpackFields
  import opened HpackInstance
  import opened AppendixA

  // ----- C.1: integers -----

  lemma IntegerExamples()
    ensures PrefixInt.Encode(10, 5) == [0x0a] && PrefixInt.Encode(1337, 5) == [0x1f, 0x9a, 0x0a]
    ensures PrefixInt.Encode(42, 8) == [0x2a]
  {
    Pow2Small();
    assert PrefixInt.Tail(1306) == [0x9a] + PrefixInt.Tail(10);
  }

  // ----- One field -----

  predicate PrintableString(s: string) {
    forall i :: 0 <= i < |s| ==> 32 <= s[i] as int <= 126
  }

  function Header(name: string, value: string): (e: Entry) {
    Entry(Ascii(name), Ascii(value))
  }

  lemma SmallPrefixed(pattern: byte, prefix: nat, n: nat)
    requires (pattern, prefix) in {(0x80, 7), (0, 7), (0x40, 6), (0x20, 5), (0x10, 4), (0, 4)}
    requires n + 1 < Pow2(prefix)
    ensures Prefixed(pattern, prefix, n) == [pattern + n]
  {
    Pow2Small();
  }

  lemma PlainSpells(s: string, size: nat)
    requires PrintableString(s) && |s| < size <= 64
    ensures Canonical(HPACK_CODE) && Spells(HPACK_CODE, Raw(false, Ascii(s)), Ascii(s), size)
  {
    hide Canonical, EosFree, BitsOf, PassesEosCheck, HuffmanBytes;
    PrintablePassesEosScan(Ascii(s));
    ScannedWholePasses(Ascii(s));
  }

  lemma CodedSpells(s: string, size: nat)
    requires PrintableString(s) && |s| < size <= 64 && Canonical(HPACK_CODE) && |HuffmanBytes(HPACK_CODE, Ascii(s))| < 256
    ensures Spells(HPACK_CODE, Raw(true, HuffmanBytes(HPACK_CODE, Ascii(s))), Ascii(s), size)
  {
    hide Canonical, EosFree, BitsOf, PassesEosCheck, HuffmanBytes;
    PrintablePassesEosScan(Ascii(s));
    ScannedWholePasses(HuffmanBytes(HPACK_CODE, Ascii(s)));
  }

  lemma SmallPow2()
    ensures Pow2(7) == 128 && Pow2(6) == 64 && Pow2(4) == 16
  {
    Pow2Small();
  }

  lemma LineFits(i: nat)
    requires 1 <= i <= 61
    ensures 0 < |Line(i).0| < 32 && |Line(i).1| < 64
  {
  }

  lemma LineOfTable(t: Table, i: nat)
    requires 1 <= i <= 61
    ensures HasIndex(HPACK.fixed, t, i) && EntryAt(HPACK.fixed, t, i) == Header(Line(i).0, Line(i).1)
  {
    hide Line, StaticEntry, Ascii;
    StaticIsAppendixA(i);
  }

  /** An indexed field in one octet. */
  lemma IndexOctet(c: Codec, t: Table, i: nat, e: Entry, post: seq<byte>, first: bool)
    requires Ready(c) && 1 <= i < 127 && HasIndex(c.fixed, t, i) && EntryAt(c.fixed, t, i) == e
    requires 0 < |e.name| < c.nameSize && 0 < |e.value| < c.valueSize
    ensures DecodeBlock(c, t, [0x80 + i] + post, first) == Before([e], DecodeBlock(c, t, post, false))
  {
    hide Ready, Prefixed, Pow2, HasIndex, EntryAt, DecodeBlock, Before;
    SmallPow2();
    SmallPrefixed(0x80, 7, i);
    IndexedMeans(c, t, i, post, first);
  }

  /** A literal with incremental indexing, an indexed name and a short value. */
  lemma StoredOctets(c: Codec, t: Table, i: nat, name: seq<byte>, raw: Raw, value: seq<byte>, post: seq<byte>, first: bool)
    requires Ready(c) && 1 <= i < 63 && HasIndex(c.fixed, t, i) && EntryAt(c.fixed, t, i).name == name
    requires |raw.bytes| < 127 && Spells(c.code, raw, value, c.valueSize)
    requires 0 < |name| < c.nameSize && value != [] && |name| + |value| + 32 <= t.maxSize
    ensures var e, length := Entry(name, value), (if raw.huffman then 0x80 else 0) + |raw.bytes|;
            DecodeBlock(c, t, [0x40 + i] + [length] + raw.bytes + post, first) ==
            Before([e], DecodeBlock(c, Add(t, e), post, false))
  {
    hide Ready, Octets, HasIndex, EntryAt, DecodeBlock, Before, Spells, Canonical, Add;
    StoredOctetsAre(i, raw);
    LiteralMeans(c, t, LiteralField(Incremental, i, Raw(false, []), raw), name, value, post, first);
  }

  lemma StoredOctetsAre(i: nat, raw: Raw)
    requires 1 <= i < 63 && |raw.bytes| < 127
    ensures Octets(LiteralField(Incremental, i, Raw(false, []), raw)) ==
            [0x40 + i] + [(if raw.huffman then 0x80 else 0) + |raw.bytes|] + raw.bytes
  {
    hide Prefixed, Pow2, PrefixInt.Encode;
    SmallPow2();
    SmallPrefixed(0x40, 6, i);
    SmallPrefixed(if raw.huffman then 0x80 else 0, 7, |raw.bytes|);
    WithoutName([0x40 + i], [(if raw.huffman then 0x80 else 0) + |raw.bytes|], raw.bytes);
  }

  lemma WithoutName(a: seq<byte>, b: seq<byte>, c: seq<byte>)
    ensures a + [] + (b + c) == a + b + c
  {
  }

  /** In the server's static table. */
  lemma StaticField(t: Table, i: nat, post: seq<byte>, first: bool)
    requires 1 <= i <= 61 && Line(i).1 != ""
    ensures Ready(HPACK)
    ensures DecodeBlock(HPACK, t, [0x80 + i] + post, first) ==
            Before([Header(Line(i).0, Line(i).1)], DecodeBlock(HPACK, t, post, false))
  {
    hide Ready, Line, HasIndex, EntryAt, DecodeBlock, Before;
    HpackIsReady();
    LineOfTable(t, i);
    LineFits(i);
    IndexOctet(HPACK, t, i, Header(Line(i).0, Line(i).1), post, first);
  }

  /** Entry j of the dynamic table, the newest being 0. */
  lemma DynamicField(t: Table, j: nat, post: seq<byte>, first: bool)
    requires j < |t.entries| && j < 64
    requires var e := t.entries[|t.entries| - 1 - j]; 0 < |e.name| < 32 && 0 < |e.value| < 64
    ensures Ready(HPACK)
    ensures DecodeBlock(HPACK, t, [0x80 + (62 + j)] + post, first) ==
            Before([t.entries[|t.entries| - 1 - j]], DecodeBlock(HPACK, t, post, false))
  {
    hide Ready, DecodeBlock, Before;
    HpackIsReady();
    IndexOctet(HPACK, t, 62 + j, t.entries[|t.entries| - 1 - j], post, first);
  }

  lemma StoredField(t: Table, i: nat, raw: Raw, value: string, post: seq<byte>, first: bool)
    requires 1 <= i <= 61 && value != "" && |raw.bytes| < 127
    requires Canonical(HPACK_CODE) && Spells(HPACK_CODE, raw, Ascii(value), 64)
    requires |Line(i).0| + |value| + 32 <= t.maxSize
    ensures Ready(HPACK)
    ensures var e := Header(Line(i).0, value); var length := (if raw.huffman then 0x80 else 0) + |raw.bytes|;
            DecodeBlock(HPACK, t, [0x40 + i] + [length] + raw.bytes + post, first) ==
            Before([e], DecodeBlock(HPACK, Add(t, e), post, false))
  {
    hide Ready, Line, HasIndex, EntryAt, DecodeBlock, Before, Canonical, Spells, Add;
    HpackIsReady();
    LineOfTable(t, i);
    LineFits(i);
    StoredOctets(HPACK, t, i, Ascii(Line(i).0), raw, Ascii(value), post, first);
  }

  /** A literal with incremental indexing and a new name. */
  lemma NewField(t: Table, n: Raw, name: string, v: Raw, value: string, post: seq<byte>, first: bool)
    requires |n.bytes| < 127 && |v.bytes| < 127 && name != "" && value != "" && |name| + |value| + 32 <= t.maxSize
    requires Canonical(HPACK_CODE) && Spells(HPACK_CODE, n, Ascii(name), 32) && Spells(HPACK_CODE, v, Ascii(value), 64)
    ensures Ready(HPACK)
    ensures DecodeBlock(HPACK, t, [0x40] + Spelt(n) + Spelt(v) + post, first) ==
            Before([Header(name, value)], DecodeBlock(HPACK, Add(t, Header(name, value)), post, false))
  {
    hide Ready, DecodeBlock, Before, Ascii, Spells, Canonical, Add, Prefixed, Pow2;
    HpackIsReady();
    SmallPow2();
    SmallPrefixed(0x40, 6, 0);
    SmallPrefixed(if n.huffman then 0x80 else 0, 7, |n.bytes|);
    SmallPrefixed(if v.huffman then 0x80 else 0, 7, |v.bytes|);
    LiteralMeans(HPACK, t, LiteralField(Incremental, 0, n, v), Ascii(name), Ascii(value), post, first);
  }

  /** A text spelt out in one of the two ways, with its length and flag in one octet. */
  function Spelt(raw: Raw): (r: seq<byte>)
    requires |raw.bytes| < 127
  {
    [(if raw.huffman then 0x80 else 0) + |raw.bytes|] + raw.bytes
  }

  lemma NothingMore(t: Table)
    ensures Ready(HPACK) && DecodeBlock(HPACK, t, [], false) == Block([], t)
  {
    HpackIsReady();
  }

  // ----- C.3 and C.4: requests -----

  ghost predicate Is(k: Code, raw: Raw, text: string, size: nat) {
    Canonical(k) && |raw.bytes| < 127 && Spells(k, raw, Ascii(text), size)
  }

  lemma Room(t: Table, e: Entry)
    requires Size(t.entries) + EntrySize(e) <= t.maxSize
    ensures Add(t, e) == t.(entries := t.entries + [e]) && Size(t.entries + [e]) == Size(t.entries) + EntrySize(e)
  {
    SizeSnoc(t.entries, e);
  }

  lemma Fields4(a: Entry, b: Entry, c: Entry, d: Entry, t: Table)
    ensures Before([a], Before([b], Before([c], Before([d], Block([], t))))) == Block([a, b, c, d], t)
  {
  }

  /** The first request of C.3 and C.4, from an empty table of 4096 octets. */
  lemma FirstRequest(t: Table, host: Raw)
    requires t.entries == [] && t.maxSize == 4096 && Is(HPACK_CODE, host, "www.example.com", 64)
    ensures Ready(HPACK) && Size([Header(":authority", "www.example.com")]) == 57
    ensures DecodeBlock(HPACK, t, [0x82] + ([0x86] + ([0x84] + ([0x41] + Spelt(host)))), true) ==
            Block([Header(":method", "GET"), Header(":scheme", "http"), Header(":path", "/"),
                   Header(":authority", "www.example.com")],
                  t.(entries := [Header(":authority", "www.example.com")]))
  {
    hide Ready, DecodeBlock, Before, Ascii, Spells, Canonical, Add, Evict, Size;
    var e := Header(":authority", "www.example.com");
    NoEntries();
    Room(t, e);
    assert t.entries + [e] == [e];
    var p4 := [0x41] + Spelt(host);
    StaticField(t, 2, [0x86] + ([0x84] + p4), true);
    StaticField(t, 6, [0x84] + p4, false);
    StaticField(t, 4, p4, false);
    StoredField(t, 1, host, "www.example.com", [], false);
    OneString(0x41, host);
    NothingMore(Add(t, e));
    Fields4(Header(":method", "GET"), Header(":scheme", "http"), Header(":path", "/"), e, Add(t, e));
  }

  /** The second one: the host comes from the dynamic table. */
  lemma SecondRequest(t: Table, cache: Raw)
    requires t.entries == [Header(":authority", "www.example.com")] && t.maxSize == 4096
    requires Is(HPACK_CODE, cache, "no-cache", 64)
    ensures Ready(HPACK) && Size(t.entries + [Header("cache-control", "no-cache")]) == 110
    ensures DecodeBlock(HPACK, t, [0x82] + ([0x86] + ([0x84] + ([0xbe] + ([0x58] + Spelt(cache))))), true) ==
            Block([Header(":method", "GET"), Header(":scheme", "http"), Header(":path", "/"),
                   Header(":authority", "www.example.com"), Header("cache-control", "no-cache")],
                  t.(entries := t.entries + [Header("cache-control", "no-cache")]))
  {
    hide Ready, DecodeBlock, Before, Ascii, Spells, Canonical, Add, Evict, Size;
    var host, e := t.entries[0], Header("cache-control", "no-cache");
    NoEntries();
    SizeSnoc([], host);
    assert [] + [host] == t.entries;
    Room(t, e);
    var p5 := [0x58] + Spelt(cache);
    StaticField(t, 2, [0x86] + ([0x84] + ([0xbe] + p5)), true);
    StaticField(t, 6, [0x84] + ([0xbe] + p5), false);
    StaticField(t, 4, [0xbe] + p5, false);
    DynamicField(t, 0, p5, false);
    StoredField(t, 24, cache, "no-cache", [], false);
    OneString(0x58, cache);
    NothingMore(Add(t, e));
    Fields5(Header(":method", "GET"), Header(":scheme", "http"), Header(":path", "/"), host, e, Add(t, e));
  }

  lemma Fields5(a: Entry, b: Entry, c: Entry, d: Entry, e: Entry, t: Table)
    ensures Before([a], Before([b], Before([c], Before([d], Before([e], Block([], t)))))) == Block([a, b, c, d, e], t)
  {
  }

  /** The third one: a header with a new name. */
  lemma ThirdRequest(t: Table, key: Raw, value: Raw)
    requires t.entries == [Header(":authority", "www.example.com"), Header("cache-control", "no-cache")]
    requires t.maxSize == 4096 && Size(t.entries) == 110
    requires Is(HPACK_CODE, key, "custom-key", 32) && Is(HPACK_CODE, value, "custom-value", 64)
    ensures Ready(HPACK) && Size(t.entries + [Header("custom-key", "custom-value")]) == 164
    ensures DecodeBlock(HPACK, t, [0x82] + ([0x87] + ([0x85] + ([0xbf] + ([0x40] + Spelt(key) + Spelt(value))))), true) ==
            Block([Header(":method", "GET"), Header(":scheme", "https"), Header(":path", "/index.html"),
                   Header(":authority", "www.example.com"), Header("custom-key", "custom-value")],
                  t.(entries := t.entries + [Header("custom-key", "custom-value")]))
  {
    hide Ready, DecodeBlock, Before, Ascii, Spells, Canonical, Add, Evict, Size;
    var e := Header("custom-key", "custom-value");
    Room(t, e);
    var p5 := [0x40] + Spelt(key) + Spelt(value);
    StaticField(t, 2, [0x87] + ([0x85] + ([0xbf] + p5)), true);
    StaticField(t, 7, [0x85] + ([0xbf] + p5), false);
    StaticField(t, 5, [0xbf] + p5, false);
    DynamicField(t, 1, p5, false);
    NewField(t, key, "custom-key", value, "custom-value", [], false);
    assert p5 + [] == p5;
    NothingMore(Add(t, e));
    Fields5(Header(":method", "GET"), Header(":scheme", "https"), Header(":path", "/index.html"), t.entries[0], e, Add(t, e));
  }

  // The string literals of C.3 and those of C.4.

  lemma HostStrings()
    ensures Is(HPACK_CODE, Raw(false, Ascii("www.example.com")), "www.example.com", 64)
    ensures Is(HPACK_CODE, Raw(true, Hex(12, 0xf1e3c2e5f23a6ba0ab90f4ff)), "www.example.com", 64)
  {
    hide Ascii, Hex, Spells, Canonical, HuffmanBytes;
    PlainSpells("www.example.com", 64);
    WwwExampleCom();
    CodedSpells("www.example.com", 64);
  }

  lemma CacheStrings()
    ensures Is(HPACK_CODE, Raw(false, Ascii("no-cache")), "no-cache", 64)
    ensures Is(HPACK_CODE, Raw(true, Hex(6, 0xa8eb10649cbf)), "no-cache", 64)
  {
    hide Ascii, Hex, Spells, Canonical, HuffmanBytes;
    PlainSpells("no-cache", 64);
    NoCache();
    CodedSpells("no-cache", 64);
  }

  lemma KeyStrings()
    ensures Is(HPACK_CODE, Raw(false, Ascii("custom-key")), "custom-key", 32)
    ensures Is(HPACK_CODE, Raw(true, Hex(8, 0x25a849e95ba97d7f)), "custom-key", 32)
  {
    hide Ascii, Hex, Spells, Canonical, HuffmanBytes;
    PlainSpells("custom-key", 32);
    CustomKey();
    CodedSpells("custom-key", 32);
  }

  lemma ValueStrings()
    ensures Is(HPACK_CODE, Raw(false, Ascii("custom-value")), "custom-value", 64)
    ensures Is(HPACK_CODE, Raw(true, Hex(9, 0x25a849e95bb8e8b4bf)), "custom-value", 64)
  {
    hide Ascii, Hex, Spells, Canonical, HuffmanBytes;
    PlainSpells("custom-value", 64);
    CustomValue();
    CodedSpells("custom-value", 64);
  }

  lemma Joined(a: byte, b: byte, c: byte, d: byte, e: byte, raw: Raw)
    requires |raw.bytes| < 127
    ensures [a] + ([b] + ([c] + ([d] + Spelt(raw)))) == [a, b, c, d] + Spelt(raw)
    ensures [a] + ([b] + ([c] + ([d] + ([e] + Spelt(raw))))) == [a, b, c, d, e] + Spelt(raw)
  {
  }

  lemma JoinedTwo(a: byte, b: byte, c: byte, d: byte, e: byte, n: Raw, v: Raw)
    requires |n.bytes| < 127 && |v.bytes| < 127
    ensures [a] + ([b] + ([c] + ([d] + ([e] + Spelt(n) + Spelt(v))))) == [a, b, c, d, e] + Spelt(n) + Spelt(v)
  {
  }

  /** C.3.1 and C.4.1. */
  lemma FirstRequests(t: Table)
    requires t.entries == [] && t.maxSize == 4096
    ensures Ready(HPACK)
    ensures var e := Header(":authority", "www.example.com");
            var b := Block([Header(":method", "GET"), Header(":scheme", "http"), Header(":path", "/"), e], t.(entries := [e]));
            && DecodeBlock(HPACK, t, [0x82, 0x86, 0x84, 0x41] + ([0x0f] + Ascii("www.example.com")), true) == b
            && DecodeBlock(HPACK, t, [0x82, 0x86, 0x84, 0x41] + ([0x8c] + Hex(12, 0xf1e3c2e5f23a6ba0ab90f4ff)), true) == b
  {
    hide Ready, DecodeBlock, Ascii, Hex, Is, Size;
    HostStrings();
    var plain, coded := Raw(false, Ascii("www.example.com")), Raw(true, Hex(12, 0xf1e3c2e5f23a6ba0ab90f4ff));
    FirstRequest(t, plain);
    FirstRequest(t, coded);
    Joined(0x82, 0x86, 0x84, 0x41, 0, plain);
    Joined(0x82, 0x86, 0x84, 0x41, 0, coded);
  }

  /** C.3.2 and C.4.2. */
  lemma SecondRequests(t: Table)
    requires t.entries == [Header(":authority", "www.example.com")] && t.maxSize == 4096
    ensures Ready(HPACK)
    ensures var e := Header("cache-control", "no-cache");
            var b := Block([Header(":method", "GET"), Header(":scheme", "http"), Header(":path", "/"), t.entries[0], e],
                           t.(entries := t.entries + [e]));
            && DecodeBlock(HPACK, t, [0x82, 0x86, 0x84, 0xbe, 0x58] + ([0x08] + Ascii("no-cache")), true) == b
            && DecodeBlock(HPACK, t, [0x82, 0x86, 0x84, 0xbe, 0x58] + ([0x86] + Hex(6, 0xa8eb10649cbf)), true) == b
  {
    hide Ready, DecodeBlock, Ascii, Hex, Is, Size;
    CacheStrings();
    var plain, coded := Raw(false, Ascii("no-cache")), Raw(true, Hex(6, 0xa8eb10649cbf));
    SecondRequest(t, plain);
    SecondRequest(t, coded);
    Joined(0x82, 0x86, 0x84, 0xbe, 0x58, plain);
    Joined(0x82, 0x86, 0x84, 0xbe, 0x58, coded);
  }

  /** C.3.3 and C.4.3. */
  lemma ThirdRequests(t: Table)
    requires t.entries == [Header(":authority", "www.example.com"), Header("cache-control", "no-cache")]
    requires t.maxSize == 4096 && Size(t.entries) == 110
    ensures Ready(HPACK)
    ensures var e := Header("custom-key", "custom-value");
            var b := Block([Header(":method", "GET"), Header(":scheme", "https"), Header(":path", "/index.html"),
                            t.entries[0], e], t.(entries := t.entries + [e]));
            && DecodeBlock(HPACK, t, [0x82, 0x87, 0x85, 0xbf, 0x40] + ([0x0a] + Ascii("custom-key"))
                                     + ([0x0c] + Ascii("custom-value")), true) == b
            && DecodeBlock(HPACK, t, [0x82, 0x87, 0x85, 0xbf, 0x40] + ([0x88] + Hex(8, 0x25a849e95ba97d7f))
                                     + ([0x89] + Hex(9, 0x25a849e95bb8e8b4bf)), true) == b
  {
    hide Ready, DecodeBlock, Ascii, Hex, Is, Size;
    KeyStrings();
    ValueStrings();
    var key, value := Raw(false, Ascii("custom-key")), Raw(false, Ascii("custom-value"));
    var codedKey, codedValue := Raw(true, Hex(8, 0x25a849e95ba97d7f)), Raw(true, Hex(9, 0x25a849e95bb8e8b4bf));
    ThirdRequest(t, key, value);
    ThirdRequest(t, codedKey, codedValue);
    JoinedTwo(0x82, 0x87, 0x85, 0xbf, 0x40, key, value);
    JoinedTwo(0x82, 0x87, 0x85, 0xbf, 0x40, codedKey, codedValue);
  }

  lemma NoEntries()
    ensures Size([]) == 0
  {
  }

  lemma OneString(head: byte, raw: Raw)
    requires |raw.bytes| < 127
    ensures [head] + [(if raw.huffman then 0x80 else 0) + |raw.bytes|] + raw.bytes + [] == [head] + Spelt(raw)
  {
  }

  // ----- C.6: responses, with a table of 256 octets -----

  lemma StatusStrings()
    ensures Is(HPACK_CODE, Raw(true, Hex(2, 0x6402)), "302", 64) && Is(HPACK_CODE, Raw(true, Hex(3, 0x640eff)), "307", 64)
  {
    hide Ascii, Hex, Spells, Canonical, HuffmanBytes;
    Status302();
    CodedSpells("302", 64);
    Status307();
    CodedSpells("307", 64);
  }

  lemma PrivateString()
    ensures Is(HPACK_CODE, Raw(true, Hex(5, 0xaec3771a4b)), "private", 64)
  {
    hide Ascii, Hex, Spells, Canonical, HuffmanBytes;
    Private();
    CodedSpells("private", 64);
  }

  lemma DatePrints()
    ensures PrintableString("Mon, 21 Oct 2013 20:13:21 GMT") && |"Mon, 21 Oct 2013 20:13:21 GMT"| == 29
  {
  }

  lemma DateString()
    ensures Is(HPACK_CODE, Raw(true, Hex(22, 0xd07abe941054d444a8200595040b8166e082a62d1bff)),
               "Mon, 21 Oct 2013 20:13:21 GMT", 64)
  {
    hide Ascii, Hex, Spells, Canonical, HuffmanBytes, PrintableString;
    DatePrints();
    Date();
    CodedSpells("Mon, 21 Oct 2013 20:13:21 GMT", 64);
  }

  lemma LocationPrints()
    ensures PrintableString("https://www.example.com") && |"https://www.example.com"| == 23
  {
  }

  lemma LocationString()
    ensures Is(HPACK_CODE, Raw(true, Hex(17, 0x9d29ad171863c78f0b97c8e9ae82ae43d3)), "https://www.example.com", 64)
  {
    hide Ascii, Hex, Spells, Canonical, HuffmanBytes, PrintableString;
    LocationPrints();
    Location();
    CodedSpells("https://www.example.com", 64);
  }

  /** The octet of an indexed name, and a string; what follows is behind it. */
  lemma StoredNext(t: Table, i: nat, raw: Raw, value: string, post: seq<byte>, first: bool)
    requires 1 <= i <= 61 && value != "" && Is(HPACK_CODE, raw, value, 64) && |Line(i).0| + |value| + 32 <= t.maxSize
    ensures Ready(HPACK)
    ensures var e := Header(Line(i).0, value);
            DecodeBlock(HPACK, t, [0x40 + i] + Spelt(raw) + post, first) ==
            Before([e], DecodeBlock(HPACK, Add(t, e), post, false))
  {
    hide Ready, DecodeBlock, Before, Ascii, Line, Spells, Canonical, Add;
    StoredField(t, i, raw, value, post, first);
    BehindString(0x40 + i, raw, post);
  }

  lemma BehindString(head: byte, raw: Raw, post: seq<byte>)
    requires |raw.bytes| < 127
    ensures [head] + [(if raw.huffman then 0x80 else 0) + |raw.bytes|] + raw.bytes + post == [head] + Spelt(raw) + post
  {
  }

  /** C.6.1. */
  lemma FirstResponse(t: Table)
    requires t.entries == [] && t.maxSize == 256
    ensures Ready(HPACK)
    ensures var es := [Header(":status", "302"), Header("cache-control", "private"),
                       Header("date", "Mon, 21 Oct 2013 20:13:21 GMT"), Header("location", "https://www.example.com")];
            var p2 := [0x58] + Spelt(Raw(true, Hex(5, 0xaec3771a4b)));
            var p3 := [0x61] + Spelt(Raw(true, Hex(22, 0xd07abe941054d444a8200595040b8166e082a62d1bff)));
            var p4 := [0x6e] + Spelt(Raw(true, Hex(17, 0x9d29ad171863c78f0b97c8e9ae82ae43d3)));
            && Size(es) == 222
            && DecodeBlock(HPACK, t, [0x48] + Spelt(Raw(true, Hex(2, 0x6402))) + (p2 + (p3 + (p4 + []))), true) ==
               Block(es, t.(entries := es))
  {
    hide Ready, DecodeBlock, Before, Ascii, Hex, Is, Add, Evict, Size;
    StatusStrings();
    PrivateString();
    DateString();
    LocationString();
    var a, b := Header(":status", "302"), Header("cache-control", "private");
    var c, d := Header("date", "Mon, 21 Oct 2013 20:13:21 GMT"), Header("location", "https://www.example.com");
    var r2, r3 := Raw(true, Hex(5, 0xaec3771a4b)), Raw(true, Hex(22, 0xd07abe941054d444a8200595040b8166e082a62d1bff));
    var r4 := Raw(true, Hex(17, 0x9d29ad171863c78f0b97c8e9ae82ae43d3));
    var p4 := [0x6e] + Spelt(r4) + [];
    var p3 := [0x61] + Spelt(r3) + p4;
    var p2 := [0x58] + Spelt(r2) + p3;
    NoEntries();
    Room(t, a);
    var t1 := Add(t, a);
    Room(t1, b);
    var t2 := Add(t1, b);
    Room(t2, c);
    var t3 := Add(t2, c);
    Room(t3, d);
    StoredNext(t, 8, Raw(true, Hex(2, 0x6402)), "302", p2, true);
    StoredNext(t1, 24, r2, "private", p3, false);
    StoredNext(t2, 33, r3, "Mon, 21 Oct 2013 20:13:21 GMT", p4, false);
    StoredNext(t3, 46, r4, "https://www.example.com", [], false);
    NothingMore(Add(t3, d));
    Fields4(a, b, c, d, Add(t3, d));
    assert [] + [a] + [b] + [c] + [d] == [a, b, c, d];
  }

  lemma EvictsFirst(t: Table, e: Entry)
    requires t.entries != [] && Size(t.entries) + EntrySize(e) > t.maxSize
    requires Size(t.entries) - EntrySize(t.entries[0]) + EntrySize(e) <= t.maxSize
    ensures Add(t, e) == t.(entries := t.entries[1..] + [e])
    ensures Size(t.entries[1..] + [e]) == Size(t.entries) - EntrySize(t.entries[0]) + EntrySize(e)
  {
    var rest, target := t.entries[1..], t.maxSize - EntrySize(e);
    SizeConcat([t.entries[0]], rest);
    SizeSnoc([], t.entries[0]);
    NoEntries();
    assert [] + [t.entries[0]] == [t.entries[0]] && [t.entries[0]] + rest == t.entries;
    SizeSnoc(rest, e);
    assert Evict(rest, target) == rest;
    assert Evict(t.entries, target) == Evict(rest, target);
  }

  /** C.6.2: the new entry takes the place of the oldest one. */
  lemma SecondResponse(t: Table)
    requires t.maxSize == 256 && Size(t.entries) == 222
    requires t.entries == [Header(":status", "302"), Header("cache-control", "private"),
                           Header("date", "Mon, 21 Oct 2013 20:13:21 GMT"), Header("location", "https://www.example.com")]
    ensures Ready(HPACK)
    ensures var e := Header(":status", "307"); var es := t.entries[1..] + [e];
            && Size(es) == 222
            && DecodeBlock(HPACK, t, [0x48] + Spelt(Raw(true, Hex(3, 0x640eff))) + ([0xc1] + ([0xc0] + ([0xbf] + []))), true) ==
               Block([e] + t.entries[1..], t.(entries := es))
  {
    hide Ready, DecodeBlock, Before, Ascii, Hex, Is, Add, Evict, Size;
    StatusStrings();
    var e := Header(":status", "307");
    EvictsFirst(t, e);
    var t' := Add(t, e);
    StoredNext(t, 8, Raw(true, Hex(3, 0x640eff)), "307", [0xc1] + ([0xc0] + ([0xbf] + [])), true);
    DynamicField(t', 3, [0xc0] + ([0xbf] + []), false);
    DynamicField(t', 2, [0xbf] + [], false);
    DynamicField(t', 1, [], false);
    NothingMore(t');
    Fields4(e, t.entries[1], t.entries[2], t.entries[3], t');
    assert [e] + t.entries[1..] == [e, t.entries[1], t.entries[2], t.entries[3]];
  }

  lemma LaterDatePrints()
    ensures PrintableString("Mon, 21 Oct 2013 20:13:22 GMT") && |"Mon, 21 Oct 2013 20:13:22 GMT"| == 29
  {
  }

  lemma LaterDateString()
    ensures Is(HPACK_CODE, Raw(true, Hex(22, 0xd07abe941054d444a8200595040b8166e084a62d1bff)),
               "Mon, 21 Oct 2013 20:13:22 GMT", 64)
  {
    hide Ascii, Hex, Spells, Canonical, HuffmanBytes, PrintableString;
    LaterDatePrints();
    LaterDate();
    CodedSpells("Mon, 21 Oct 2013 20:13:22 GMT", 64);
  }

  lemma GzipString()
    ensures Is(HPACK_CODE, Raw(true, Hex(3, 0x9bd9ab)), "gzip", 64)
  {
    hide Ascii, Hex, Spells, Canonical, HuffmanBytes;
    Gzip();
    CodedSpells("gzip", 64);
  }

  lemma PartPrints(i: nat)
    requires i < 7
    ensures |Part(i)| == 8 && PrintableString(Part(i))
  {
  }

  lemma CookiePrints()
    ensures PrintableString(CookieText()) && |CookieText()| == 56
  {
    hide Part;
    PartPrints(0);
    PartPrints(1);
    PartPrints(2);
    PartPrints(3);
    PartPrints(4);
    PartPrints(5);
    PartPrints(6);
  }

  /** The coded set-cookie value of C.6.3. */
  function CookieRaw(): (r: Raw)
    ensures |r.bytes| == 45
  {
    Raw(true, Hex(45, 0x94e7821dd7f2e6c7b335dfdfcd5b3960d5af27087f3672c1ab270fb5291f9587316065c003ed4ee5b1063d5007))
  }

  lemma CookieString()
    ensures Is(HPACK_CODE, CookieRaw(), CookieText(), 64) && |CookieText()| == 56
  {
    hide Ascii, Hex, Spells, Canonical, HuffmanBytes, PrintableString, CookieText;
    CookiePrints();
    Cookie();
    CodedSpells(CookieText(), 64);
  }

  /** Entries of the table before C.6.3. */
  function StoredEntry(i: nat): (e: Entry)
    requires i < 4
  {
    match i
    case 0 => Header("cache-control", "private")
    case 1 => Header("date", "Mon, 21 Oct 2013 20:13:21 GMT")
    case 2 => Header("location", "https://www.example.com")
    case 3 => Header(":status", "307")
  }

  lemma StoredSizes()
    ensures EntrySize(StoredEntry(0)) == 52 && EntrySize(StoredEntry(1)) == 65
    ensures EntrySize(StoredEntry(2)) == 63 && EntrySize(StoredEntry(3)) == 42
  {
  }

  /** Two old entries go. */
  lemma EvictsTwo(t: Table, e: Entry)
    requires |t.entries| >= 2 && Size(t.entries) - EntrySize(t.entries[0]) + EntrySize(e) > t.maxSize
    requires Size(t.entries) - EntrySize(t.entries[0]) - EntrySize(t.entries[1]) + EntrySize(e) <= t.maxSize
    requires EntrySize(e) <= t.maxSize
    ensures Add(t, e) == t.(entries := t.entries[2..] + [e])
    ensures Size(t.entries[2..] + [e]) == Size(t.entries) - EntrySize(t.entries[0]) - EntrySize(t.entries[1]) + EntrySize(e)
  {
    hide Size;
    var u := t.(entries := t.entries[1..]);
    SizeFirst(t.entries);
    EvictsFirst(u, e);
    assert u.entries[1..] == t.entries[2..] && u.entries[0] == t.entries[1];
    assert Evict(t.entries, t.maxSize - EntrySize(e)) == Evict(u.entries, t.maxSize - EntrySize(e));
  }

  lemma SizeFirst(es: seq<Entry>)
    requires es != []
    ensures Size(es) == EntrySize(es[0]) + Size(es[1..])
  {
  }

  lemma Fields6(a: Entry, b: Entry, c: Entry, d: Entry, e: Entry, f: Entry, t: Table)
    ensures Before([a], Before([b], Before([c], Before([d], Before([e], Before([f], Block([], t))))))) ==
            Block([a, b, c, d, e, f], t)
  {
  }

  /** Four old entries go for three new ones. */
  lemma ThreeMore(t: Table, a: Entry, b: Entry, c: Entry, d: Entry, x: Entry, y: Entry, z: Entry)
    requires t.maxSize == 256 && t.entries == [a, b, c, d] && Size(t.entries) == 222
    requires EntrySize(a) == 52 && EntrySize(b) == 65 && EntrySize(c) == 63 && EntrySize(d) == 42
    requires EntrySize(x) == 65 && EntrySize(y) == 52 && EntrySize(z) == 98
    ensures Add(t, x) == t.(entries := [b, c, d, x])
    ensures Add(t.(entries := [b, c, d, x]), y) == t.(entries := [c, d, x, y])
    ensures Add(t.(entries := [c, d, x, y]), z) == t.(entries := [x, y, z]) && Size([x, y, z]) == 215
  {
    hide EntrySize, Add, Evict, Size;
    var t1, t2 := t.(entries := [b, c, d, x]), t.(entries := [c, d, x, y]);
    EvictsFirst(t, x);
    assert t.entries[1..] + [x] == t1.entries;
    EvictsFirst(t1, y);
    assert t1.entries[1..] + [y] == t2.entries;
    EvictsTwo(t2, z);
    assert t2.entries[2..] + [z] == [x, y, z];
  }

  /** The coded date of C.6.3. */
  function DateRaw(): (r: Raw)
    ensures |r.bytes| == 22
  {
    Raw(true, Hex(22, 0xd07abe941054d444a8200595040b8166e084a62d1bff))
  }

  function LaterDateHeader(): (e: Entry)
    ensures EntrySize(e) == 65
  {
    Header("date", "Mon, 21 Oct 2013 20:13:22 GMT")
  }

  function GzipHeader(): (e: Entry)
    ensures EntrySize(e) == 52
  {
    Header("content-encoding", "gzip")
  }

  function CookieHeader(): (e: Entry)
    ensures EntrySize(e) == 98
  {
    CookiePrints();
    Header("set-cookie", CookieText())
  }

  /** The first four fields of C.6.3. */
  lemma ThirdResponseBegins(t: Table, post: seq<byte>)
    requires t.maxSize == 256 && Size(t.entries) == 222
    requires t.entries == [StoredEntry(0), StoredEntry(1), StoredEntry(2), StoredEntry(3)]
    ensures Ready(HPACK)
    ensures var t1 := t.(entries := [StoredEntry(1), StoredEntry(2), StoredEntry(3), LaterDateHeader()]);
            DecodeBlock(HPACK, t, [0x88] + ([0xc1] + ([0x61] + Spelt(DateRaw()) + ([0xc0] + post))), true) ==
            Before([Header(":status", "200")], Before([StoredEntry(0)],
              Before([LaterDateHeader()], Before([StoredEntry(2)], DecodeBlock(HPACK, t1, post, false)))))
  {
    LaterDateString();
    hide Ready, DecodeBlock, Before, Ascii, Hex, Is, Add, Evict, Size, Spelt, StoredEntry;
    StoredSizes();
    StoredShort();
    ThreeMore(t, StoredEntry(0), StoredEntry(1), StoredEntry(2), StoredEntry(3), LaterDateHeader(), GzipHeader(), CookieHeader());
    var t1 := t.(entries := [StoredEntry(1), StoredEntry(2), StoredEntry(3), LaterDateHeader()]);
    var p4 := [0xc0] + post;
    var p3 := [0x61] + Spelt(DateRaw()) + p4;
    StaticField(t, 8, [0xc1] + p3, true);
    DynamicField(t, 3, p3, false);
    StoredNext(t, 33, DateRaw(), "Mon, 21 Oct 2013 20:13:22 GMT", p4, false);
    DynamicField(t1, 2, post, false);
  }

  /** The other two. */
  lemma ThirdResponseEnds(t: Table)
    requires t.maxSize == 256 && t.entries == [StoredEntry(1), StoredEntry(2), StoredEntry(3), LaterDateHeader()]
    requires Size([StoredEntry(0), StoredEntry(1), StoredEntry(2), StoredEntry(3)]) == 222
    ensures Ready(HPACK) && Size([LaterDateHeader(), GzipHeader(), CookieHeader()]) == 215
    ensures var p6 := [0x77] + Spelt(CookieRaw()) + [];
            DecodeBlock(HPACK, t, [0x5a] + Spelt(Raw(true, Hex(3, 0x9bd9ab))) + p6, false) ==
            Before([GzipHeader()], Before([CookieHeader()],
              Block([], t.(entries := [LaterDateHeader(), GzipHeader(), CookieHeader()]))))
  {
    GzipString();
    CookieString();
    hide Ready, DecodeBlock, Before, Ascii, Hex, Is, Add, Evict, Size, Spelt, StoredEntry, CookieText, CookieRaw;
    StoredSizes();
    ThreeMore(t.(entries := [StoredEntry(0), StoredEntry(1), StoredEntry(2), StoredEntry(3)]),
      StoredEntry(0), StoredEntry(1), StoredEntry(2), StoredEntry(3), LaterDateHeader(), GzipHeader(), CookieHeader());
    var t2 := t.(entries := [StoredEntry(2), StoredEntry(3), LaterDateHeader(), GzipHeader()]);
    var p6 := [0x77] + Spelt(CookieRaw()) + [];
    StoredNext(t, 26, Raw(true, Hex(3, 0x9bd9ab)), "gzip", p6, false);
    StoredNext(t2, 55, CookieRaw(), CookieText(), [], false);
    NothingMore(t.(entries := [LaterDateHeader(), GzipHeader(), CookieHeader()]));
  }

  /** C.6.3: four old entries go for three new ones. */
  lemma ThirdResponse(t: Table)
    requires t.maxSize == 256 && Size(t.entries) == 222
    requires t.entries == [StoredEntry(0), StoredEntry(1), StoredEntry(2), StoredEntry(3)]
    ensures Ready(HPACK)
    ensures var es := [LaterDateHeader(), GzipHeader(), CookieHeader()];
            var p5 := [0x5a] + Spelt(Raw(true, Hex(3, 0x9bd9ab))) + ([0x77] + Spelt(CookieRaw()) + []);
            && Size(es) == 215
            && DecodeBlock(HPACK, t, [0x88] + ([0xc1] + ([0x61] + Spelt(DateRaw()) + ([0xc0] + p5))), true) ==
               Block([Header(":status", "200"), StoredEntry(0), LaterDateHeader(), StoredEntry(2), GzipHeader(), CookieHeader()],
                     t.(entries := es))
  {
    hide Ready, DecodeBlock, Before, Ascii, Hex, Size, Spelt, StoredEntry, CookieRaw, DateRaw, LaterDateHeader, GzipHeader,
      CookieHeader;
    var p5 := [0x5a] + Spelt(Raw(true, Hex(3, 0x9bd9ab))) + ([0x77] + Spelt(CookieRaw()) + []);
    var t1 := t.(entries := [StoredEntry(1), StoredEntry(2), StoredEntry(3), LaterDateHeader()]);
    ThirdResponseBegins(t, p5);
    ThirdResponseEnds(t1);
    Fields6(Header(":status", "200"), StoredEntry(0), LaterDateHeader(), StoredEntry(2), GzipHeader(), CookieHeader(),
      t.(entries := [LaterDateHeader(), GzipHeader(), CookieHeader()]));
  }

  lemma StoredShort()
    ensures forall i :: 0 <= i < 4 ==> 0 < |StoredEntry(i).name| < 32 && 0 < |StoredEntry(i).value| < 64
  {
  }
}
