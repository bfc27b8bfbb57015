/** The requests of Appendix C.4 of RFC 7541, encoded by the codec of the server. */
module HpackWrites {
  import opened Bits
  import PrefixInt
  import opened Huffman
  import opened HuffmanString
  import opened HuffmanTables
  import opened HuffmanExamples
  import opened HpackCode
  import opened HexOctets
  import opened TableSpec
  import opened TableSearch
  import opened HpackString
  import opened HpackBlock
  import opened HpackFields
  import opened HpackChoices
  import opened HpackLockstep
  import opened HpackInstance
  import opened AppendixA
  import opened HpackExamples

  // ----- Headers told apart -----

  /** The octet that stands for a character. */
  function Octet(c: char): (b: byte) {
    if 0 < c as int < 128 then c as int else 63
  }

  /** Two headers that differ in a length, or in the second or first character of their names. */
  predicate Unlike(name: string, value: string, line: (string, string)) {
    |name| != |line.0| || |value| != |line.1|
    || (|name| > 1 && (Octet(name[0]) != Octet(line.0[0]) || Octet(name[1]) != Octet(line.0[1])))
  }

  lemma UnlikeDiffers(name: string, value: string, line: (string, string))
    requires Unlike(name, value, line)
    ensures Header(name, value) != Header(line.0, line.1)
  {
    var a, b := Ascii(name), Ascii(line.0);
    if |name| == |line.0| > 1 {
      assert a[0] == Octet(name[0]) && b[0] == Octet(line.0[0]) && a[1] == Octet(name[1]) && b[1] == Octet(line.0[1]);
    }
  }

  lemma Lowest(i: nat, j: nat)
    requires i in {2, 4, 5, 6, 7} && 1 <= j < i
    ensures Unlike(Line(i).0, Line(i).1, Line(j))
  {
  }

  /** No line has a value as long as those of the examples that are not in the table. */
  lemma NoSuchValue(j: nat)
    requires 1 <= j <= 61
    ensures |Line(j).1| !in {8, 12, 15}
  {
  }

  lemma NamesBefore(j: nat)
    requires 1 <= j < 24
    ensures |Line(j).0| > 0 && Octet(Line(j).0[0]) != Octet('c') && Line(24) == ("cache-control", "")
  {
  }

  lemma NoSuchName(j: nat)
    requires 1 <= j <= 61
    ensures |Line(j).0| != 10 || Octet(Line(j).0[0]) != Octet('c')
  {
  }

  lemma DifferentNames(a: string, b: string)
    requires |a| != |b| || (a != [] && Octet(a[0]) != Octet(b[0]))
    ensures Ascii(a) != Ascii(b)
  {
    if |a| == |b| {
      assert Ascii(a)[0] == Octet(a[0]) && Ascii(b)[0] == Octet(b[0]);
    }
  }

  // ----- Where the headers are -----

  lemma StaticIndex(t: Table, i: nat)
    requires i in {2, 4, 5, 6, 7}
    ensures |HPACK.fixed| == STATIC_SIZE && IsIndexOf(HPACK.fixed, t, Header(Line(i).0, Line(i).1), i)
  {
    hide Line, Unlike, Ascii, EntryAt;
    LineOfTable(t, i);
    forall j | 1 <= j < i ensures EntryAt(HPACK.fixed, t, j) != Header(Line(i).0, Line(i).1) {
      LineOfTable(t, j);
      Lowest(i, j);
      UnlikeDiffers(Line(i).0, Line(i).1, Line(j));
    }
  }

  /** Its value is in no line: only the dynamic table can have it. */
  lemma NotStatic(t: Table, name: string, value: string)
    requires |value| in {8, 12, 15}
    ensures |HPACK.fixed| == STATIC_SIZE && forall j :: 1 <= j <= 61 ==> EntryAt(HPACK.fixed, t, j) != Header(name, value)
  {
    hide Line, Ascii, EntryAt;
    forall j | 1 <= j <= 61 ensures EntryAt(HPACK.fixed, t, j) != Header(name, value) {
      LineOfTable(t, j);
      NoSuchValue(j);
      UnlikeDiffers(name, value, Line(j));
    }
  }

  lemma HostName(t: Table)
    ensures |HPACK.fixed| == STATIC_SIZE && IsIndexOfName(HPACK.fixed, t, Ascii(":authority"), 1)
  {
    hide Ascii, EntryAt;
    LineOfTable(t, 1);
  }

  lemma CacheName(t: Table)
    ensures |HPACK.fixed| == STATIC_SIZE && IsIndexOfName(HPACK.fixed, t, Ascii("cache-control"), 24)
  {
    hide Line, Ascii, EntryAt;
    LineOfTable(t, 24);
    NamesBefore(1);
    forall j | 1 <= j < 24 ensures EntryAt(HPACK.fixed, t, j).name != Ascii("cache-control") {
      LineOfTable(t, j);
      NamesBefore(j);
      DifferentNames(Line(j).0, "cache-control");
    }
  }

  /** Names of the dynamic table that begin with another character. */
  lemma KeyName(t: Table)
    requires forall i :: 0 <= i < |t.entries| ==> t.entries[i].name != Ascii("custom-key")
    ensures |HPACK.fixed| == STATIC_SIZE && !HasName(HPACK.fixed, t, Ascii("custom-key"))
  {
    hide Line, Ascii, EntryAt;
    forall j | HasIndex(HPACK.fixed, t, j) ensures EntryAt(HPACK.fixed, t, j).name != Ascii("custom-key") {
      if j <= 61 {
        LineOfTable(t, j);
        NoSuchName(j);
        DifferentNames(Line(j).0, "custom-key");
      } else {
        AtIndex(HPACK.fixed, t, j);
      }
    }
  }

  lemma Absent(t: Table, name: string, value: string)
    requires |value| in {8, 12, 15} && forall i :: 0 <= i < |t.entries| ==> t.entries[i] != Header(name, value)
    ensures |HPACK.fixed| == STATIC_SIZE && !HasHeader(HPACK.fixed, t, Header(name, value))
  {
    NotStatic(t, name, value);
    hide Ascii, EntryAt;
    forall j | HasIndex(HPACK.fixed, t, j) ensures EntryAt(HPACK.fixed, t, j) != Header(name, value) {
      AtIndex(HPACK.fixed, t, j);
    }
  }

  // ----- One field -----

  /** No name of the table properly begins with the name, and none is equal to it with a longer value. */
  ghost predicate NoClashIn(t: Table, e: Entry) {
    Bounded(t) && e.name != [] && NoPrefixClash(t.entries, e.name, e.value)
  }

  lemma WritesIndex(t: Table, e: Entry, i: nat)
    requires |HPACK.fixed| == STATIC_SIZE && IsIndexOf(HPACK.fixed, t, e, i) && i < 127 && NoClashIn(t, e)
    ensures Ready(HPACK) && FieldCode(HPACK, t, e.name, e.value) == [0x80 + i]
    ensures TableAfter(HPACK, t, e.name, e.value) == t
  {
    hide Ready, IsIndexOf, Bounded, NoPrefixClash, FieldCode, FindIndex, Prefixed, Pow2;
    HpackIsReady();
    assert Canonical(HPACK.code) by { CodeIsCanonical(); }
    hide Canonical;
    WritesBest(HPACK, t, e, IndexedField(i));
    SearchFinds(HPACK.fixed, t, e);
    OneIndex(HPACK.fixed, t, e, i, i);
    SmallPow2();
    SmallPrefixed(0x80, 7, i);
  }

  lemma CodeIsCanonical()
    ensures Canonical(HPACK.code) && HPACK.code == HPACK_CODE
  {
    hide Canonical;
    HpackIsReady();
  }

  /** A coded string is the shortest when it saves an octet. */
  lemma CodedIsShortest(k: Code, s: seq<byte>, coded: seq<byte>)
    requires Canonical(k) && HuffmanBytes(k, s) == coded && |coded| < |s| && |coded| < 127
    ensures IsShortest(k, s, Raw(true, coded))
  {
    hide Canonical, HuffmanBytes, Prefixed, Pow2;
    SmallPow2();
    SmallPrefixed(0x80, 7, |coded|);
  }

  lemma WritesStored(t: Table, e: Entry, i: nat, v: Raw)
    requires |HPACK.fixed| == STATIC_SIZE && !HasHeader(HPACK.fixed, t, e) && IsIndexOfName(HPACK.fixed, t, e.name, i) && i < 63
    requires NoClashIn(t, e) && |e.name| + |e.value| + 32 <= t.maxSize && |v.bytes| < 127
    requires Canonical(HPACK.code) && IsShortest(HPACK.code, e.value, v)
    ensures Ready(HPACK) && FieldCode(HPACK, t, e.name, e.value) == [0x40 + i] + Spelt(v)
    ensures TableAfter(HPACK, t, e.name, e.value) == Add(t, e)
  {
    hide Ready, Canonical, IsIndexOfName, HasHeader, HasName, Bounded, NoPrefixClash, FieldCode, FindIndex, Octets, HuffmanBytes,
      IsShortest, IsIndexOf, Add;
    HpackIsReady();
    assert i > 0 by { OneIndex(HPACK.fixed, t, e, i, i); }
    WritesBest(HPACK, t, e, LiteralField(Incremental, i, Raw(false, []), v));
    NotFound(t, e);
    StoredOctetsAre(i, v);
    assert [0x40 + i] + Spelt(v) == [0x40 + i] + [(if v.huffman then 0x80 else 0) + |v.bytes|] + v.bytes;
  }

  lemma NotFound(t: Table, e: Entry)
    requires |HPACK.fixed| == STATIC_SIZE && !HasHeader(HPACK.fixed, t, e) && NoClashIn(t, e)
    ensures FindIndex(HPACK.fixed, t, e.name, e.value) == 0
  {
    hide HasHeader, IsIndexOf, Bounded, NoPrefixClash, FindIndex;
    SearchFinds(HPACK.fixed, t, e);
    OneIndex(HPACK.fixed, t, e, FindIndex(HPACK.fixed, t, e.name, e.value), 0);
  }

  lemma WritesNew(t: Table, e: Entry, n: Raw, v: Raw)
    requires |HPACK.fixed| == STATIC_SIZE && !HasHeader(HPACK.fixed, t, e) && !HasName(HPACK.fixed, t, e.name)
    requires NoClashIn(t, e) && |e.name| + |e.value| + 32 <= t.maxSize && |n.bytes| < 127 && |v.bytes| < 127
    requires Canonical(HPACK.code) && IsShortest(HPACK.code, e.name, n) && IsShortest(HPACK.code, e.value, v)
    ensures Ready(HPACK) && FieldCode(HPACK, t, e.name, e.value) == [0x40] + Spelt(n) + Spelt(v)
    ensures TableAfter(HPACK, t, e.name, e.value) == Add(t, e)
  {
    hide Ready, Canonical, HasHeader, HasName, Bounded, NoPrefixClash, FieldCode, FindIndex, Octets, HuffmanBytes, IsShortest,
      IsIndexOf, IsIndexOfName, Add;
    HpackIsReady();
    WritesBest(HPACK, t, e, LiteralField(Incremental, 0, n, v));
    NotFound(t, e);
    NewOctetsAre(n, v);
  }

  lemma StringOctetsAre(raw: Raw)
    requires |raw.bytes| < 127
    ensures StringOctets(raw) == Spelt(raw)
  {
    hide Prefixed, Pow2;
    SmallPow2();
    SmallPrefixed(if raw.huffman then 0x80 else 0, 7, |raw.bytes|);
  }

  lemma NewOctetsAre(n: Raw, v: Raw)
    requires |n.bytes| < 127 && |v.bytes| < 127
    ensures Octets(LiteralField(Incremental, 0, n, v)) == [0x40] + Spelt(n) + Spelt(v)
  {
    hide Prefixed, Pow2, StringOctets, Spelt;
    SmallPow2();
    SmallPrefixed(0x40, 6, 0);
    StringOctetsAre(n);
    StringOctetsAre(v);
  }

  // ----- Appendix C.4 -----

  /** The tables of the examples hold the host and the cache control of the first requests. */
  function TableOf(k: nat): (t: Table)
    requires k <= 2
  {
    var host, cache := Header(":authority", "www.example.com"), Header("cache-control", "no-cache");
    Table(if k == 0 then [] else if k == 1 then [host] else [host, cache], 4096, 4096)
  }

  lemma TablesGrow()
    ensures Add(TableOf(0), Header(":authority", "www.example.com")) == TableOf(1)
    ensures Add(TableOf(1), Header("cache-control", "no-cache")) == TableOf(2)
    ensures Bounded(TableOf(0)) && Bounded(TableOf(1)) && Bounded(TableOf(2))
  {
    hide Ascii, Size, Evict;
    var host, cache := Header(":authority", "www.example.com"), Header("cache-control", "no-cache");
    NoEntries();
    Room(TableOf(0), host);
    assert [] + [host] == [host] && [host] + [cache] == [host, cache];
    Room(TableOf(1), cache);
  }

  lemma NoClashes(k: nat, name: string, value: string)
    requires k <= 2 && name != ""
    requires name == ":authority" ==> |value| == 15
    requires name == "cache-control" ==> |value| == 8
    requires |name| >= 2
    requires name == ":authority" || Octet(name[0]) != Octet(':') || Octet(name[1]) != Octet('a')
    requires name == "cache-control" || Octet(name[0]) != Octet('c') || Octet(name[1]) != Octet('a')
    ensures NoClashIn(TableOf(k), Header(name, value))
  {
    TablesGrow();
    hide Bounded;
    var es, a := TableOf(k).entries, Ascii(name);
    assert a[0] == Octet(name[0]) && a[1] == Octet(name[1]);
    forall i | 0 <= i < |es| ensures !(a < es[i].name) && (es[i].name == a ==> !(Ascii(value) < es[i].value)) {
      assert es[i].name[0] == Octet(if i == 0 then ':' else 'c') && es[i].name[1] == Octet('a');
    }
  }

  /** One header after the other. */
  lemma WritesFirst(t: Table, e: Entry, rest: seq<Entry>, code: seq<byte>, t': Table)
    requires Ready(HPACK) && Bounded(t) && Storable([e]) && Storable(rest)
    requires FieldCode(HPACK, t, e.name, e.value) == code && TableAfter(HPACK, t, e.name, e.value) == t'
    ensures Storable([e] + rest) && Bounded(t')
    ensures HeadersCode(HPACK, t, [e] + rest) == code + HeadersCode(HPACK, t', rest)
  {
    hide Ready, Bounded, FieldCode, TableAfter;
    assert Storable([e] + rest) by {
      assert [e][0] == e;
    }
    NextIsBounded(HPACK, t, [e] + rest);
    assert ([e] + rest)[1..] == rest;
  }

  lemma Short(name: string, value: string)
    requires name != "" && |name| + |value| < 1000
    ensures Storable([Header(name, value)])
  {
  }

  /** Headers of the static table. */
  lemma WritesLine(k: nat, i: nat, rest: seq<Entry>)
    requires k <= 2 && i in {2, 4, 5, 6, 7} && Storable(rest)
    ensures var e := Header(Line(i).0, Line(i).1);
            && Ready(HPACK) && Bounded(TableOf(k)) && Storable([e] + rest)
            && HeadersCode(HPACK, TableOf(k), [e] + rest) == [0x80 + i] + HeadersCode(HPACK, TableOf(k), rest)
  {
    hide Bounded, Ready, HeadersCode, Storable, Ascii, IsIndexOf, FieldCode, TableAfter;
    TablesGrow();
    LineNames(i);
    NoClashes(k, Line(i).0, Line(i).1);
    StaticIndex(TableOf(k), i);
    var e := Header(Line(i).0, Line(i).1);
    WritesIndex(TableOf(k), e, i);
    Short(Line(i).0, Line(i).1);
    WritesFirst(TableOf(k), e, rest, [0x80 + i], TableOf(k));
  }

  lemma LineNames(i: nat)
    requires i in {2, 4, 5, 6, 7}
    ensures 2 <= |Line(i).0| < 20 && |Line(i).1| < 20 && Octet(Line(i).0[0]) == Octet(':') && Octet(Line(i).0[1]) != Octet('a')
  {
  }

  /** Entry j of the table, the newest being 0. */
  lemma WritesNewest(k: nat, rest: seq<Entry>)
    requires 1 <= k <= 2 && Storable(rest)
    ensures var e := Header(":authority", "www.example.com");
            && Ready(HPACK) && Bounded(TableOf(k)) && Storable([e] + rest)
            && HeadersCode(HPACK, TableOf(k), [e] + rest) == [0xbd + k] + HeadersCode(HPACK, TableOf(k), rest)
  {
    hide Bounded, Ready, HeadersCode, Storable, Ascii, FieldCode, TableAfter;
    TablesGrow();
    NoClashes(k, ":authority", "www.example.com");
    HostIndex(k);
    var e := Header(":authority", "www.example.com");
    WritesIndex(TableOf(k), e, 61 + k);
    Short(":authority", "www.example.com");
    WritesFirst(TableOf(k), e, rest, [0xbd + k], TableOf(k));
  }

  lemma HostIndex(k: nat)
    requires 1 <= k <= 2
    ensures |HPACK.fixed| == STATIC_SIZE
    ensures IsIndexOf(HPACK.fixed, TableOf(k), Header(":authority", "www.example.com"), 61 + k)
  {
    hide Ascii;
    var t, e := TableOf(k), Header(":authority", "www.example.com");
    NotStatic(t, ":authority", "www.example.com");
    DifferentNames(":authority", "cache-control");
    AtIndex(HPACK.fixed, t, 61 + k);
    assert Newest(t.entries, k) == e;
    if k == 2 {
      AtIndex(HPACK.fixed, t, 62);
      assert Newest(t.entries, 1).name == Ascii("cache-control");
    }
    hide EntryAt, TableOf;
  }

  lemma NothingWritten(t: Table)
    requires Bounded(t)
    ensures Ready(HPACK) && Storable([]) && HeadersCode(HPACK, t, []) == []
  {
    hide Ready;
    HpackIsReady();
  }

  /** A value with the lowest index of its name. */
  lemma WritesHost(rest: seq<Entry>)
    requires Storable(rest)
    ensures var e := Header(":authority", "www.example.com");
            && Ready(HPACK) && Bounded(TableOf(0)) && Bounded(TableOf(1)) && Storable([e] + rest)
            && HeadersCode(HPACK, TableOf(0), [e] + rest) ==
               [0x41] + Spelt(Raw(true, Hex(12, 0xf1e3c2e5f23a6ba0ab90f4ff))) + HeadersCode(HPACK, TableOf(1), rest)
  {
    hide Bounded, Ready, HeadersCode, Storable, Ascii, FieldCode, TableAfter, Hex, HuffmanBytes, Canonical, IsShortest, Add,
      IsIndexOfName;
    TablesGrow();
    NoClashes(0, ":authority", "www.example.com");
    Absent(TableOf(0), ":authority", "www.example.com");
    HostName(TableOf(0));
    WwwExampleCom();
    CodeIsCanonical();
    var e, v := Header(":authority", "www.example.com"), Raw(true, Hex(12, 0xf1e3c2e5f23a6ba0ab90f4ff));
    CodedIsShortest(HPACK_CODE, e.value, v.bytes);
    WritesStored(TableOf(0), e, 1, v);
    Short(":authority", "www.example.com");
    WritesFirst(TableOf(0), e, rest, [0x41] + Spelt(v), TableOf(1));
  }

  lemma WritesCache(rest: seq<Entry>)
    requires Storable(rest)
    ensures var e := Header("cache-control", "no-cache");
            && Ready(HPACK) && Bounded(TableOf(1)) && Bounded(TableOf(2)) && Storable([e] + rest)
            && HeadersCode(HPACK, TableOf(1), [e] + rest) ==
               [0x58] + Spelt(Raw(true, Hex(6, 0xa8eb10649cbf))) + HeadersCode(HPACK, TableOf(2), rest)
  {
    hide Bounded, Ready, HeadersCode, Storable, Ascii, FieldCode, TableAfter, Hex, HuffmanBytes, Canonical, IsShortest, Add,
      IsIndexOfName;
    TablesGrow();
    NoClashes(1, "cache-control", "no-cache");
    DifferentNames(":authority", "cache-control");
    Absent(TableOf(1), "cache-control", "no-cache");
    CacheName(TableOf(1));
    NoCache();
    CodeIsCanonical();
    var e, v := Header("cache-control", "no-cache"), Raw(true, Hex(6, 0xa8eb10649cbf));
    CodedIsShortest(HPACK_CODE, e.value, v.bytes);
    WritesStored(TableOf(1), e, 24, v);
    Short("cache-control", "no-cache");
    WritesFirst(TableOf(1), e, rest, [0x58] + Spelt(v), TableOf(2));
  }

  /** A header with a new name ends the block. */
  lemma WritesKey()
    ensures var e := Header("custom-key", "custom-value");
            && Ready(HPACK) && Bounded(TableOf(2)) && Storable([e])
            && HeadersCode(HPACK, TableOf(2), [e]) ==
               [0x40] + Spelt(Raw(true, Hex(8, 0x25a849e95ba97d7f))) + Spelt(Raw(true, Hex(9, 0x25a849e95bb8e8b4bf)))
  {
    hide Bounded, Ready, HeadersCode, Storable, Ascii, FieldCode, TableAfter, Hex, HuffmanBytes, Canonical, IsShortest, Add,
      IsIndexOfName, HasName;
    TablesGrow();
    NoClashes(2, "custom-key", "custom-value");
    DifferentNames(":authority", "custom-key");
    DifferentNames("cache-control", "custom-key");
    Absent(TableOf(2), "custom-key", "custom-value");
    KeyName(TableOf(2));
    CustomKey();
    CustomValue();
    CodeIsCanonical();
    var e := Header("custom-key", "custom-value");
    var n, v := Raw(true, Hex(8, 0x25a849e95ba97d7f)), Raw(true, Hex(9, 0x25a849e95bb8e8b4bf));
    CodedIsShortest(HPACK_CODE, e.name, n.bytes);
    CodedIsShortest(HPACK_CODE, e.value, v.bytes);
    WritesNew(TableOf(2), e, n, v);
    Short("custom-key", "custom-value");
    var t' := Add(TableOf(2), e);
    NothingWritten(TableOf(2));
    WritesFirst(TableOf(2), e, [], [0x40] + Spelt(n) + Spelt(v), t');
    NothingWritten(t');
    assert [e] + [] == [e];
  }

  /** C.4.1. */
  lemma FirstRequestWritten()
    ensures var hs := [Header(":method", "GET")] + ([Header(":scheme", "http")] + ([Header(":path", "/")]
                      + ([Header(":authority", "www.example.com")] + [])));
            && Ready(HPACK) && Bounded(TableOf(0)) && Storable(hs)
            && HeadersCode(HPACK, TableOf(0), hs) == [0x82, 0x86, 0x84, 0x41] + ([0x8c] + Hex(12, 0xf1e3c2e5f23a6ba0ab90f4ff))
  {
    hide Bounded, Ready, HeadersCode, Storable, Ascii, Hex, TableOf;
    TablesGrow();
    NothingWritten(TableOf(1));
    var host := [Header(":authority", "www.example.com")] + [];
    WritesHost([]);
    WritesLine(0, 4, host);
    WritesLine(0, 6, [Header(":path", "/")] + host);
    WritesLine(0, 2, [Header(":scheme", "http")] + ([Header(":path", "/")] + host));
    Joined(0x82, 0x86, 0x84, 0x41, 0, Raw(true, Hex(12, 0xf1e3c2e5f23a6ba0ab90f4ff)));
  }

  /** C.4.2. */
  lemma SecondRequestWritten()
    ensures var hs := [Header(":method", "GET")] + ([Header(":scheme", "http")] + ([Header(":path", "/")]
                      + ([Header(":authority", "www.example.com")] + ([Header("cache-control", "no-cache")] + []))));
            && Ready(HPACK) && Bounded(TableOf(1)) && Storable(hs)
            && HeadersCode(HPACK, TableOf(1), hs) == [0x82, 0x86, 0x84, 0xbe, 0x58] + ([0x86] + Hex(6, 0xa8eb10649cbf))
  {
    hide Bounded, Ready, HeadersCode, Storable, Ascii, Hex, TableOf;
    TablesGrow();
    NothingWritten(TableOf(2));
    var cache := [Header("cache-control", "no-cache")] + [];
    var host := [Header(":authority", "www.example.com")] + cache;
    WritesCache([]);
    WritesNewest(1, cache);
    WritesLine(1, 4, host);
    WritesLine(1, 6, [Header(":path", "/")] + host);
    WritesLine(1, 2, [Header(":scheme", "http")] + ([Header(":path", "/")] + host));
    Joined(0x82, 0x86, 0x84, 0xbe, 0x58, Raw(true, Hex(6, 0xa8eb10649cbf)));
  }

  /** C.4.3. */
  lemma ThirdRequestWritten()
    ensures var hs := [Header(":method", "GET")] + ([Header(":scheme", "https")] + ([Header(":path", "/index.html")]
                      + ([Header(":authority", "www.example.com")] + [Header("custom-key", "custom-value")])));
            && Ready(HPACK) && Bounded(TableOf(2)) && Storable(hs)
            && HeadersCode(HPACK, TableOf(2), hs) == [0x82, 0x87, 0x85, 0xbf, 0x40]
               + ([0x88] + Hex(8, 0x25a849e95ba97d7f)) + ([0x89] + Hex(9, 0x25a849e95bb8e8b4bf))
  {
    hide Bounded, Ready, HeadersCode, Storable, Ascii, Hex, TableOf;
    var key := [Header("custom-key", "custom-value")];
    var host := [Header(":authority", "www.example.com")] + key;
    WritesKey();
    WritesNewest(2, key);
    WritesLine(2, 5, host);
    WritesLine(2, 7, [Header(":path", "/index.html")] + host);
    WritesLine(2, 2, [Header(":scheme", "https")] + ([Header(":path", "/index.html")] + host));
    JoinedTwo(0x82, 0x87, 0x85, 0xbf, 0x40, Raw(true, Hex(8, 0x25a849e95ba97d7f)), Raw(true, Hex(9, 0x25a849e95bb8e8b4bf)));
  }
}
