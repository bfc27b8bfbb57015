/** The codec that the server runs: the static table of src/hpack/tables.h and the tables of huffman.c. */
module HpackInstance {
  import opened Bits
  import opened Huffman
  import opened HuffmanTables
  import opened HpackCode
  import opened HexOctets
  import opened Eos
  import opened TableSpec
  import opened TableSearch
  import opened HpackBlock
  import opened HpackLockstep
  import opened HpackDecoder
  import opened HpackEncoder
  import opened HpackDelivery
  import opened HuffmanString
  import opened HpackString
  import opened HpackSizes
  import PrefixInt

  /** Element i of a row of eight. */
  function Row(i: int, a: string, b: string, c: string, d: string, e: string, f: string, g: string, h: string): string {
    if i < 4 then if i < 2 then if i < 1 then a else b else if i < 3 then c else d
    else if i < 6 then if i < 5 then e else f else if i < 7 then g else h
  }

  /** NAME_TABLE_LITERAL. */
  function Name(i: nat): string {
    if i < 8 then Row(i, ":authority", ":method", ":method", ":path", ":path", ":scheme", ":scheme", ":status")
    else if i < 16 then
      Row(i - 8, ":status", ":status", ":status", ":status",
        ":status", ":status", "accept-charset", "accept-encoding")
    else if i < 24 then
      Row(i - 16, "accept-language", "accept-ranges", "accept", "access-control-allow-origin",
        "age", "allow", "authorization", "cache-control")
    else if i < 32 then
      Row(i - 24, "content-disposition", "content-encoding", "content-language", "content-length",
        "content-location", "content-range", "content-type", "cookie")
    else if i < 40 then
      Row(i - 32, "date", "etag", "expect", "expires",
        "from", "host", "if-match", "if-modified-since")
    else if i < 48 then
      Row(i - 40, "if-none-match", "if-range", "if-unmodified-since", "last-modified",
        "link", "location", "max-forwards", "proxy-authenticate")
    else if i < 56 then
      Row(i - 48, "proxy-authorization", "range", "referer", "refresh",
        "retry-after", "server", "set-cookie", "strict-transport-security")
    else Row(i - 56, "transfer-encoding", "user-agent", "vary", "via", "www-authenticate", "", "", "")
  }

  /** VALUE_TABLE_LITERAL. */
  function Value(i: nat): string {
    if i < 8 then Row(i, "", "GET", "POST", "/", "/index.html", "http", "https", "200")
    else if i < 16 then Row(i - 8, "204", "206", "304", "400", "404", "500", "", "gzip, deflate")
    else ""
  }

  lemma NamesAreShort(i: nat)
    ensures |Name(i)| < 32
  {
  }

  function StaticEntry(i: nat): (e: Entry)
    ensures NulFreeEntry(e)
  {
    Entry(Ascii(Name(i)), Ascii(Value(i)))
  }

  const STATIC: seq<Entry> := seq(STATIC_SIZE, i requires 0 <= i < STATIC_SIZE => StaticEntry(i))

  /** HPACK_HEADER_NAME_LEN and HPACK_HEADER_VALUE_LEN. */
  const HPACK: Codec := Codec(HPACK_CODE, STATIC, 32, 64)

  lemma HpackIsReady()
    ensures Ready(HPACK) && FixedOk(HPACK)
  {
    hide Leaf, LeafOf, Name, Value, Ascii, Canonical, ShortRuns;
    HpackIsCanonical();
    HpackRunsAreShort();
    forall i | 0 <= i < STATIC_SIZE
      ensures |HPACK.fixed[i].name| < 0x7000 && NulFreeEntry(HPACK.fixed[i])
    {
      NamesAreShort(i);
    }
  }

  lemma NoShortNames(i: nat)
    requires i < STATIC_SIZE
    ensures |StaticEntry(i).name| >= 2
  {
    hide Value, Ascii;
  }

  /** In the server's own tables: with x: 123 stored, the query x: 12 is answered with the index of x: 123. */
  lemma ServerSearchTakesPrefix(t: Table)
    requires t.entries == [Entry([120], [49, 50, 51])]
    ensures FindIndex(STATIC, t, [120], [49, 50]) == 62 && ExactIndex(STATIC, t, [120], [49, 50]) == 0
  {
    hide Name, Value, Ascii, StaticEntry, FindIndex, ExactIndex;
    forall i | 0 <= i < STATIC_SIZE ensures STATIC[i] != Entry([120], [49, 50]) {
      NoShortNames(i);
    }
    assert [49, 50, 51] == [49, 50] + [51];
    SearchTakesPrefix(STATIC, t, [120], [49, 50], [51]);
  }

  lemma ValuesAreShort(i: nat)
    ensures |Value(i)| < 64
  {
  }

  /**
   * Whatever bytes a peer sends, from an empty table: the server's two buffers of 32 and 64 octets are respected if and only
   * if no literal that is decoded spills or fills its buffer.
   */
  lemma ServerRunOverrunsIff(t: Table, blocks: seq<seq<byte>>, capacity: nat)
    requires t.entries == []
    ensures Ready(HPACK)
    ensures RunOverruns(HPACK, t, blocks, capacity) <==> SomeOverruns(HPACK, RunDecodings(HPACK, t, blocks, capacity))
  {
    hide Leaf, LeafOf, Name, Value, Ascii, Canonical, ShortRuns, RunOverruns, RunDecodings, SomeOverruns, Receive;
    HpackIsReady();
    forall i | 0 <= i < STATIC_SIZE
      ensures EntryFits(HPACK, STATIC[i])
    {
      NamesAreShort(i);
      ValuesAreShort(i);
    }
    RunOverrunsIff(HPACK, t, blocks, capacity);
  }

  /** The letter a, n times. */
  function Letters(n: nat): (s: seq<byte>)
    ensures |s| == n && NulFree(s)
  {
    seq(n, _ => 97)
  }

  lemma LettersPass(n: nat)
    requires n < 256
    ensures PassesEosCheck(Letters(n))
    ensures Canonical(HPACK_CODE) && |HuffmanBytes(HPACK_CODE, Letters(n))| < 256 ==>
              PassesEosCheck(HuffmanBytes(HPACK_CODE, Letters(n)))
  {
    var s := Letters(n);
    hide EosFree, BitsOf, HuffmanBytes, Canonical, PassesEosCheck, Letters;
    PrintablePassesEosScan(s) by { LettersArePrintable(n); }
    ScannedWholePasses(s);
    var b := HuffmanBytes(HPACK_CODE, s);
    if |b| < 256 {
      ScannedWholePasses(b);
    }
  }

  lemma LettersArePrintable(n: nat)
    ensures forall i :: 0 <= i < n ==> Printable(Letters(n)[i])
  {
  }

  lemma ScannedWholePasses(b: seq<byte>)
    requires |b| < 256 && EosFree(BitsOf(b))
    ensures PassesEosCheck(b)
  {
    hide EosFree, BitsOf;
    assert b[..|b|] == b;
  }

  lemma SmallCodes()
    ensures Marked(0, 6) == [0x40] && PrefixInt.Encode(32, 7) == [32] && PrefixInt.Encode(1, 7) == [1]
    ensures Marked(21, 7) == [0x95]
  {
    Pow2Small();
    OrDisjoint(1, 21, 7);
  }

  /** A plain name of 32 characters is accepted, fills the buffer and is measured without a terminator. */
  lemma ServerPlainNameOverruns(t: Table, capacity: nat)
    ensures Ready(HPACK)
    ensures DecodeInto(HPACK, t, [0x40, 0x20] + Letters(32) + [1, 98, 0xBE], true, [], capacity)
            == Undelivered(Overrun, [], t)
  {
    HpackIsReady();
    LettersPass(32);
    var name, value := Raw(false, Letters(32)), Raw(false, [98]);
    hide Canonical, Letters, PassesEosCheck, LiteralCode;
    PlainNameOverruns(HPACK, t, Letters(32), [98]);
    hide Overruns;
    PlainNameCode(Letters(32));
    ShortPasses(value.bytes);
    LiteralBlockOverruns(HPACK, t, true, name, value, [0xBE], capacity);
  }

  lemma PlainNameCode(s: seq<byte>)
    requires |s| == 32
    ensures LiteralCode(true, Raw(false, s), Raw(false, [98])) + [0xBE] == [0x40, 0x20] + s + [1, 98, 0xBE]
  {
    SmallCodes();
    hide Marked, PrefixInt.Encode;
  }

  lemma ShortPasses(bytes: seq<byte>)
    requires |bytes| < 4
    ensures PassesEosCheck(bytes)
  {
  }

  /** A Huffman-coded name of 33 characters takes 21 octets, and its last character is stored behind the buffer. */
  lemma ServerCodedNameOverruns(t: Table, capacity: nat)
    ensures Ready(HPACK) && |HuffmanBytes(HPACK_CODE, Letters(33))| == 21
    ensures DecodeInto(HPACK, t, [0x40, 0x95] + HuffmanBytes(HPACK_CODE, Letters(33)) + [1, 98], true, [], capacity)
            == Undelivered(Overrun, [], t)
  {
    HpackIsReady();
    LettersPass(33);
    LettersLength(33);
    CodedSpillsIff(HPACK_CODE, Letters(33), 32);
    var bytes := HuffmanBytes(HPACK_CODE, Letters(33));
    var name, value := Raw(true, bytes), Raw(false, [98]);
    hide Canonical, HuffmanBytes, Letters, PassesEosCheck, Spills, LiteralCode;
    assert Overruns(HPACK, t, Literal(true, 0, name, value)) by {
      hide Fails, Fills, Blank;
    }
    hide Overruns;
    CodedNameCode(bytes);
    ShortPasses(value.bytes);
    LiteralBlockOverruns(HPACK, t, true, name, value, [], capacity);
  }

  lemma CodedNameCode(bytes: seq<byte>)
    requires |bytes| == 21
    ensures LiteralCode(true, Raw(true, bytes), Raw(false, [98])) + [] == [0x40, 0x95] + bytes + [1, 98]
  {
    SmallCodes();
    hide Marked, PrefixInt.Encode;
  }

  lemma LettersLength(n: nat)
    ensures Canonical(HPACK_CODE) && |StringBits(HPACK_CODE, Letters(n))| == 5 * n
  {
    hide Leaf, LeafOf;
    HpackIsCanonical();
    LetterLeaf();
    LengthOfLeaf(HPACK_CODE, 3, SHORTEST, 5);
    hide Canonical, SymbolBits;
    LettersBits(n);
  }

  lemma {:induction false} LettersBits(n: nat)
    requires Canonical(HPACK_CODE) && CodeLength(HPACK_CODE, 97) == 5
    ensures |StringBits(HPACK_CODE, Letters(n))| == 5 * n
  {
    hide Canonical, SymbolBits;
    if n > 0 {
      assert Letters(n)[1..] == Letters(n - 1);
      LettersBits(n - 1);
    }
  }

  lemma LetterLeaf()
    ensures LeafOf(97) == 3 && FIRST_LEAF[5] == 0 && FIRST_LEAF[6] == 10
  {
  }

  lemma LettersAndTilde()
    ensures LeafOf(120) == 65 && LeafOf(126) == 89 && FIRST_LEAF[7] == 36 && FIRST_LEAF[8] == 68
    ensures FIRST_LEAF[13] == 84 && FIRST_LEAF[14] == 90
  {
  }

  /** x: ~ fits a buffer of five octets and fills it; the discarded Huffman form of ~ is written up to the sixth. */
  lemma ServerOverruns(t: Table)
    requires Bounded(t) && t.entries == []
    ensures Ready(HPACK) && HeaderFits(HPACK, t, [120], [126], 5) && FieldSize(HPACK, t, Entry([120], [126])) == 5
    ensures BlockExtent(HPACK, t, [Entry([120], [126])], 5, 0) == Extent(0, 6, 5)
  {
    hide Leaf, LeafOf, Name, Value, Ascii, StaticEntry, Canonical, ShortRuns, Bounded;
    HpackIsReady();
    LettersAndTilde();
    LengthOfLeaf(HPACK_CODE, 65, SHORTEST, 7);
    LengthOfLeaf(HPACK_CODE, 89, SHORTEST, 13);
    forall i | 0 <= i < STATIC_SIZE ensures |STATIC[i].name| >= 2 {
      NoShortNames(i);
    }
    StaticFromHits(STATIC, [120], [126], 0);
    DynamicBound(t.entries, [120], [126], 1);
    AttemptOverruns(HPACK, t, 120, 126);
  }

  ghost predicate PrintableText(s: seq<byte>) {
    forall i :: 0 <= i < |s| ==> Printable(s[i])
  }

  /** What the server may send: a printable name of 1 to 31 bytes and a printable value of at most 63. */
  ghost predicate PrintableHeader(e: Entry) {
    1 <= |e.name| <= 31 && |e.value| <= 63 && PrintableText(e.name) && PrintableText(e.value)
  }

  lemma PrintableIsSendable(e: Entry)
    requires PrintableHeader(e)
    ensures Ready(HPACK) && Sendable(HPACK, e.name, e.value)
  {
    hide Leaf, LeafOf, Name, Value, Ascii, Canonical, ShortRuns, Short;
    HpackIsReady();
    PrintableIsShort(e.name);
    PrintableIsShort(e.value);
  }

  /** No entry already in the table clashes with a header when its turn comes. */
  ghost predicate ClashFree(c: Codec, t: Table, hs: seq<Entry>)
    decreases |hs|
  {
    hs != [] ==>
      && NoPrefixClash(t.entries, hs[0].name, hs[0].value)
      && ClashFree(c, TableAfter(c, t, hs[0].name, hs[0].value), hs[1..])
  }

  ghost predicate ServerMessage(c: Codec, t: Table, m: Message) {
    && UpdatesOk(t, m.updates)
    && (forall i :: 0 <= i < |m.headers| ==> PrintableHeader(m.headers[i]))
    && ClashFree(c, UpdatesTable(t, m.updates), m.headers)
  }

  ghost predicate ServerRun(c: Codec, t: Table, ms: seq<Message>)
    decreases |ms|
  {
    ms != [] ==> ServerMessage(c, t, ms[0]) && ServerRun(c, MessageTable(c, t, ms[0]), ms[1..])
  }

  lemma {:induction false} PrintableHeadersOk(t: Table, hs: seq<Entry>)
    requires forall i :: 0 <= i < |hs| ==> PrintableHeader(hs[i])
    requires ClashFree(HPACK, t, hs)
    ensures Ready(HPACK) && HeadersOk(HPACK, t, hs)
    decreases |hs|
  {
    hide Ready, Sendable, Faithful, TableAfter, PrintableHeader, NoPrefixClash;
    HpackIsReady();
    if hs != [] {
      var e := hs[0];
      NamedHeader(e);
      PrintableIsSendable(e);
      NoPrefixClashIsFaithful(HPACK, t, e.name, e.value);
      PrintableHeadersOk(TableAfter(HPACK, t, e.name, e.value), hs[1..]);
    }
  }

  lemma NamedHeader(e: Entry)
    requires PrintableHeader(e)
    ensures e.name != []
  {
  }

  lemma {:induction false} ServerRunOk(t: Table, ms: seq<Message>)
    requires ServerRun(HPACK, t, ms)
    ensures Ready(HPACK) && RunOk(HPACK, t, ms)
    decreases |ms|
  {
    hide Ready, HeadersOk, ClashFree, UpdatesOk, UpdatesTable, MessageTable, PrintableHeader;
    HpackIsReady();
    if ms != [] {
      PrintableHeadersOk(UpdatesTable(t, ms[0].updates), ms[0].headers);
      ServerRunOk(MessageTable(HPACK, t, ms[0]), ms[1..]);
    }
  }

  /**
   * The codec of the server and a peer's decoder, from equal tables of at most 4096 bytes: for
   * every run of printable headers and size updates without a prefix clash in the tables, every block
   * decodes to its headers, which are added to a header list, and the two tables hold the same entries
   * again. The lists are those that were sent if and only if their names keep apart and they fit.
   */
  lemma ServerLockstep(t: Table, ms: seq<Message>, capacity: nat)
    requires Bounded(t) && ServerRun(HPACK, t, ms)
    ensures Ready(HPACK) && RunOk(HPACK, t, ms)
    ensures Receive(HPACK, t, Blocks(HPACK, t, ms), capacity) ==
            if Accepted(ms, capacity) then Received(Lists(ms, capacity), RunTable(HPACK, t, ms)) else Broken
    ensures Receive(HPACK, t, Blocks(HPACK, t, ms), capacity) == Received(VisibleLists(ms), RunTable(HPACK, t, ms)) <==>
            forall i :: 0 <= i < |ms| ==> Separate(ms[i], capacity)
  {
    hide Ready, Bounded, Blocks, Receive, RunTable, VisibleLists, Lists, Accepted, Separate, RunOk;
    ServerRunOk(t, ms);
    Lockstep(HPACK, t, ms, capacity);
    LockstepIsExactIff(HPACK, t, ms, capacity);
  }
}
