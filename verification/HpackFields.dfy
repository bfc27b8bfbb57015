/**
 * The representations of section 6 of RFC 7541, octet by octet, and what src/hpack/decoder.c makes of each: of all of
 * them, those that the encoder never writes included.
 */
module HpackFields {
  import opened Bits
  import PrefixInt
  import opened Huffman
  import opened HuffmanString
  import opened Eos
  import opened TableSpec
  import opened TableRuns
  import opened HpackString
  import opened HpackBlock

  /** With incremental indexing, without indexing, never indexed: sections 6.2.1 to 6.2.3. */
  datatype Indexing = Incremental | Without | Never

  datatype Representation =
    | IndexedField(index: nat)
    | LiteralField(indexing: Indexing, index: nat, name: Raw, value: Raw)
    | TableSize(size: nat)

  /** An integer below a pattern of high bits. */
  function Prefixed(pattern: byte, prefix: nat, n: nat): (r: seq<byte>)
    requires (pattern, prefix) in {(0x80, 7), (0, 7), (0x40, 6), (0x20, 5), (0x10, 4), (0, 4)}
    ensures |r| == |PrefixInt.Encode(n, prefix)| && pattern <= r[0]
  {
    var e := PrefixInt.Encode(n, prefix);
    Pow2Small();
    [pattern + e[0]] + e[1..]
  }

  function StringOctets(raw: Raw): (r: seq<byte>) {
    Prefixed(if raw.huffman then 0x80 else 0, 7, |raw.bytes|) + raw.bytes
  }

  function Octets(rep: Representation): (r: seq<byte>)
    ensures r != []
  {
    match rep
    case IndexedField(index) => Prefixed(0x80, 7, index)
    case TableSize(size) => Prefixed(0x20, 5, size)
    case LiteralField(indexing, index, name, value) =>
      (match indexing
       case Incremental => Prefixed(0x40, 6, index)
       case Never => Prefixed(0x10, 4, index)
       case Without => Prefixed(0, 4, index))
      + (if index > 0 then [] else StringOctets(name)) + StringOctets(value)
  }

  /** All integers are within the limit; a name that has an index is not spelt out. */
  ghost predicate Codable(rep: Representation) {
    match rep
    case IndexedField(index) => index <= PrefixInt.MAX_INTEGER
    case TableSize(size) => size <= PrefixInt.MAX_INTEGER
    case LiteralField(_, index, name, value) =>
      && index <= PrefixInt.MAX_INTEGER && |value.bytes| <= PrefixInt.MAX_INTEGER
      && (if index > 0 then name == Raw(false, []) else |name.bytes| <= PrefixInt.MAX_INTEGER)
  }

  function FieldOf(rep: Representation): (f: Field) {
    match rep
    case IndexedField(index) => Indexed(index)
    case TableSize(size) => SizeUpdate(size)
    case LiteralField(indexing, index, name, value) => Literal(indexing == Incremental, index, name, value)
  }

  lemma DecodePrefixed(pattern: byte, prefix: nat, n: nat, post: seq<byte>)
    requires (pattern, prefix) in {(0x80, 7), (0, 7), (0x40, 6), (0x20, 5), (0x10, 4), (0, 4)}
    requires n <= PrefixInt.MAX_INTEGER
    ensures PrefixInt.Decode(Prefixed(pattern, prefix, n) + post, prefix) == PrefixInt.Value(n)
    ensures Prefixed(pattern, prefix, n)[0] < pattern + Pow2(prefix)
  {
    Pow2Small();
    var preamble := if pattern == 0 then 0 else 1;
    assert preamble * Pow2(prefix) == pattern;
    PrefixInt.RoundTrip(n, prefix, preamble, post);
    hide PrefixInt.Encode, PrefixInt.Decode, Or, Pow2;
  }

  lemma PowersOfPrefixes()
    ensures Pow2(7) == 128 && Pow2(6) == 64 && Pow2(5) == 32 && Pow2(4) == 16
  {
    Pow2Small();
  }

  lemma CutOut(a: seq<byte>, b: seq<byte>, c: seq<byte>)
    ensures a + b + c == a + (b + c) && (a + b + c)[|a|..|a| + |b|] == b
  {
  }

  lemma ParseStringOctets(raw: Raw, post: seq<byte>)
    requires |raw.bytes| <= PrefixInt.MAX_INTEGER
    ensures ParseString(StringOctets(raw) + post) == Parsed(raw, |StringOctets(raw)|)
  {
    hide Prefixed, PrefixInt.Encode, PrefixInt.Decode, Pow2;
    var pattern: byte := if raw.huffman then 0x80 else 0;
    var n, head := |raw.bytes|, Prefixed(if raw.huffman then 0x80 else 0, 7, |raw.bytes|);
    PowersOfPrefixes();
    DecodePrefixed(pattern, 7, n, raw.bytes + post);
    CutOut(head, raw.bytes, post);
  }

  /** Every representation, whatever follows it, is parsed back and consumed exactly. */
  lemma ParseOctets(rep: Representation, post: seq<byte>)
    requires Codable(rep)
    ensures ParseField(Octets(rep) + post) == Got(FieldOf(rep), |Octets(rep)|)
  {
    hide PrefixInt.Encode, PrefixInt.Decode, Prefixed, StringOctets, ParseString;
    Pow2Small();
    match rep
    case IndexedField(index) => DecodePrefixed(0x80, 7, index, post);
    case TableSize(size) => DecodePrefixed(0x20, 5, size, post);
    case LiteralField(indexing, index, name, value) =>
      var prefix := if indexing == Incremental then 6 else 4;
      var head := match indexing
        case Incremental => Prefixed(0x40, 6, index)
        case Never => Prefixed(0x10, 4, index)
        case Without => Prefixed(0, 4, index);
      var n, v := if index > 0 then [] else StringOctets(name), StringOctets(value);
      Reassociate(head, n, v, post);
      DecodePrefixed(match indexing case Incremental => 0x40 case Never => 0x10 case Without => 0, prefix, index, n + v + post);
      LiteralOctets(indexing == Incremental, index, name, value, head, post);
  }

  lemma LiteralOctets(stored: bool, index: nat, name: Raw, value: Raw, head: seq<byte>, post: seq<byte>)
    requires |value.bytes| <= PrefixInt.MAX_INTEGER
    requires if index > 0 then name == Raw(false, []) else |name.bytes| <= PrefixInt.MAX_INTEGER
    ensures var code := head + (if index > 0 then [] else StringOctets(name)) + StringOctets(value);
            ParseLiteral(stored, index, |head|, code + post) == Got(Literal(stored, index, name, value), |code|)
  {
    hide StringOctets, ParseString;
    var n, v := if index > 0 then [] else StringOctets(name), StringOctets(value);
    var bs := head + n + v + post;
    ParseStringOctets(value, post);
    if index > 0 {
      assert bs[|head|..] == v + post;
    } else {
      ParseStringOctets(name, v + post);
      assert bs[|head|..] == n + (v + post) && bs[|head| + |n|..] == v + post;
    }
  }

  /**
   * The first octet alone tells what a field does to the table: from 64 to 127 the header is put into it, from 32 to 63 it
   * changes its size and there is no header, and otherwise the table stays as it is.
   */
  lemma FirstOctetDecides(c: Codec, t: Table, bs: seq<byte>)
    requires Sized(c.code) && |c.fixed| == STATIC_SIZE && bs != [] && ParseField(bs).Got?
    requires HpackBlock.Apply(c, t, ParseField(bs).field).Applied?
    ensures var f := ParseField(bs).field; var a := HpackBlock.Apply(c, t, f);
            && (bs[0] < 32 || bs[0] >= 128 ==> a.table == t)
            && (64 <= bs[0] < 128 ==>
                  |a.name| + |a.value| + 32 <= t.maxSize && a.table == Add(t, Entry(a.name, a.value)))
            && (32 <= bs[0] < 64 ==>
                  f.SizeUpdate? && f.size <= t.limit && a.table == Resize(t, f.size) && a.name == a.value == [])
  {
    hide DecodeString, ParseString, PrefixInt.Decode, PrefixInt.Encode, Add, Resize;
  }

  /** What a block does to the table, read off the first octets of its fields. */
  ghost function BlockChanges(c: Codec, t: Table, bs: seq<byte>): (cs: seq<Change>)
    requires Sized(c.code) && |c.fixed| == STATIC_SIZE
    decreases |bs|
  {
    if bs == [] then []
    else
      match ParseField(bs)
      case Bad => []
      case Got(f, used) =>
        var a := HpackBlock.Apply(c, t, f);
        if a.Refused? || used > |bs| then []
        else
          (if 64 <= bs[0] < 128 then [Insert(Entry(a.name, a.value))]
           else if 32 <= bs[0] < 64 && f.SizeUpdate? then [SetSize(f.size)]
           else [])
          + BlockChanges(c, a.table, bs[used..])
  }

  /** The table after a block is the one that these changes make, one after the other. */
  lemma {:induction false} TableOfBlock(c: Codec, t: Table, bs: seq<byte>, updatesAllowed: bool, capacity: nat)
    requires Sized(c.code) && |c.fixed| == STATIC_SIZE && DecodeBlock(c, t, bs, updatesAllowed).Block?
    ensures DecodeBlock(c, t, bs, updatesAllowed).table == Run(t, BlockChanges(c, t, bs), capacity)
    decreases |bs|
  {
    hide ParseField, Acceptable, HpackBlock.Apply, Emit, Add, Resize;
    if bs != [] {
      var f, used := ParseField(bs).field, ParseField(bs).used;
      var a := HpackBlock.Apply(c, t, f);
      FirstOctetDecides(c, t, bs);
      TableOfBlock(c, a.table, bs[used..], f.SizeUpdate?, capacity);
      var rest := BlockChanges(c, a.table, bs[used..]);
      assert [] + rest == rest;
      OneChange(t, Insert(Entry(a.name, a.value)), rest, capacity);
      if f.SizeUpdate? {
        OneChange(t, SetSize(f.size), rest, capacity);
      }
    }
  }

  lemma OneChange(t: Table, c: Change, cs: seq<Change>, capacity: nat)
    ensures Run(t, [c] + cs, capacity) == Run(TableRuns.Apply(t, c, capacity), cs, capacity)
  {
    hide TableRuns.Apply;
    assert ([c] + cs)[1..] == cs;
  }

  // ----- What comes out -----

  /** A string literal for a text that fits its buffer: as it is, or Huffman-coded. */
  ghost predicate Spells(k: Code, raw: Raw, s: seq<byte>, size: nat)
    requires Canonical(k)
  {
    && NulFree(s) && |s| < size && PassesEosCheck(raw.bytes)
    && (raw == Raw(false, s) || raw == Raw(true, HuffmanBytes(k, s)))
  }

  lemma SpeltDecodes(k: Code, raw: Raw, s: seq<byte>, size: nat)
    requires Canonical(k) && Spells(k, raw, s, size)
    ensures DecodeString(k, raw, size) == Terminated(s)
  {
    hide Canonical, HuffmanBytes, TextFrom, BitsOf, SymbolCount, PassesEosCheck;
    if raw.huffman {
      HuffmanRoundTrip(k, s, size);
      CountOfText(k, BitsOf(HuffmanBytes(k, s)), 0, 0, size);
    }
  }

  /** An index yields its entry and leaves the table alone; index 0 and those beyond the table are refused. */
  lemma IndexedMeans(c: Codec, t: Table, index: nat, post: seq<byte>, first: bool)
    requires Ready(c) && index <= PrefixInt.MAX_INTEGER
    ensures var b := DecodeBlock(c, t, Octets(IndexedField(index)) + post, first);
            if index == 0 || !HasIndex(c.fixed, t, index) then b == Rejected(Compression)
            else
              var e := EntryAt(c.fixed, t, index);
              |e.name| < c.nameSize && |e.value| < c.valueSize ==>
                b == Before(Emit(e.name, e.value), DecodeBlock(c, t, post, false))
  {
    hide ParseField, Octets, Canonical, ShortRuns;
    ParseOctets(IndexedField(index), post);
    var code := Octets(IndexedField(index));
    assert (code + post)[|code|..] == post;
  }

  /** A size update works at the start of a block and up to the limit, and stands for no header. */
  lemma TableSizeMeans(c: Codec, t: Table, size: nat, post: seq<byte>, first: bool)
    requires Ready(c) && size <= PrefixInt.MAX_INTEGER
    ensures DecodeBlock(c, t, Octets(TableSize(size)) + post, first) ==
            if first && size <= t.limit then DecodeBlock(c, Resize(t, size), post, true) else Rejected(Compression)
  {
    hide ParseField, Octets, Canonical, ShortRuns, Resize;
    ParseOctets(TableSize(size), post);
    var code := Octets(TableSize(size));
    assert (code + post)[|code|..] == post;
    var rest := DecodeBlock(c, Resize(t, size), post, true);
    if rest.Block? {
      assert [] + rest.headers == rest.headers;
    }
  }

  /** The name of a literal: spelt out, or that of an entry. */
  ghost predicate Names(c: Codec, t: Table, rep: Representation, name: seq<byte>)
    requires Ready(c) && rep.LiteralField?
  {
    if rep.index == 0 then Spells(c.code, rep.name, name, c.nameSize)
    else HasIndex(c.fixed, t, rep.index) && EntryAt(c.fixed, t, rep.index).name == name && |name| < c.nameSize
  }

  /** A literal stands for its name and value; only with incremental indexing it goes into the table, where it must fit. */
  lemma LiteralMeans(c: Codec, t: Table, rep: Representation, name: seq<byte>, value: seq<byte>, post: seq<byte>, first: bool)
    requires Ready(c) && Codable(rep) && rep.LiteralField?
    requires Names(c, t, rep, name) && Spells(c.code, rep.value, value, c.valueSize)
    ensures var e := Entry(name, value);
            DecodeBlock(c, t, Octets(rep) + post, first) ==
            if rep.indexing == Incremental && EntrySize(e) > t.maxSize then Rejected(Internal)
            else
              var t' := if rep.indexing == Incremental then Add(t, e) else t;
              Before(Emit(name, value), DecodeBlock(c, t', post, false))
  {
    hide ParseField, Octets, Canonical, ShortRuns, DecodeString, PassesEosCheck, Add;
    ParseOctets(rep, post);
    SpeltDecodes(c.code, rep.value, value, c.valueSize);
    if rep.index == 0 {
      SpeltDecodes(c.code, rep.name, name, c.nameSize);
    }
    var code := Octets(rep);
    assert (code + post)[|code|..] == post;
  }

  /** A string with EOS in it, as far as it is scanned, makes the block a compression error; so does an unknown name. */
  lemma LiteralRefused(c: Codec, t: Table, rep: Representation, post: seq<byte>, first: bool)
    requires Ready(c) && Codable(rep) && rep.LiteralField?
    requires !PassesEosCheck(rep.value.bytes)
             || (if rep.index == 0 then !PassesEosCheck(rep.name.bytes) else !HasIndex(c.fixed, t, rep.index))
    ensures DecodeBlock(c, t, Octets(rep) + post, first) == Rejected(Compression)
  {
    hide ParseField, Octets, Canonical, ShortRuns, DecodeString, PassesEosCheck, TakeLiteral;
    ParseOctets(rep, post);
  }
}
