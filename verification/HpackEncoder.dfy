/** src/hpack/encoder.c at work on a table object; each method is proved against the functions of HpackBlock. */
module HpackEncoder {
  import opened Bits
  import PrefixInt
  import opened Huffman
  import opened HuffmanString
  import opened Eos
  import opened TableSpec
  import opened TableSearch
  import opened HeaderTable
  import opened HpackString
  import opened HpackBlock
  import opened HpackLockstep
  import opened Stores

  /** hpack_encoder_encode_integer with a preamble bit or-ed into the first octet. */
  method EncodeMarked(n: nat, prefix: nat) returns (ok: bool, out: seq<byte>)
    requires 4 <= prefix <= 7
    ensures ok <==> n <= PrefixInt.MAX_INTEGER
    ensures ok ==> out == Marked(n, prefix)
  {
    ok, out := PrefixInt.EncodeInteger(n, prefix);
    if ok {
      Pow2Small();
      PrefixInt.RoundTrip(n, prefix, 1, []);
      out := WithPreamble(Pow2(prefix), out);
    }
  }

  /** The preamble, or the Huffman flag, is or-ed into the first octet when that has been stored. */
  method AddPreamble(ghost n: nat, prefix: nat, ghost before: Memory, memory: Memory, at: int, ghost size: nat)
    returns (out: Memory)
    requires 4 <= prefix <= 7 && n <= PrefixInt.MAX_INTEGER && |PrefixInt.Encode(n, prefix)| <= size
    requires Changed(before, memory, at, size) && Holds(memory, at, PrefixInt.Encode(n, prefix))
    ensures Changed(before, out, at, size) && Holds(out, at, Marked(n, prefix))
    ensures Changed(memory, out, at, 1)
  {
    hide Changed, Holds, Store, PrefixInt.Encode, Marked;
    ghost var head := PrefixInt.Encode(n, prefix);
    StoredAt(memory, at, head);
    MarkedFirst(n, prefix);
    StoreFirst(before, memory, at, head, Marked(n, prefix), size);
    out := Store(memory, at, [Or(Pow2(prefix), memory[at])]);
  }

  lemma MarkedFirst(n: nat, prefix: nat)
    requires n <= PrefixInt.MAX_INTEGER && 4 <= prefix <= 7
    ensures var head, marked := PrefixInt.Encode(n, prefix), Marked(n, prefix);
            Or(Pow2(prefix), head[0]) == marked[0] && marked[1..] == head[1..]
  {
    Pow2Small();
    PrefixInt.RoundTrip(n, prefix, 1, []);
    hide Or, PrefixInt.Encode;
  }

  /** Whether a string can be written into a buffer of the given size. */
  ghost predicate StringFits(k: Code, s: seq<byte>, bufferSize: nat)
    requires Canonical(k)
  {
    |StringCode(k, s)| < bufferSize && (UsesHuffman(k, s) || |s| <= PrefixInt.MAX_INTEGER)
  }

  ghost function StringRc(k: Code, s: seq<byte>, bufferSize: nat): (rc: int)
    requires Canonical(k)
  {
    if StringFits(k, s, bufferSize) then |StringCode(k, s)| else if |s| > PrefixInt.MAX_INTEGER then -1 else -2
  }

  /** Octets stored for n octets and their length: the length before the sizes are compared, the rest only after. */
  ghost function Reach(n: nat, bufferSize: nat): (r: nat) {
    if n > PrefixInt.MAX_INTEGER then 0
    else
      var head := |PrefixInt.Encode(n, 7)|;
      if head + n < bufferSize then head + n else head
  }

  /** Octets stored for a string: the Huffman form is stored first, and the plain one over it if that was too long. */
  ghost function StringReach(k: Code, s: seq<byte>, bufferSize: nat): (r: nat)
    requires Canonical(k)
  {
    var coded := Reach(|HuffmanBytes(k, s)|, bufferSize);
    if UsesHuffman(k, s) && |CodedString(k, s)| < bufferSize then coded else Max(coded, Reach(|s|, bufferSize))
  }

  lemma StringReaches(k: Code, s: seq<byte>, bufferSize: nat)
    requires Canonical(k) && StringFits(k, s, bufferSize)
    ensures |StringCode(k, s)| <= StringReach(k, s, bufferSize)
  {
    hide HuffmanBytes, PrefixInt.Encode;
  }

  method EncodeHuffmanString(k: Code, str: seq<byte>, memory: Memory, at: int, bufferSize: nat)
    returns (rc: int, out: Memory)
    requires Canonical(k)
    ensures rc >= 0 <==> HuffmanFits(k, str) && |CodedString(k, str)| < bufferSize
    ensures rc >= 0 ==> Holds(out, at, CodedString(k, str)) && rc == |CodedString(k, str)|
    ensures Changed(memory, out, at, Reach(|HuffmanBytes(k, str)|, bufferSize))
  {
    hide Canonical, HuffmanBytes, Holds, Changed, Store, PrefixInt.Encode;
    var bytes := EncodeText(k, str);
    var ok, head := PrefixInt.EncodeInteger(|bytes|, 7);
    if !ok {
      StoreNothing(memory, at);
      return -1, memory;
    }
    out := Store(memory, at, head);
    if |bytes| + |head| >= bufferSize {
      return -2, out;
    }
    out := AddPreamble(|bytes|, 7, memory, out, at, |head|);
    StoreNext(memory, out, at, Marked(|bytes|, 7), bytes);
    out := Store(out, at + |head|, bytes);
    rc := |bytes| + |head|;
  }

  method EncodePlainString(str: seq<byte>, memory: Memory, at: int, bufferSize: nat) returns (rc: int, out: Memory)
    ensures rc == if |str| > PrefixInt.MAX_INTEGER then -1 else if |PlainString(str)| < bufferSize then |PlainString(str)| else -2
    ensures rc >= 0 ==> Holds(out, at, PlainString(str))
    ensures Changed(memory, out, at, Reach(|str|, bufferSize))
  {
    hide Holds, Changed, Store, PrefixInt.Encode;
    var ok, head := PrefixInt.EncodeInteger(|str|, 7);
    if !ok {
      StoreNothing(memory, at);
      return -1, memory;
    }
    out := Store(memory, at, head);
    if |str| + |head| >= bufferSize {
      return -2, out;
    }
    StoreNext(memory, out, at, head, str);
    out := Store(out, at + |head|, str);
    rc := |str| + |head|;
  }

  /** A failed or longer Huffman form is overwritten with the plain one, as far as that goes. */
  method EncodeString(k: Code, str: seq<byte>, memory: Memory, at: int, bufferSize: nat) returns (rc: int, out: Memory)
    requires Canonical(k)
    ensures rc == StringRc(k, str, bufferSize)
    ensures rc >= 0 ==> Holds(out, at, StringCode(k, str))
    ensures Changed(memory, out, at, StringReach(k, str, bufferSize))
  {
    hide Canonical, HuffmanBytes, Holds, Changed, PrefixInt.Encode, Marked;
    rc, out := EncodeHuffmanString(k, str, memory, at, bufferSize);
    if rc < 0 || rc > |str| {
      ghost var first := out;
      rc, out := EncodePlainString(str, out, at, bufferSize);
      ChangedTwice(memory, first, out, at, Reach(|HuffmanBytes(k, str)|, bufferSize), 0, Reach(|str|, bufferSize));
    }
  }

  ghost predicate Named(es: seq<Entry>) {
    forall i :: 0 <= i < |es| ==> es[i].name != []
  }

  /** A table object the encoder may search and extend. */
  ghost predicate Usable(table: DynamicTable)
    reads table, table.buffer
  {
    table.Valid() && Bounded(table.Abs()) && Named(table.entries)
  }

  lemma SearchesFit(t: Table, count: nat)
    requires Bounded(t) && Named(t.entries) && count == |t.entries|
    ensures count <= 127
  {
    SeparatorsFitInEightBits(t);
  }

  lemma AddKeepsNamed(t: Table, e: Entry)
    requires Named(t.entries) && e.name != []
    ensures Named(Add(t, e).entries)
  {
    if CanAdd(t, e) {
      EvictIsMinimal(t.entries, t.maxSize - EntrySize(e));
    }
  }

  /** hpack_encoder_pack_header: choose a representation and bring the table up to date. */
  method PackHeader(c: Codec, table: DynamicTable, name: seq<byte>, value: seq<byte>)
    returns (index: nat, named: nat, stored: bool)
    requires Usable(table) && |c.fixed| == STATIC_SIZE
    requires NulFree(name) && NulFree(value) && name != [] && |name| + |value| + 32 < 0x1_0000
    modifies table, table.buffer
    ensures Usable(table)
    ensures index == FindIndex(c.fixed, old(table.Abs()), name, value)
    ensures index == 0 ==> named == FindIndexName(c.fixed, old(table.Abs()), name)
    ensures index == 0 ==> (stored <==> CanAdd(old(table.Abs()), Entry(name, value)))
    ensures table.Abs() == TableAfter(c, old(table.Abs()), name, value)
  {
    hide FindIndex, FindIndexName, Add, CanAdd, NulFree;
    ghost var t := table.Abs();
    SearchesFit(t, table.count);
    TableAfterIsBounded(c, t, name, value);
    AddKeepsNamed(t, Entry(name, value));
    named, stored := 0, false;
    var found := table.FindIndex(c.fixed, name, value);
    if found > 0 {
      index := found;
    } else {
      index := 0;
      found := table.FindIndexName(c.fixed, name);
      named := if found < 0 then 0 else found;
      stored := table.AddEntry(name, value);
    }
  }

  /** Octets of the strings a literal spells out: its name unless that has an index, and its value. */
  ghost function SpeltOut(k: Code, named: nat, name: seq<byte>, value: seq<byte>): (r: seq<byte>)
    requires Canonical(k)
  {
    (if named > 0 then [] else StringCode(k, name)) + StringCode(k, value)
  }

  ghost predicate SpeltOutFits(k: Code, named: nat, name: seq<byte>, value: seq<byte>, bufferSize: nat)
    requires Canonical(k)
  {
    (named > 0 || StringFits(k, name, bufferSize)) && StringFits(k, value, bufferSize)
  }

  /** The size of the strings, or the code of the first that does not fit. */
  ghost function SpeltOutRc(k: Code, named: nat, name: seq<byte>, value: seq<byte>, bufferSize: nat): (rc: int)
    requires Canonical(k)
  {
    if named > 0 then StringRc(k, value, bufferSize)
    else if !StringFits(k, name, bufferSize) || !StringFits(k, value, bufferSize)
    then StringRc(k, if StringFits(k, name, bufferSize) then value else name, bufferSize)
    else StringRc(k, name, bufferSize) + StringRc(k, value, bufferSize)
  }

  ghost function SpeltOutReach(k: Code, named: nat, name: seq<byte>, value: seq<byte>, bufferSize: nat): (n: nat)
    requires Canonical(k)
  {
    if named > 0 then StringReach(k, value, bufferSize)
    else if !StringFits(k, name, bufferSize) then StringReach(k, name, bufferSize)
    else Max(StringReach(k, name, bufferSize), |StringCode(k, name)| + StringReach(k, value, bufferSize))
  }

  method EncodeSpeltOut(k: Code, named: nat, name: seq<byte>, value: seq<byte>, memory: Memory, at: int, bufferSize: nat)
    returns (rc: int, out: Memory)
    requires Canonical(k)
    ensures rc == SpeltOutRc(k, named, name, value, bufferSize)
    ensures rc >= 0 <==> SpeltOutFits(k, named, name, value, bufferSize)
    ensures rc >= 0 ==> rc == |SpeltOut(k, named, name, value)| && Holds(out, at, SpeltOut(k, named, name, value))
    ensures Changed(memory, out, at, SpeltOutReach(k, named, name, value, bufferSize))
  {
    hide Canonical, StringCode, StringReach, StringFits, StringRc, Holds, Changed;
    StringRcIs(k, name, bufferSize);
    StringRcIs(k, value, bufferSize);
    if named > 0 {
      rc, out := EncodeString(k, value, memory, at, bufferSize);
      assert SpeltOut(k, named, name, value) == StringCode(k, value);
      return;
    }
    rc, out := EncodeString(k, name, memory, at, bufferSize);
    if rc < 0 {
      return;
    }
    ghost var before := out;
    var pointer := rc;
    rc, out := EncodeString(k, value, out, at + pointer, bufferSize);
    StringReaches(k, name, bufferSize);
    ghost var n, m := StringReach(k, name, bufferSize), StringReach(k, value, bufferSize);
    ChangedTwice(memory, before, out, at, n, pointer, m);
    if rc >= 0 {
      HoldsAfter(before, out, at, StringCode(k, name), at + pointer, m);
      HoldsConcat(out, at, StringCode(k, name), StringCode(k, value));
      rc := pointer + rc;
    }
  }

  lemma StringRcIs(k: Code, s: seq<byte>, bufferSize: nat)
    requires Canonical(k)
    ensures StringRc(k, s, bufferSize) >= 0 <==> StringFits(k, s, bufferSize)
    ensures StringFits(k, s, bufferSize) ==> StringRc(k, s, bufferSize) == |StringCode(k, s)|
  {
    hide StringCode, Canonical;
  }

  ghost predicate HeaderFits(c: Codec, t: Table, name: seq<byte>, value: seq<byte>, bufferSize: nat)
    requires Canonical(c.code)
  {
    FindIndex(c.fixed, t, name, value) > 0 ||
    SpeltOutFits(c.code, FindIndexName(c.fixed, t, name), name, value, bufferSize)
  }

  /** The integer a field starts with, and the bits it has for it. */
  ghost function HeadOf(c: Codec, t: Table, e: Entry): (r: (nat, nat))
    requires |c.fixed| == STATIC_SIZE && Bounded(t)
    ensures r.0 <= PrefixInt.MAX_INTEGER && 4 <= r.1 <= 7
  {
    IndexBound(c, t, e.name, e.value);
    var index := FindIndex(c.fixed, t, e.name, e.value);
    if index > 0 then (index, 7) else (FindIndexName(c.fixed, t, e.name), if CanAdd(t, e) then 6 else 4)
  }

  ghost function HeadSize(c: Codec, t: Table, e: Entry): (n: nat)
    requires |c.fixed| == STATIC_SIZE && Bounded(t)
    ensures n > 0
  {
    |PrefixInt.Encode(HeadOf(c, t, e).0, HeadOf(c, t, e).1)|
  }

  /** Octets of a header in a block: of its index, and of the strings that are spelt out. */
  ghost function FieldSize(c: Codec, t: Table, e: Entry): (n: nat)
    requires Canonical(c.code) && |c.fixed| == STATIC_SIZE && Bounded(t)
  {
    var named := FindIndexName(c.fixed, t, e.name);
    HeadSize(c, t, e) +
    if FindIndex(c.fixed, t, e.name, e.value) > 0 then 0
    else (if named > 0 then 0 else |StringCode(c.code, e.name)|) + |StringCode(c.code, e.value)|
  }

  /** What hpack_encoder_encode_header returns: a number of octets, or the code of the string that failed. */
  ghost function FieldRc(c: Codec, t: Table, e: Entry, bufferSize: nat): (rc: int)
    requires Canonical(c.code) && |c.fixed| == STATIC_SIZE && Bounded(t)
  {
    if HeaderFits(c, t, e.name, e.value, bufferSize) then FieldSize(c, t, e)
    else SpeltOutRc(c.code, FindIndexName(c.fixed, t, e.name), e.name, e.value, bufferSize)
  }

  /** Octets stored for a header, from its first octet on. */
  ghost function FieldReach(c: Codec, t: Table, e: Entry, bufferSize: nat): (n: nat)
    requires Canonical(c.code) && |c.fixed| == STATIC_SIZE && Bounded(t)
    ensures n > 0
  {
    HeadSize(c, t, e) +
    if FindIndex(c.fixed, t, e.name, e.value) > 0 then 0
    else SpeltOutReach(c.code, FindIndexName(c.fixed, t, e.name), e.name, e.value, bufferSize)
  }

  lemma FieldSizeIs(c: Codec, t: Table, e: Entry)
    requires Canonical(c.code) && |c.fixed| == STATIC_SIZE && Bounded(t)
    ensures |FieldCode(c, t, e.name, e.value)| == FieldSize(c, t, e)
  {
    hide Bounded, Canonical, StringCode, PrefixInt.Encode, FindIndex, FindIndexName, CanAdd;
    IndexBound(c, t, e.name, e.value);
  }

  lemma FieldCodeIs(c: Codec, t: Table, e: Entry)
    requires Canonical(c.code) && |c.fixed| == STATIC_SIZE && Bounded(t)
    ensures var (n, prefix) := HeadOf(c, t, e); var code := FieldCode(c, t, e.name, e.value);
            if FindIndex(c.fixed, t, e.name, e.value) > 0 then code == Marked(n, prefix)
            else code == Marked(n, prefix) + SpeltOut(c.code, n, e.name, e.value)
  {
    hide Bounded, Canonical, StringCode, PrefixInt.Encode, FindIndex, FindIndexName, CanAdd, Marked;
    IndexBound(c, t, e.name, e.value);
    var named := FindIndexName(c.fixed, t, e.name);
    var nameCode := if named > 0 then [] else StringCode(c.code, e.name);
    var head := Marked(named, if CanAdd(t, e) then 6 else 4);
    assert head + nameCode + StringCode(c.code, e.value) == head + (nameCode + StringCode(c.code, e.value));
  }

  /** The integer at the start of a field, still without its preamble. */
  method EncodeHead(n: nat, prefix: nat, memory: Memory, at: int) returns (size: nat, out: Memory)
    requires 4 <= prefix <= 7 && n <= PrefixInt.MAX_INTEGER
    ensures size == |PrefixInt.Encode(n, prefix)| && Changed(memory, out, at, size)
    ensures Holds(out, at, PrefixInt.Encode(n, prefix))
  {
    hide Changed, Holds, Store;
    out := Store(memory, at, [0]);
    size := 1;
    Pow2Small();
    if n > 0 {
      var ok, head := PrefixInt.EncodeInteger(n, prefix);
      ghost var zeroed := out;
      out := Store(out, at, head);
      size := |head|;
      ChangedTwice(memory, zeroed, out, at, 1, 0, size);
    }
  }

  /** hpack_encoder_pack_header followed by hpack_encoder_encode_header. */
  method EncodeHeader(
      c: Codec, table: DynamicTable, name: seq<byte>, value: seq<byte>, memory: Memory, at: int, bufferSize: nat)
    returns (rc: int, out: Memory)
    requires Ready(c) && Usable(table)
    requires NulFree(name) && NulFree(value) && name != [] && |name| + |value| + 32 < 0x1_0000
    modifies table, table.buffer
    ensures Usable(table) && table.Abs() == TableAfter(c, old(table.Abs()), name, value)
    ensures Bounded(old(table.Abs())) && rc == FieldRc(c, old(table.Abs()), Entry(name, value), bufferSize)
    ensures rc >= 0 <==> HeaderFits(c, old(table.Abs()), name, value, bufferSize)
    ensures rc >= 0 ==> Holds(out, at, FieldCode(c, old(table.Abs()), name, value))
    ensures Changed(memory, out, at, FieldReach(c, old(table.Abs()), Entry(name, value), bufferSize))
  {
    hide FindIndex, FindIndexName, CanAdd, NulFree, Canonical, ShortRuns, StringCode, StringFits, StringReach, Marked,
      TableAfter, Bounded, Named, Changed, Holds, PrefixInt.Encode, SpeltOut, SpeltOutReach, SpeltOutRc, SpeltOutFits, FieldCode;
    ghost var t, e := table.Abs(), Entry(name, value);
    IndexBound(c, t, name, value);
    FieldCodeIs(c, t, e);
    FieldSizeIs(c, t, e);
    var index, named, stored := PackHeader(c, table, name, value);
    var n, prefix := if index > 0 then index else named, if index > 0 then 7 else if stored then 6 else 4;
    assert HeadOf(c, t, e) == (n, prefix);
    var pointer: nat;
    pointer, out := EncodeHead(n, prefix, memory, at);
    ghost var head, headed := PrefixInt.Encode(n, prefix), out;
    if index > 0 {
      out := AddPreamble(n, prefix, memory, out, at, pointer);
      return pointer, out;
    }
    rc, out := EncodeSpeltOut(c.code, named, name, value, out, at + pointer, bufferSize);
    ghost var reach, spelt := SpeltOutReach(c.code, named, name, value, bufferSize), out;
    ChangedTwice(memory, headed, out, at, pointer, pointer, reach);
    if rc < 0 {
      return;
    }
    HoldsAfter(headed, out, at, head, at + pointer, reach);
    out := AddPreamble(n, prefix, memory, out, at, pointer + reach);
    HoldsBefore(spelt, out, at + pointer, SpeltOut(c.code, named, name, value), at, 1);
    HoldsConcat(out, at, Marked(n, prefix), SpeltOut(c.code, named, name, value));
    rc := pointer + rc;
  }

  ghost predicate HeadersFit(c: Codec, t: Table, hs: seq<Entry>, bufferSize: nat)
    requires Ready(c)
    decreases |hs|
  {
    hs != [] ==>
      && HeaderFits(c, t, hs[0].name, hs[0].value, bufferSize)
      && HeadersFit(c, TableAfter(c, t, hs[0].name, hs[0].value), hs[1..], bufferSize)
  }

  /** Where each header of a block begins and ends: the encoder adds up return codes without looking at them. */
  datatype Extent = Extent(low: int, high: int, end: int)

  ghost function BlockExtent(c: Codec, t: Table, hs: seq<Entry>, bufferSize: nat, at: int): (x: Extent)
    requires Ready(c) && Bounded(t) && Storable(hs)
    decreases |hs|
  {
    if hs == [] then Extent(0, 0, at)
    else
      NextIsBounded(c, t, hs);
      var x := BlockExtent(c, TableAfter(c, t, hs[0].name, hs[0].value), hs[1..], bufferSize, at + FieldRc(c, t, hs[0], bufferSize));
      Extent(Min(at, x.low), Max(at + FieldReach(c, t, hs[0], bufferSize), x.high), x.end)
  }

  /** Headers that fit are written one behind the other, and may be overwritten only past their own end. */
  lemma {:induction false} FittingBlock(c: Codec, t: Table, hs: seq<Entry>, bufferSize: nat, at: nat)
    requires Ready(c) && Bounded(t) && Storable(hs) && HeadersFit(c, t, hs, bufferSize)
    ensures var x, n := BlockExtent(c, t, hs, bufferSize, at), |HeadersCode(c, t, hs)|;
            x.low == 0 && x.end == at + n && (hs != [] ==> at + n <= x.high)
    decreases |hs|
  {
    hide Canonical, ShortRuns, Bounded, TableAfter, FieldCode, FieldRc, FieldReach, NulFree, HeaderFits;
    if hs != [] {
      var e := hs[0];
      NextIsBounded(c, t, hs);
      FittingHeader(c, t, e, bufferSize);
      FittingBlock(c, TableAfter(c, t, e.name, e.value), hs[1..], bufferSize, at + |FieldCode(c, t, e.name, e.value)|);
    }
  }

  lemma FittingHeader(c: Codec, t: Table, e: Entry, bufferSize: nat)
    requires Ready(c) && Bounded(t) && HeaderFits(c, t, e.name, e.value, bufferSize)
    ensures FieldRc(c, t, e, bufferSize) == |FieldCode(c, t, e.name, e.value)| <= FieldReach(c, t, e, bufferSize)
  {
    hide Bounded, Canonical, ShortRuns, StringCode, StringFits, StringReach, FindIndex, FindIndexName, HeadSize, FieldCode;
    FieldSizeIs(c, t, e);
    if StringFits(c.code, e.name, bufferSize) {
      StringReaches(c.code, e.name, bufferSize);
    }
    if StringFits(c.code, e.value, bufferSize) {
      StringReaches(c.code, e.value, bufferSize);
    }
  }

  /** One character is spelt out plainly, in two octets. */
  lemma OneCharacter(k: Code, b: byte)
    requires Canonical(k)
    ensures !UsesHuffman(k, [b]) && |StringCode(k, [b])| == 2
  {
    var s := [b];
    assert s[1..] == [];
    assert |StringBits(k, s)| == CodeLength(k, b) >= 1;
    hide HuffmanBytes, StringBits, Canonical, CodeLength;
    assert |PrefixInt.Encode(1, 7)| == 1;
  }

  lemma OneCharacterReach(k: Code, b: byte, bufferSize: nat)
    requires Canonical(k) && bufferSize > 3
    ensures var n := (CodeLength(k, b) + 7) / 8;
            StringReach(k, [b], bufferSize) == if n < 2 then 2 else if n + 1 < bufferSize then n + 1 else 2
  {
    var s := [b];
    assert s[1..] == [];
    assert |StringBits(k, s)| == CodeLength(k, b) >= 1;
    OneCharacter(k, b);
    hide HuffmanBytes, StringBits, Canonical, CodeLength, UsesHuffman;
    assert forall n :: 0 <= n < 6 ==> |PrefixInt.Encode(n, 7)| == 1;
  }

  /**
   * A block that fits can still overrun the buffer: here the value's code has 9 to 16 bits, its Huffman form of three
   * octets passes its check against the whole buffer, is written past the end and then replaced with two plain octets.
   */
  lemma AttemptOverruns(c: Codec, t: Table, a: byte, b: byte)
    requires Ready(c) && Bounded(t) && t.entries == [] && a != 0 && b != 0
    requires FindIndex(c.fixed, t, [a], [b]) == 0 && FindIndexName(c.fixed, t, [a]) == 0
    requires CodeLength(c.code, a) <= 8 < CodeLength(c.code, b) <= 16
    ensures HeaderFits(c, t, [a], [b], 5) && FieldSize(c, t, Entry([a], [b])) == 5
    ensures BlockExtent(c, t, [Entry([a], [b])], 5, 0) == Extent(0, 6, 5)
  {
    OneCharacter(c.code, a);
    OneCharacter(c.code, b);
    OneCharacterReach(c.code, a, 5);
    OneCharacterReach(c.code, b, 5);
    var hs := [Entry([a], [b])];
    assert hs[1..] == [];
    hide FindIndex, FindIndexName, StringCode, UsesHuffman, StringReach, CodeLength, TableAfter;
    assert FieldReach(c, t, hs[0], 5) == 6;
  }

  /** A header of two characters passes every check against a buffer of three octets and takes five. */
  lemma HeaderOverflows(c: Codec, t: Table, b: byte)
    requires Ready(c) && Bounded(t) && t.entries == []
    requires FindIndex(c.fixed, t, [b], [b]) == 0 && FindIndexName(c.fixed, t, [b]) == 0
    ensures HeaderFits(c, t, [b], [b], 3) && |FieldCode(c, t, [b], [b])| == 5
  {
    OneCharacter(c.code, b);
    FieldSizeIs(c, t, Entry([b], [b]));
    hide FindIndex, FindIndexName, StringCode, FieldCode, UsesHuffman;
  }

  /** Part of a block has been written: what remains decides whether all of it stays in the buffer. */
  ghost predicate StaysInside(
      c: Codec, t0: Table, all: seq<Entry>, bufferSize: nat, t: Table, rest: seq<Entry>, at: int, memory: Memory)
    requires Ready(c) && Bounded(t0) && Storable(all) && Bounded(t) && Storable(rest)
  {
    var whole, x := BlockExtent(c, t0, all, bufferSize, 0), BlockExtent(c, t, rest, bufferSize, at);
    && x.end == whole.end
    && (0 <= whole.low && whole.high <= bufferSize <==> Inside(memory, bufferSize) && 0 <= x.low && x.high <= bufferSize)
  }

  lemma StaysInsideNext(
      c: Codec, t0: Table, all: seq<Entry>, bufferSize: nat, t: Table, rest: seq<Entry>, at: int, m: Memory, m': Memory)
    requires Ready(c) && Bounded(t0) && Storable(all) && Bounded(t) && Storable(rest) && rest != []
    requires StaysInside(c, t0, all, bufferSize, t, rest, at, m)
    requires Changed(m, m', at, FieldReach(c, t, rest[0], bufferSize))
    ensures var t' := TableAfter(c, t, rest[0].name, rest[0].value);
            && Bounded(t') && Storable(rest[1..])
            && StaysInside(c, t0, all, bufferSize, t', rest[1..], at + FieldRc(c, t, rest[0], bufferSize), m')
  {
    NextIsBounded(c, t, rest);
    InsideIff(m, m', at, FieldReach(c, t, rest[0], bufferSize), bufferSize);
    hide Canonical, ShortRuns, Bounded, TableAfter, FieldRc, FieldReach, Storable, Inside, Changed;
    ghost var x := BlockExtent(c, t, rest, bufferSize, at);
  }

  /** While all strings fit: the fields written so far are there, one behind the other. */
  ghost predicate WritesOn(
      c: Codec, t0: Table, all: seq<Entry>, bufferSize: nat, t: Table, rest: seq<Entry>, at: int, memory: Memory, done: seq<byte>)
    requires Ready(c) && Bounded(t0) && Storable(all) && Bounded(t) && Storable(rest)
  {
    && HeadersFit(c, t, rest, bufferSize)
    && at == |done| && Holds(memory, 0, done)
    && HeadersCode(c, t0, all) == done + HeadersCode(c, t, rest)
  }

  lemma WritesOnNext(
      c: Codec, t0: Table, all: seq<Entry>, bufferSize: nat, t: Table, rest: seq<Entry>, at: int, m: Memory, m': Memory, done: seq<byte>)
    requires Ready(c) && Bounded(t0) && Storable(all) && Bounded(t) && Storable(rest) && rest != []
    requires WritesOn(c, t0, all, bufferSize, t, rest, at, m, done)
    requires Changed(m, m', at, FieldReach(c, t, rest[0], bufferSize))
    requires FieldRc(c, t, rest[0], bufferSize) >= 0 ==> Holds(m', at, FieldCode(c, t, rest[0].name, rest[0].value))
    ensures var t' := TableAfter(c, t, rest[0].name, rest[0].value); var code := FieldCode(c, t, rest[0].name, rest[0].value);
            && Bounded(t') && Storable(rest[1..])
            && WritesOn(c, t0, all, bufferSize, t', rest[1..], at + FieldRc(c, t, rest[0], bufferSize), m', done + code)
  {
    FirstHeader(c, t, rest, bufferSize);
    var t', code := TableAfter(c, t, rest[0].name, rest[0].value), FieldCode(c, t, rest[0].name, rest[0].value);
    hide Canonical, ShortRuns, Bounded, TableAfter, FieldRc, FieldReach, FieldCode, Storable, HeaderFits, Holds, Changed,
      HeadersCode, HeadersFit;
    FittingHeader(c, t, rest[0], bufferSize);
    HoldsAfter(m, m', 0, done, at, FieldReach(c, t, rest[0], bufferSize));
    HoldsConcat(m', 0, done, code);
    Reassociate(done, code, [], HeadersCode(c, t', rest[1..]));
    assert code + [] == code && done + code + [] == done + code;
  }

  lemma FirstHeader(c: Codec, t: Table, hs: seq<Entry>, bufferSize: nat)
    requires Ready(c) && Bounded(t) && Storable(hs) && hs != []
    ensures var t', code := TableAfter(c, t, hs[0].name, hs[0].value), FieldCode(c, t, hs[0].name, hs[0].value);
            && Bounded(t') && Storable(hs[1..])
            && HeadersCode(c, t, hs) == code + HeadersCode(c, t', hs[1..])
            && (HeadersFit(c, t, hs, bufferSize) <==>
                HeaderFits(c, t, hs[0].name, hs[0].value, bufferSize) && HeadersFit(c, t', hs[1..], bufferSize))
  {
    NextIsBounded(c, t, hs);
    hide TableAfter, FieldCode, HeaderFits, Bounded, Canonical, ShortRuns;
  }

  lemma NothingWritten(c: Codec, t: Table, hs: seq<Entry>, bufferSize: nat)
    requires Ready(c) && Bounded(t) && Storable(hs)
    ensures StaysInside(c, t, hs, bufferSize, t, hs, 0, map[])
    ensures HeadersFit(c, t, hs, bufferSize) ==> WritesOn(c, t, hs, bufferSize, t, hs, 0, map[], [])
  {
    hide Ready, Bounded, Storable, HeadersFit, BlockExtent, HeadersCode;
    assert [] + HeadersCode(c, t, hs) == HeadersCode(c, t, hs);
  }

  lemma AllWritten(c: Codec, t0: Table, all: seq<Entry>, bufferSize: nat, t: Table, at: int, memory: Memory, done: seq<byte>)
    requires Ready(c) && Bounded(t0) && Storable(all) && Bounded(t) && StaysInside(c, t0, all, bufferSize, t, [], at, memory)
    ensures var x := BlockExtent(c, t0, all, bufferSize, 0);
            at == x.end && (Inside(memory, bufferSize) <==> 0 <= x.low && x.high <= bufferSize)
    ensures WritesOn(c, t0, all, bufferSize, t, [], at, memory, done) ==>
              var code := HeadersCode(c, t0, all); at == |code| && Holds(memory, 0, code)
  {
    assert BlockExtent(c, t, [], bufferSize, at) == Extent(0, 0, at);
    assert HeadersCode(c, t, []) == [] && done + [] == done;
    hide Ready, Bounded, Storable, HeadersFit, BlockExtent, HeadersCode;
  }

  /**
   * hpack_encoder_encode. Every octet is stored in the buffer if and only if the extent of the block lies in it, and when
   * all strings pass their checks the block is there, one field behind the other.
   */
  method EncodeHeaders(c: Codec, table: DynamicTable, headers: seq<Entry>, bufferSize: nat) returns (rc: int, out: Memory)
    requires Ready(c) && Usable(table) && Storable(headers)
    modifies table, table.buffer
    ensures Usable(table) && table.Abs() == HeadersTable(c, old(table.Abs()), headers)
    ensures Bounded(old(table.Abs()))
    ensures var x := BlockExtent(c, old(table.Abs()), headers, bufferSize, 0);
            rc == x.end && (Inside(out, bufferSize) <==> 0 <= x.low && x.high <= bufferSize)
    ensures HeadersFit(c, old(table.Abs()), headers, bufferSize) ==>
              var code := HeadersCode(c, old(table.Abs()), headers); rc == |code| && Holds(out, 0, code)
  {
    hide FieldCode, TableAfter, Canonical, ShortRuns, Bounded, Named, HeaderFits, FieldRc, FieldReach, Holds, Changed,
      StaysInside, WritesOn, HeadersFit, HeadersCode, BlockExtent;
    out, rc := map[], 0;
    ghost var t := table.Abs();
    ghost var done: seq<byte> := [];
    NothingWritten(c, t, headers, bufferSize);
    for i := 0 to |headers|
      invariant Usable(table) && Storable(headers[i..])
      invariant HeadersTable(c, t, headers) == HeadersTable(c, table.Abs(), headers[i..])
      invariant StaysInside(c, t, headers, bufferSize, table.Abs(), headers[i..], rc, out)
      invariant HeadersFit(c, t, headers, bufferSize) ==>
        WritesOn(c, t, headers, bufferSize, table.Abs(), headers[i..], rc, out, done)
    {
      ghost var now, rest, before := table.Abs(), headers[i..], out;
      var e := headers[i];
      assert rest[0] == e && rest[1..] == headers[i + 1..];
      var n: int;
      n, out := EncodeHeader(c, table, e.name, e.value, out, rc, bufferSize);
      StaysInsideNext(c, t, headers, bufferSize, now, rest, rc, before, out);
      if HeadersFit(c, t, headers, bufferSize) {
        WritesOnNext(c, t, headers, bufferSize, now, rest, rc, before, out, done);
        done := done + FieldCode(c, now, e.name, e.value);
      }
      rc := rc + n;
    }
    assert headers[|headers|..] == [];
    AllWritten(c, t, headers, bufferSize, table.Abs(), rc, out, done);
  }

  /** hpack_encoder_encode_dynamic_size_update. */
  method EncodeSizeUpdate(table: DynamicTable, maxSize: nat) returns (ok: bool, out: seq<byte>)
    requires Usable(table)
    modifies table, table.buffer
    ensures Usable(table)
    ensures ok <==> maxSize <= old(table.limit)
    ensures table.Abs() == Resize(old(table.Abs()), maxSize)
    ensures ok ==> maxSize <= PrefixInt.MAX_INTEGER && out == Marked(maxSize, 5)
  {
    ghost var t := table.Abs();
    out := [];
    ok := table.ResizeTo(maxSize);
    if ok {
      ResizeIsBounded(t, maxSize);
      EvictIsMinimal(t.entries, maxSize);
      ok, out := EncodeMarked(maxSize, 5);
    }
  }
}
