/**
 * The two buffers that src/hpack/decoder.c decodes strings into: exactly which literals, in any run of blocks, make it
 * store or read past the end of one.
 */
module HpackSizes {
  import opened Bits
  import PrefixInt
  import opened Huffman
  import opened HuffmanString
  import opened TableSpec
  import opened HpackString
  import opened HpackBlock
  import opened HpackDelivery
  import opened HpackLockstep
  import HeaderList

  /** The characters of a string, as far as the decoder takes them. */
  function Characters(k: Code, raw: Raw, size: nat): (t: Text)
    requires Sized(k)
  {
    if raw.huffman then TextFrom(k, BitsOf(raw.bytes), 0, 0, size)
    else if |raw.bytes| > size then TooLong
    else Text(raw.bytes)
  }

  /** A Huffman-coded string of more symbols than the buffer holds: they are counted after they are stored. */
  predicate Spills(k: Code, raw: Raw, size: nat)
    requires Sized(k)
  {
    raw.huffman && SymbolCount(k, BitsOf(raw.bytes), 0) > size
  }

  /** As many characters as the buffer holds, none of them NUL: nothing terminates them. */
  predicate Fills(k: Code, raw: Raw, size: nat)
    requires Sized(k)
  {
    var t := Characters(k, raw, size); t.Text? && |t.bytes| == size && NulFree(t.bytes)
  }

  /** A string that is refused with an error. */
  predicate Fails(k: Code, raw: Raw, size: nat)
    requires Sized(k)
  {
    !Spills(k, raw, size) && !Characters(k, raw, size).Text?
  }

  /** No character, or a NUL in front: such a header is dropped. */
  predicate Blank(k: Code, raw: Raw, size: nat)
    requires Sized(k)
  {
    var t := Characters(k, raw, size); t.Text? && CString(t.bytes) == []
  }

  /** A literal whose name is new, or is found in a table. */
  predicate NameSpills(c: Codec, f: Field)
    requires Sized(c.code) && f.Literal?
  {
    f.index == 0 && Spills(c.code, f.name, c.nameSize)
  }

  predicate NameFails(c: Codec, t: Table, f: Field)
    requires Sized(c.code) && |c.fixed| == STATIC_SIZE && f.Literal?
  {
    if f.index > 0 then !HasIndex(c.fixed, t, f.index) else Fails(c.code, f.name, c.nameSize)
  }

  predicate NameFills(c: Codec, f: Field)
    requires Sized(c.code) && f.Literal?
  {
    f.index == 0 && Fills(c.code, f.name, c.nameSize)
  }

  predicate NameBlank(c: Codec, t: Table, f: Field)
    requires Sized(c.code) && |c.fixed| == STATIC_SIZE && f.Literal? && !NameFails(c, t, f)
  {
    if f.index > 0 then EntryAt(c.fixed, t, f.index).name == [] else Blank(c.code, f.name, c.nameSize)
  }

  /**
   * What makes a field overrun a buffer. A string that spills does so at once. One that fills its buffer does when it is
   * measured: for the table, or for the header list unless the other string is blank.
   */
  predicate Overruns(c: Codec, t: Table, f: Field)
    requires Sized(c.code) && |c.fixed| == STATIC_SIZE
  {
    f.Literal? &&
    (NameSpills(c, f) ||
     (!NameFails(c, t, f) &&
      (Spills(c.code, f.value, c.valueSize) ||
       (!Fails(c.code, f.value, c.valueSize) &&
        ((NameFills(c, f) && (f.stored || !Blank(c.code, f.value, c.valueSize))) ||
         (Fills(c.code, f.value, c.valueSize) && (f.stored || !NameBlank(c, t, f))))))))
  }

  /** Name and value fit the buffers, each with its terminator. */
  predicate EntryFits(c: Codec, e: Entry) {
    |e.name| < c.nameSize && |e.value| < c.valueSize
  }

  ghost predicate AllFit(c: Codec, es: seq<Entry>) {
    forall i :: 0 <= i < |es| ==> EntryFits(c, es[i])
  }

  lemma EntryAtFits(c: Codec, t: Table, index: nat)
    requires |c.fixed| == STATIC_SIZE && HasIndex(c.fixed, t, index) && AllFit(c, c.fixed) && AllFit(c, t.entries)
    ensures EntryFits(c, EntryAt(c.fixed, t, index))
  {
  }

  lemma EvictFits(c: Codec, es: seq<Entry>, max: nat)
    requires AllFit(c, es)
    ensures AllFit(c, Evict(es, max))
  {
    EvictIsMinimal(es, max);
  }

  lemma ContentIs(k: Code, raw: Raw, size: nat)
    requires Sized(k) && size > 0
    ensures var d := DecodeString(k, raw, size);
            && (d.Overflow? <==> Spills(k, raw, size))
            && (d.NotDecoded? <==> Fails(k, raw, size)) && (d.NotDecoded? ==> d.error != Overrun)
            && (d.Unterminated? <==> !d.Overflow? && Fills(k, raw, size))
            && (d.Terminated? || d.Unterminated? ==> (d.bytes == [] <==> Blank(k, raw, size)))
  {
    hide TextFrom, BitsOf, SymbolCount;
    CountOfText(k, BitsOf(raw.bytes), 0, 0, size);
  }

  /** A field overruns a buffer if and only if it is such a literal, and otherwise leaves a table of entries that fit. */
  lemma FieldOverrunsIff(c: Codec, t: Table, f: Field)
    requires Sized(c.code) && |c.fixed| == STATIC_SIZE && 0 < c.nameSize && 0 < c.valueSize
    requires AllFit(c, c.fixed) && AllFit(c, t.entries)
    ensures Apply(c, t, f) == Refused(Overrun) <==> Overruns(c, t, f)
    ensures Apply(c, t, f).Applied? ==> AllFit(c, Apply(c, t, f).table.entries)
  {
    hide TakeLiteral, Spills, Fills, Fails, Blank, DecodeString, Evict, AllFit;
    match f
    case Indexed(index) =>
      if HasIndex(c.fixed, t, index) {
        EntryAtFits(c, t, index);
      }
    case SizeUpdate(size) => EvictFits(c, t.entries, size);
    case Literal(stored, index, n, v) =>
      var name := if index > 0 && HasIndex(c.fixed, t, index) then Copied(EntryAt(c.fixed, t, index).name, c.nameSize)
                  else DecodeString(c.code, n, c.nameSize);
      if index > 0 && HasIndex(c.fixed, t, index) {
        EntryAtFits(c, t, index);
      }
      ContentIs(c.code, n, c.nameSize);
      ContentIs(c.code, v, c.valueSize);
      LiteralOverrunsIff(c, t, stored, name, DecodeString(c.code, v, c.valueSize));
  }

  /** Two strings in their buffers. */
  lemma LiteralOverrunsIff(c: Codec, t: Table, stored: bool, name: Content, value: Content)
    requires AllFit(c, t.entries)
    requires name.Terminated? ==> |name.bytes| < c.nameSize
    requires value.Terminated? ==> |value.bytes| < c.valueSize
    requires name.NotDecoded? ==> name.error != Overrun
    requires value.NotDecoded? ==> value.error != Overrun
    ensures TakeLiteral(t, stored, name, value) == Refused(Overrun) <==>
            name.Overflow? ||
            (!name.NotDecoded? &&
             (value.Overflow? ||
              (!value.NotDecoded? &&
               (name.Unterminated? || value.Unterminated?) && (stored || (name.bytes != [] && value.bytes != [])))))
    ensures var a := TakeLiteral(t, stored, name, value); a.Applied? ==> AllFit(c, a.table.entries)
  {
    hide AllFit, Add, CanAdd;
    var a := TakeLiteral(t, stored, name, value);
    if a.Applied? && stored {
      StoredFits(c, t, Entry(a.name, a.value));
    }
  }

  lemma StoredFits(c: Codec, t: Table, e: Entry)
    requires AllFit(c, t.entries) && EntryFits(c, e)
    ensures AllFit(c, Add(t, e).entries)
  {
    if CanAdd(t, e) {
      EvictFits(c, t.entries, t.maxSize - EntrySize(e));
    }
  }

  /** A field that is decoded, and the table at that time. */
  datatype Decoding = Decoding(table: Table, field: Field)

  /** The fields of a block that hpack_decoder_decode_header is called for. */
  ghost function Decodings(c: Codec, t: Table, bs: seq<byte>, updatesAllowed: bool, list: seq<Entry>, capacity: nat)
    : (ds: seq<Decoding>)
    requires Sized(c.code) && |c.fixed| == STATIC_SIZE
    decreases |bs|
  {
    if bs == [] then []
    else
      match ParseField(bs)
      case Bad => []
      case Got(f, used) =>
        if (f.SizeUpdate? && !updatesAllowed) || !Acceptable(f) then []
        else
          [Decoding(t, f)] +
          match Apply(c, t, f)
          case Refused(_) => []
          case Applied(t', n, v) =>
            var r := HeaderList.AddAll(list, Emit(n, v), capacity);
            if r.ok && used <= |bs| then Decodings(c, t', bs[used..], f.SizeUpdate?, r.list, capacity) else []
  }

  ghost predicate SomeOverruns(c: Codec, ds: seq<Decoding>)
    requires Sized(c.code) && |c.fixed| == STATIC_SIZE
  {
    exists i :: 0 <= i < |ds| && Overruns(c, ds[i].table, ds[i].field)
  }

  lemma SomeOverrunsConcat(c: Codec, a: seq<Decoding>, b: seq<Decoding>)
    requires Sized(c.code) && |c.fixed| == STATIC_SIZE
    ensures SomeOverruns(c, a + b) <==> SomeOverruns(c, a) || SomeOverruns(c, b)
  {
    hide Overruns;
    assert forall i :: 0 <= i < |a| ==> (a + b)[i] == a[i];
    assert forall i :: 0 <= i < |b| ==> (a + b)[|a| + i] == b[i];
  }

  lemma OneOverruns(c: Codec, d: Decoding)
    requires Sized(c.code) && |c.fixed| == STATIC_SIZE
    ensures SomeOverruns(c, [d]) <==> Overruns(c, d.table, d.field)
    ensures !SomeOverruns(c, [])
  {
    hide Overruns;
    assert [d][0] == d;
  }

  predicate EndsInOverrun(d: Delivery) {
    d.Undelivered? && d.error == Overrun
  }

  /** Whatever bytes a block has, from a table whose entries fit. */
  lemma {:induction false} BlockOverrunsIff(
      c: Codec, t: Table, bs: seq<byte>, updatesAllowed: bool, list: seq<Entry>, capacity: nat)
    requires Sized(c.code) && |c.fixed| == STATIC_SIZE && 0 < c.nameSize && 0 < c.valueSize
    requires AllFit(c, c.fixed) && AllFit(c, t.entries)
    ensures var d := DecodeInto(c, t, bs, updatesAllowed, list, capacity);
            && (EndsInOverrun(d) <==> SomeOverruns(c, Decodings(c, t, bs, updatesAllowed, list, capacity)))
            && AllFit(c, d.table.entries)
    decreases |bs|
  {
    hide ParseField, Acceptable, Apply, Emit, HeaderList.AddAll, AllFit, Overruns, SomeOverruns;
    OneOverruns(c, Decoding(t, SizeUpdate(0)));
    if bs != [] && ParseField(bs).Got? {
      var f, used := ParseField(bs).field, ParseField(bs).used;
      var a := Apply(c, t, f);
      FieldOverrunsIff(c, t, f);
      OneOverruns(c, Decoding(t, f));
      assert [Decoding(t, f)] + [] == [Decoding(t, f)];
      if a.Applied? && used <= |bs| {
        var r := HeaderList.AddAll(list, Emit(a.name, a.value), capacity);
        BlockOverrunsIff(c, a.table, bs[used..], f.SizeUpdate?, r.list, capacity);
        SomeOverrunsConcat(c, [Decoding(t, f)], Decodings(c, a.table, bs[used..], f.SizeUpdate?, r.list, capacity));
      }
    }
  }

  /** The fields decoded in a run of blocks, each with an empty header list, up to the first block that is given up. */
  ghost function RunDecodings(c: Codec, t: Table, blocks: seq<seq<byte>>, capacity: nat): (ds: seq<Decoding>)
    requires Sized(c.code) && |c.fixed| == STATIC_SIZE
    decreases |blocks|
  {
    if blocks == [] then []
    else
      Decodings(c, t, blocks[0], true, [], capacity) +
      var d := DecodeInto(c, t, blocks[0], true, [], capacity);
      if d.Delivered? then RunDecodings(c, d.table, blocks[1..], capacity) else []
  }

  ghost predicate RunOverruns(c: Codec, t: Table, blocks: seq<seq<byte>>, capacity: nat)
    requires Sized(c.code) && |c.fixed| == STATIC_SIZE
    decreases |blocks|
  {
    blocks != [] &&
    var d := DecodeInto(c, t, blocks[0], true, [], capacity);
    if d.Delivered? then RunOverruns(c, d.table, blocks[1..], capacity) else EndsInOverrun(d)
  }

  /**
   * Over every run of blocks, from a table whose entries fit, both buffers are respected if and only if no literal that is
   * decoded spills or fills its buffer in the ways of Overruns: what is copied out of a table always fits.
   */
  lemma {:induction false} RunOverrunsIff(c: Codec, t: Table, blocks: seq<seq<byte>>, capacity: nat)
    requires Sized(c.code) && |c.fixed| == STATIC_SIZE && 0 < c.nameSize && 0 < c.valueSize
    requires AllFit(c, c.fixed) && AllFit(c, t.entries)
    ensures RunOverruns(c, t, blocks, capacity) <==> SomeOverruns(c, RunDecodings(c, t, blocks, capacity))
    ensures var r := Receive(c, t, blocks, capacity); r.Received? ==> AllFit(c, r.table.entries)
    decreases |blocks|
  {
    hide DecodeInto, Decodings, SomeOverruns, AllFit;
    OneOverruns(c, Decoding(t, SizeUpdate(0)));
    if blocks != [] {
      BlockOverrunsIff(c, t, blocks[0], true, [], capacity);
      var d := DecodeInto(c, t, blocks[0], true, [], capacity);
      var ds := Decodings(c, t, blocks[0], true, [], capacity);
      if d.Delivered? {
        RunOverrunsIff(c, d.table, blocks[1..], capacity);
        SomeOverrunsConcat(c, ds, RunDecodings(c, d.table, blocks[1..], capacity));
      } else {
        assert ds + [] == ds;
      }
    }
  }

  /** A literal with a new name, as it stands in a block. */
  ghost function LiteralCode(stored: bool, name: Raw, value: Raw): (r: seq<byte>)
    requires |name.bytes| <= PrefixInt.MAX_INTEGER && |value.bytes| <= PrefixInt.MAX_INTEGER
    ensures r != []
  {
    Marked(0, if stored then 6 else 4) + RawCode(name) + RawCode(value)
  }

  lemma ParseLiteralCode(stored: bool, name: Raw, value: Raw, post: seq<byte>)
    requires |name.bytes| <= PrefixInt.MAX_INTEGER && |value.bytes| <= PrefixInt.MAX_INTEGER
    ensures var code := LiteralCode(stored, name, value);
            ParseField(code + post) == Got(Literal(stored, 0, name, value), |code|)
  {
    hide Marked, ParseField, ParseString, RawCode;
    var head, n, v := Marked(0, if stored then 6 else 4), RawCode(name), RawCode(value);
    var bs := LiteralCode(stored, name, value) + post;
    ParseMarked(0, if stored then 6 else 4, n + v + post);
    Reassociate(head, n, v, post);
    ParseRaw(name, v + post);
    ParseRaw(value, post);
    assert bs[|head|..] == n + (v + post) && bs[|head| + |n|..] == v + post;
  }

  /** Whatever the table holds, a block that begins with such a literal overruns the buffers right there. */
  lemma LiteralBlockOverruns(c: Codec, t: Table, stored: bool, name: Raw, value: Raw, post: seq<byte>, capacity: nat)
    requires Sized(c.code) && |c.fixed| == STATIC_SIZE && 0 < c.nameSize && 0 < c.valueSize
    requires |name.bytes| <= PrefixInt.MAX_INTEGER && |value.bytes| <= PrefixInt.MAX_INTEGER
    requires PassesEosCheck(name.bytes) && PassesEosCheck(value.bytes)
    requires Overruns(c, t, Literal(stored, 0, name, value))
    ensures DecodeInto(c, t, LiteralCode(stored, name, value) + post, true, [], capacity) == Undelivered(Overrun, [], t)
  {
    hide Spills, Fills, Fails, Blank, DecodeString, ParseField, LiteralCode, PassesEosCheck;
    ParseLiteralCode(stored, name, value, post);
    ContentIs(c.code, name, c.nameSize);
    ContentIs(c.code, value, c.valueSize);
  }

  /** A stored literal whose plain name is exactly as long as the buffer. */
  lemma PlainNameOverruns(c: Codec, t: Table, name: seq<byte>, value: seq<byte>)
    requires Sized(c.code) && |c.fixed| == STATIC_SIZE
    requires |name| == c.nameSize && NulFree(name) && |value| <= c.valueSize
    ensures Overruns(c, t, Literal(true, 0, Raw(false, name), Raw(false, value)))
  {
  }

  /** A coded string yields as many symbols as were coded. */
  lemma CodedSpillsIff(k: Code, s: seq<byte>, size: nat)
    requires Canonical(k)
    ensures Spills(k, Raw(true, HuffmanBytes(k, s)), size) <==> |s| > size
  {
    hide Canonical, HuffmanBytes, TextFrom, BitsOf, SymbolCount;
    HuffmanRoundTrip(k, s, |s|);
    CountOfText(k, BitsOf(HuffmanBytes(k, s)), 0, 0, |s|);
  }
}
