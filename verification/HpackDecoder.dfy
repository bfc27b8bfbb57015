/** src/hpack/decoder.c at work on a table object; each method is proved against the functions of HpackBlock. */
module HpackDecoder {
  import opened Bits
  import PrefixInt
  import opened Huffman
  import opened HuffmanString
  import opened Eos
  import opened TableSpec
  import opened TableLayout
  import opened HeaderTable
  import opened HpackString
  import opened HpackBlock
  import opened HpackDelivery
  import HeaderList

  /** Length and bytes of a string literal. */
  method ParseStringLiteral(bs: seq<byte>) returns (r: Parsed)
    ensures r == ParseString(bs)
  {
    hide PrefixInt.Decode, PrefixInt.Encode;
    if bs == [] {
      return Unparsed;
    }
    var length := PrefixInt.DecodeInteger(bs, 7);
    match length {
      case Value(n) =>
        DecodedIsSmall(bs, 7);
        var used := PrefixInt.EncodedSize(n, 7);
        return if used + n > |bs| then Unparsed else Parsed(Raw(bs[0] >= 128, bs[used..used + n]), used + n);
      case _ => return Unparsed;
    }
  }

  lemma {:induction false} DecodedTailIsSmall(bs: seq<byte>, i: nat, acc: nat, depth: nat)
    ensures var d := PrefixInt.DecodeTail(bs, i, acc, depth); d.Value? ==> d.value <= PrefixInt.MAX_INTEGER
    decreases |bs| - i
  {
    if i < |bs| {
      DecodedTailIsSmall(bs, i + 1, PrefixInt.Accumulate(acc, bs[i] % 128, depth), depth + 7);
    }
  }

  /** Integers above the implementation limit are not decoded. */
  lemma DecodedIsSmall(bs: seq<byte>, prefix: nat)
    requires 4 <= prefix <= 7
    ensures var d := PrefixInt.Decode(bs, prefix); d.Value? ==> d.value <= PrefixInt.MAX_INTEGER
  {
    Pow2Small();
    if bs != [] {
      DecodedTailIsSmall(bs, 1, bs[0] % Pow2(prefix), 0);
    }
  }

  method ParseLiteralStrings(stored: bool, index: nat, start: nat, bs: seq<byte>) returns (r: Parse)
    ensures r == ParseLiteral(stored, index, start, bs)
  {
    hide ParseString;
    if start > |bs| {
      return Bad;
    }
    var pointer := start;
    var name := Raw(false, []);
    if index == 0 {
      var n := ParseStringLiteral(bs[pointer..]);
      if n.Unparsed? {
        return Bad;
      }
      name := n.raw;
      pointer := pointer + n.used;
    }
    var v := ParseStringLiteral(bs[pointer..]);
    return if v.Unparsed? then Bad else Got(Literal(stored, index, name, v.raw), pointer + v.used);
  }

  method ParseEncodedHeader(bs: seq<byte>) returns (r: Parse)
    requires bs != []
    ensures r == ParseField(bs)
  {
    hide PrefixInt.Decode, PrefixInt.Encode, ParseLiteral;
    var kind := KindOf(bs[0]);
    var prefix := PrefixOf(kind);
    var index := PrefixInt.DecodeInteger(bs, prefix);
    if !index.Value? {
      return Bad;
    }
    DecodedIsSmall(bs, prefix);
    var used := PrefixInt.EncodedSize(index.value, prefix);
    if kind == IndexedKind {
      return Got(Indexed(index.value), used);
    }
    if kind == UpdateKind {
      return Got(SizeUpdate(index.value % 0x1_0000), used);
    }
    r := ParseLiteralStrings(kind == StoredKind, index.value, used, bs);
  }

  method CheckString(bytes: seq<byte>) returns (ok: bool)
    ensures ok <==> PassesEosCheck(bytes)
  {
    hide EosFree, BitsOf;
    if |bytes| < 4 {
      return true;
    }
    ok := CheckEosSymbol(bytes, |bytes| % 256);
  }

  method CheckErrors(f: Field) returns (ok: bool)
    ensures ok <==> Acceptable(f)
  {
    hide PassesEosCheck;
    match f {
      case Indexed(index) => return index != 0;
      case SizeUpdate(size) => return size <= PrefixInt.MAX_INTEGER;
      case Literal(_, index, name, value) =>
        if index == 0 {
          ok := CheckString(name.bytes);
          if !ok {
            return;
          }
        }
        ok := CheckString(value.bytes);
    }
  }

  /** The characters before the first NUL. */
  method TakeCString(s: seq<byte>) returns (r: seq<byte>)
    ensures r == CString(s)
  {
    r := [];
    var i := 0;
    while i < |s| && s[i] != 0
      invariant 0 <= i <= |s|
      invariant r + CString(s[i..]) == CString(s)
    {
      assert s[i..][1..] == s[i + 1..];
      assert r + ([s[i]] + CString(s[i + 1..])) == (r + [s[i]]) + CString(s[i + 1..]);
      r := r + [s[i]];
      i := i + 1;
    }
    assert CString(s[i..]) == [];
  }

  /** The characters stored from the start of a zeroed buffer, as C reads them. */
  method ReadBuffer(s: seq<byte>, size: nat) returns (r: Content)
    requires |s| <= size
    ensures r == InBuffer(s, size)
  {
    hide CString;
    var text := TakeCString(s);
    r := if |text| == size then Unterminated(text) else Terminated(text);
  }

  method DecodeStringInto(k: Code, raw: Raw, size: nat) returns (r: Content)
    requires Sized(k)
    ensures r == DecodeString(k, raw, size)
  {
    hide TextFrom, BitsOf, CString, InBuffer, SymbolCount;
    if raw.huffman {
      var text, stored := DecodeText(k, raw.bytes, size);
      CountOfText(k, BitsOf(raw.bytes), 0, 0, size);
      if stored > size {
        return Overflow;
      }
      match text {
        case Text(s) => r := ReadBuffer(s, size);
        case TooLong => r := NotDecoded(Memory);
        case BadCode => r := NotDecoded(Compression);
      }
    } else if |raw.bytes| > size {
      r := NotDecoded(Memory);
    } else {
      r := ReadBuffer(raw.bytes, size);
    }
  }

  /** Static entries are C strings of moderate length. */
  ghost predicate FixedOk(c: Codec) {
    && Sized(c.code) && |c.fixed| == STATIC_SIZE && NulFreeEntries(c.fixed)
    && c.valueSize <= 256 && c.nameSize <= 256
    && forall i :: 0 <= i < |c.fixed| ==> |c.fixed[i].name| < 0x7000
  }

  datatype Header = Header(name: seq<byte>, value: seq<byte>) | Failure(error: Error)

  /** Outcome of a field: the header it stands for, with the table brought up to date; or an error and the old table. */
  ghost predicate Done(r: Header, before: Table, after: Table, a: Applied) {
    match a
    case Applied(t, n, v) => r == Header(n, v) && after == t
    case Refused(e) => r == Failure(e) && after == before
  }

  method LiteralName(c: Codec, table: DynamicTable, index: nat, raw: Raw) returns (known: bool, name: Content)
    requires FixedOk(c) && table.Valid()
    ensures known <==> index == 0 || HasIndex(c.fixed, table.Abs(), index)
    ensures known ==> name == if index > 0 then Copied(EntryAt(c.fixed, table.Abs(), index).name, c.nameSize)
                              else DecodeString(c.code, raw, c.nameSize)
    ensures known && name.Terminated? ==> NulFree(name.bytes) && |name.bytes| < c.nameSize
  {
    hide DecodeString, Layout, Span, Stored, Slot, Size;
    name := Overflow;
    if index == 0 {
      name := DecodeStringInto(c.code, raw, c.nameSize);
      return true, name;
    }
    var bytes: seq<byte>;
    known, bytes := table.FindEntryName(c.fixed, index);
    if known {
      EntryIsNulFree(c.fixed, table.Abs(), index);
      name := Copied(bytes, c.nameSize);
    }
  }

  method DecodeLiteral(c: Codec, table: DynamicTable, f: Field) returns (r: Header)
    requires FixedOk(c) && table.Valid() && f.Literal?
    modifies table, table.buffer
    ensures table.Valid() && Done(r, old(table.Abs()), table.Abs(), Apply(c, old(table.Abs()), f))
  {
    hide DecodeString, Layout, Span, Stored, Slot, Size, NulFree, Add, CanAdd, NulFreeEntries;
    var known, name := LiteralName(c, table, f.index, f.name);
    if !known {
      return Failure(Compression);
    }
    if name.NotDecoded? {
      return Failure(name.error);
    }
    if name.Overflow? {
      return Failure(Overrun);
    }
    var value := DecodeStringInto(c.code, f.value, c.valueSize);
    if value.NotDecoded? {
      return Failure(value.error);
    }
    if value.Overflow? {
      return Failure(Overrun);
    }
    r := KeepLiteral(table, f.stored, name, value);
  }

  method KeepLiteral(table: DynamicTable, stored: bool, name: Content, value: Content) returns (r: Header)
    requires table.Valid() && (name.Terminated? || name.Unterminated?) && (value.Terminated? || value.Unterminated?)
    requires name.Terminated? ==> NulFree(name.bytes) && |name.bytes| < 256
    requires value.Terminated? ==> NulFree(value.bytes) && |value.bytes| < 256
    modifies table, table.buffer
    ensures table.Valid() && Done(r, old(table.Abs()), table.Abs(), TakeLiteral(old(table.Abs()), stored, name, value))
  {
    hide DynamicTable.Valid, NulFree, Add, CanAdd;
    ghost var t := table.Abs();
    if (name.Unterminated? || value.Unterminated?) && (stored || (name.bytes != [] && value.bytes != [])) {
      return Failure(Overrun);
    }
    if stored {
      AddUnlessTooLarge(t, Entry(name.bytes, value.bytes));
      var ok := table.AddEntry(name.bytes, value.bytes);
      if !ok {
        return Failure(Internal);
      }
    }
    return Header(name.bytes, value.bytes);
  }

  method DecodeHeader(c: Codec, table: DynamicTable, f: Field) returns (r: Header)
    requires FixedOk(c) && table.Valid()
    modifies table, table.buffer
    ensures table.Valid() && Done(r, old(table.Abs()), table.Abs(), Apply(c, old(table.Abs()), f))
  {
    hide DecodeString, Layout, Span, Stored, Slot, Size;
    match f {
      case Indexed(index) =>
        if index == 0 {
          return Failure(Compression);
        }
        var ok, n, v := table.FindEntry(c.fixed, index);
        return if !ok then Failure(Compression)
               else if |n| < c.nameSize && |v| < c.valueSize then Header(n, v) else Failure(Overrun);
      case SizeUpdate(size) =>
        var ok := table.ResizeTo(size);
        return if ok then Header([], []) else Failure(Compression);
      case Literal(_, _, _, _) =>
        r := DecodeLiteral(c, table, f);
    }
  }

  lemma AppliedIsNulFree(c: Codec, t: Table, f: Field)
    requires FixedOk(c) && NulFreeEntries(t.entries)
    ensures var r := Apply(c, t, f); r.Applied? ==> NulFree(r.name) && NulFree(r.value)
  {
    hide DecodeString, Sized, NulFree;
    NulFreeNothing();
    match f
    case Indexed(index) =>
      if HasIndex(c.fixed, t, index) {
        EntryIsNulFree(c.fixed, t, index);
      }
    case SizeUpdate(_) =>
    case Literal(_, index, _, _) =>
      if index > 0 && HasIndex(c.fixed, t, index) {
        EntryIsNulFree(c.fixed, t, index);
      }
  }

  lemma NulFreeNothing()
    ensures NulFree([])
  {
  }

  lemma EntryIsNulFree(fixed: seq<Entry>, t: Table, index: nat)
    requires |fixed| == STATIC_SIZE && HasIndex(fixed, t, index) && NulFreeEntries(fixed) && NulFreeEntries(t.entries)
    ensures NulFree(EntryAt(fixed, t, index).name) && NulFree(EntryAt(fixed, t, index).value)
  {
    assert NulFreeEntry(EntryAt(fixed, t, index));
  }

  /** A decoded header goes to the list unless its name or value is empty. */
  method AddDecoded(list: HeaderList.List, name: seq<byte>, value: seq<byte>) returns (ok: bool)
    requires list.Valid() && NulFree(name) && NulFree(value)
    modifies list, list.buffer
    ensures list.Valid()
    ensures HeaderList.Change(list.pairs, ok) == HeaderList.AddAll(old(list.pairs), Emit(name, value), list.buffer.Length)
  {
    hide HeaderList.AddTo, HeaderList.Packed, NulFree;
    ok := true;
    if name != [] && value != [] {
      ok := list.AddHeader(name, value);
    }
  }

  /** What the decoder left behind is what the specification says. */
  ghost predicate LeftBehind(d: Delivery, r: Outcome, list: HeaderList.List, table: DynamicTable)
    reads list, table
  {
    && list.pairs == d.list && table.Abs() == d.table
    && r == match d case Delivered(_, _) => Decoded case Undelivered(e, _, _) => Failed(e)
  }

  datatype Outcome = Decoded | Failed(error: Error)

  /** hpack_decoder_decode: a whole block against the table, its headers into the list. */
  method DecodeHeaders(c: Codec, table: DynamicTable, list: HeaderList.List, block: seq<byte>) returns (r: Outcome)
    requires FixedOk(c) && table.Valid() && list.Valid() && list.buffer != table.buffer
    modifies table, table.buffer, list, list.buffer
    ensures table.Valid() && list.Valid()
    ensures LeftBehind(DecodeInto(c, old(table.Abs()), block, true, old(list.pairs), list.buffer.Length), r, list, table)
  {
    hide Apply, Acceptable, ParseField, Layout, Span, Stored, Slot, Size, NulFreeEntries, Emit, HeaderList.AddAll, HeaderList.Packed;
    ghost var capacity := list.buffer.Length;
    ghost var goal := DecodeInto(c, table.Abs(), block, true, list.pairs, capacity);
    var pointer := 0;
    var updatesAllowed := true;
    assert block[0..] == block;
    while pointer < |block|
      invariant 0 <= pointer <= |block| && table.Valid() && list.Valid()
      invariant goal == DecodeInto(c, table.Abs(), block[pointer..], updatesAllowed, list.pairs, capacity)
    {
      var rest := block[pointer..];
      var parsed := ParseEncodedHeader(rest);
      if parsed.Bad? {
        return Failed(Compression);
      }
      if !parsed.field.SizeUpdate? {
        updatesAllowed := false;
      } else if !updatesAllowed {
        return Failed(Compression);
      }
      var ok := CheckErrors(parsed.field);
      if !ok {
        return Failed(Compression);
      }
      AppliedIsNulFree(c, table.Abs(), parsed.field);
      var h := DecodeHeader(c, table, parsed.field);
      if h.Failure? {
        return Failed(h.error);
      }
      ok := AddDecoded(list, h.name, h.value);
      if !ok {
        return Failed(Compression);
      }
      if pointer + parsed.used > |block| {
        return Failed(Internal);
      }
      assert rest[parsed.used..] == block[pointer + parsed.used..];
      pointer := pointer + parsed.used;
    }
    assert block[pointer..] == [];
    return Decoded;
  }
}
