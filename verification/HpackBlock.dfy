/**
 * Header blocks: the representations of section 6 of RFC 7541 as src/hpack/encoder.c writes them
 * and src/hpack/decoder.c reads them, both as functions of a table.
 */
module HpackBlock {
  import opened Bits
  import PrefixInt
  import opened Huffman
  import opened HuffmanString
  import opened Eos
  import opened TableSpec
  import opened HpackString

  /** The constants of a codec: Huffman code, static table, sizes of the two buffers strings are decoded into. */
  datatype Codec = Codec(code: Code, fixed: seq<Entry>, nameSize: nat, valueSize: nat)

  ghost predicate Ready(c: Codec) {
    && Canonical(c.code) && ShortRuns(c.code)
    && |c.fixed| == STATIC_SIZE
    && c.nameSize <= 256 && c.valueSize <= 256
  }

  datatype Kind = IndexedKind | StoredKind | UpdateKind | NeverKind | WithoutKind

  /** hpack_utils_get_preamble. */
  function KindOf(b: byte): (k: Kind) {
    if b >= 128 then IndexedKind
    else if b >= 64 then StoredKind
    else if b >= 32 then UpdateKind
    else if b >= 16 then NeverKind
    else WithoutKind
  }

  /** hpack_utils_find_prefix_size. */
  function PrefixOf(k: Kind): (p: nat)
    ensures 4 <= p <= 7
  {
    match k case IndexedKind => 7 case StoredKind => 6 case UpdateKind => 5 case _ => 4
  }

  datatype Field =
    | Indexed(index: nat)
    | Literal(stored: bool, index: nat, name: Raw, value: Raw)
    | SizeUpdate(size: nat)

  datatype Parse = Got(field: Field, used: nat) | Bad

  function ParseLiteral(stored: bool, index: nat, start: nat, bs: seq<byte>): (r: Parse)
    ensures r.Got? ==> start < r.used
  {
    if start > |bs| then Bad
    else if index > 0 then
      match ParseString(bs[start..])
      case Parsed(v, used) => Got(Literal(stored, index, Raw(false, []), v), start + used)
      case Unparsed => Bad
    else
      match ParseString(bs[start..])
      case Unparsed => Bad
      case Parsed(n, nUsed) =>
        match ParseString(bs[start + nUsed..])
        case Parsed(v, vUsed) => Got(Literal(stored, 0, n, v), start + nUsed + vUsed)
        case Unparsed => Bad
  }

  /** hpack_decoder_parse_encoded_header on what is left of a block. */
  function ParseField(bs: seq<byte>): (r: Parse)
    requires bs != []
    ensures r.Got? ==> 1 <= r.used
  {
    var kind := KindOf(bs[0]);
    var prefix := PrefixOf(kind);
    match PrefixInt.Decode(bs, prefix)
    case Value(index) =>
      var used := |PrefixInt.Encode(index, prefix)|;
      (match kind
       case IndexedKind => Got(Indexed(index), used)
       case UpdateKind => Got(SizeUpdate(index % 0x1_0000), used)
       case _ => ParseLiteral(kind == StoredKind, index, used, bs))
    case _ => Bad
  }

  /** hpack_decoder_check_errors. */
  ghost predicate Acceptable(f: Field) {
    match f
    case Indexed(index) => index != 0
    case SizeUpdate(size) => size <= PrefixInt.MAX_INTEGER
    case Literal(_, index, name, value) => (index == 0 ==> PassesEosCheck(name.bytes)) && PassesEosCheck(value.bytes)
  }

  datatype Applied = Applied(table: Table, name: seq<byte>, value: seq<byte>) | Refused(error: Error)

  function StoreLiteral(t: Table, stored: bool, name: seq<byte>, value: seq<byte>): (r: Applied) {
    if !stored then Applied(t, name, value)
    else if CanAdd(t, Entry(name, value)) then Applied(Add(t, Entry(name, value)), name, value)
    else Refused(Internal)
  }

  /** A string of a table, copied into a buffer without a look at its length. */
  function Copied(s: seq<byte>, size: nat): (r: Content) {
    if |s| < size then Terminated(s) else Overflow
  }

  /**
   * A literal whose strings are in the two buffers. Both the table and, unless one of them is empty, the header list
   * measure them with strlen, which reads on where there is no terminator.
   */
  function TakeLiteral(t: Table, stored: bool, name: Content, value: Content): (r: Applied) {
    match name
    case NotDecoded(e) => Refused(e)
    case Overflow => Refused(Overrun)
    case _ =>
      match value
      case NotDecoded(e) => Refused(e)
      case Overflow => Refused(Overrun)
      case _ =>
        if (name.Unterminated? || value.Unterminated?) && (stored || (name.bytes != [] && value.bytes != []))
        then Refused(Overrun)
        else StoreLiteral(t, stored, name.bytes, value.bytes)
  }

  /** hpack_decoder_decode_header: the header a field stands for and its effect on the table. */
  function Apply(c: Codec, t: Table, f: Field): (r: Applied)
    requires Sized(c.code) && |c.fixed| == STATIC_SIZE
  {
    match f
    case Indexed(index) =>
      if HasIndex(c.fixed, t, index)
      then
        var e := EntryAt(c.fixed, t, index);
        if |e.name| < c.nameSize && |e.value| < c.valueSize then Applied(t, e.name, e.value) else Refused(Overrun)
      else Refused(Compression)
    case SizeUpdate(size) =>
      if size <= t.limit then Applied(Resize(t, size), [], []) else Refused(Compression)
    case Literal(stored, index, n, v) =>
      if index > 0 && !HasIndex(c.fixed, t, index) then Refused(Compression)
      else
        var name :=
          if index > 0 then Copied(EntryAt(c.fixed, t, index).name, c.nameSize) else DecodeString(c.code, n, c.nameSize);
        TakeLiteral(t, stored, name, DecodeString(c.code, v, c.valueSize))
  }

  datatype Block = Block(headers: seq<Entry>, table: Table) | Rejected(error: Error)

  /** A decoded header goes to the list unless its name or value is empty. */
  function Emit(name: seq<byte>, value: seq<byte>): (r: seq<Entry>) {
    if name != [] && value != [] then [Entry(name, value)] else []
  }

  function Before(es: seq<Entry>, b: Block): (r: Block) {
    match b case Block(hs, t) => Block(es + hs, t) case _ => b
  }

  /** hpack_decoder_decode: size updates only before the first header of a block. */
  ghost function DecodeBlock(c: Codec, t: Table, bs: seq<byte>, updatesAllowed: bool): (r: Block)
    requires Sized(c.code) && |c.fixed| == STATIC_SIZE
    decreases |bs|
  {
    if bs == [] then Block([], t)
    else
      match ParseField(bs)
      case Bad => Rejected(Compression)
      case Got(f, used) =>
        if f.SizeUpdate? && !updatesAllowed then Rejected(Compression)
        else if !Acceptable(f) then Rejected(Compression)
        else
          match Apply(c, t, f)
          case Refused(e) => Rejected(e)
          case Applied(t', n, v) =>
            if used > |bs| then Rejected(Internal)
            else Before(Emit(n, v), DecodeBlock(c, t', bs[used..], f.SizeUpdate?))
  }

  /** Tables small enough for their indices and sizes to be coded as integers. */
  ghost predicate Bounded(t: Table) {
    WellFormed(t) && t.maxSize <= PrefixInt.MAX_INTEGER && t.limit <= PrefixInt.MAX_INTEGER
  }

  lemma {:induction false} StaticBound(fixed: seq<Entry>, name: seq<byte>, value: seq<byte>, i: nat)
    requires i <= |fixed|
    ensures StaticFrom(fixed, name, value, i) <= |fixed| + 1
    ensures StaticNameFrom(fixed, name, i) <= |fixed| + 1
    decreases |fixed| - i
  {
    if i < |fixed| {
      StaticBound(fixed, name, value, i + 1);
    }
  }

  lemma {:induction false} DynamicBound(es: seq<Entry>, name: seq<byte>, value: seq<byte>, k: nat)
    requires 1 <= k <= |es| + 1
    ensures DynamicFrom(es, name, value, k) <= |es| && DynamicNameFrom(es, name, k) <= |es|
    decreases |es| + 1 - k
  {
    if k <= |es| {
      DynamicBound(es, name, value, k + 1);
    }
  }

  lemma IndexBound(c: Codec, t: Table, name: seq<byte>, value: seq<byte>)
    requires |c.fixed| == STATIC_SIZE && Bounded(t)
    ensures FindIndex(c.fixed, t, name, value) <= PrefixInt.MAX_INTEGER
    ensures FindIndexName(c.fixed, t, name) <= PrefixInt.MAX_INTEGER
  {
    StaticBound(c.fixed, name, value, 0);
    DynamicBound(t.entries, name, value, 1);
    assert Size(t.entries) >= 32 * |t.entries|;
  }

  /** What hpack_encoder_pack_header decides for a header. */
  ghost function FieldFor(c: Codec, t: Table, name: seq<byte>, value: seq<byte>): (f: Field)
    requires Canonical(c.code)
  {
    var index := FindIndex(c.fixed, t, name, value);
    if index > 0 then Indexed(index)
    else
      var named := FindIndexName(c.fixed, t, name);
      var n := if named > 0 then Raw(false, []) else Payload(c.code, name);
      Literal(CanAdd(t, Entry(name, value)), named, n, Payload(c.code, value))
  }

  /** hpack_encoder_encode_header: literals are stored when they fit in the table, else never indexed. */
  ghost function FieldCode(c: Codec, t: Table, name: seq<byte>, value: seq<byte>): (r: seq<byte>)
    requires Canonical(c.code) && |c.fixed| == STATIC_SIZE && Bounded(t)
    ensures |r| >= 1
  {
    IndexBound(c, t, name, value);
    var index := FindIndex(c.fixed, t, name, value);
    if index > 0 then Marked(index, 7)
    else
      var named := FindIndexName(c.fixed, t, name);
      var prefix := if CanAdd(t, Entry(name, value)) then 6 else 4;
      Marked(named, prefix) + (if named > 0 then [] else StringCode(c.code, name)) + StringCode(c.code, value)
  }

  ghost function TableAfter(c: Codec, t: Table, name: seq<byte>, value: seq<byte>): (r: Table) {
    if FindIndex(c.fixed, t, name, value) > 0 then t else Add(t, Entry(name, value))
  }

  lemma MarkedKind(n: nat, prefix: nat)
    requires n <= PrefixInt.MAX_INTEGER && 4 <= prefix <= 7
    ensures KindOf(Marked(n, prefix)[0]) ==
            if prefix == 7 then IndexedKind else if prefix == 6 then StoredKind
            else if prefix == 5 then UpdateKind else NeverKind
    ensures PrefixOf(KindOf(Marked(n, prefix)[0])) == prefix
  {
    hide Marked;
    Pow2Small();
  }

  /** The first octets of a field give back its integer. */
  lemma ParseMarked(n: nat, prefix: nat, post: seq<byte>)
    requires n <= PrefixInt.MAX_INTEGER && 4 <= prefix <= 7
    ensures var bs := Marked(n, prefix) + post;
            ParseField(bs) ==
            if prefix == 7 then Got(Indexed(n), |Marked(n, prefix)|)
            else if prefix == 5 then Got(SizeUpdate(n), |Marked(n, prefix)|)
            else ParseLiteral(prefix == 6, n, |Marked(n, prefix)|, bs)
  {
    hide Marked, PrefixInt.Decode, PrefixInt.Encode, KindOf, PrefixOf, ParseLiteral;
    MarkedKind(n, prefix);
    MarkedRoundTrip(n, prefix, post);
  }

  lemma ParseStrings(c: Codec, head: seq<byte>, stored: bool, named: nat, name: seq<byte>, value: seq<byte>, post: seq<byte>)
    requires Canonical(c.code) && |name| <= PrefixInt.MAX_INTEGER && |value| <= PrefixInt.MAX_INTEGER
    ensures var nameCode := if named > 0 then [] else StringCode(c.code, name);
            var n := if named > 0 then Raw(false, []) else Payload(c.code, name);
            var code := head + nameCode + StringCode(c.code, value);
            ParseLiteral(stored, named, |head|, code + post) ==
            Got(Literal(stored, named, n, Payload(c.code, value)), |code|)
  {
    hide StringCode, Payload, Canonical, ParseString;
    var valueCode := StringCode(c.code, value);
    ParseStringCode(c.code, value, post);
    if named > 0 {
      assert (head + [] + valueCode + post)[|head|..] == valueCode + post;
    } else {
      var nameCode := StringCode(c.code, name);
      var bs := head + nameCode + valueCode + post;
      ParseStringCode(c.code, name, valueCode + post);
      assert bs[|head|..] == nameCode + (valueCode + post);
      assert bs[|head| + |nameCode|..] == valueCode + post;
    }
  }

  /** Parsing what the encoder wrote gives the field it decided on, and consumes exactly that. */
  lemma ParseFieldCode(c: Codec, t: Table, name: seq<byte>, value: seq<byte>, post: seq<byte>)
    requires Canonical(c.code) && |c.fixed| == STATIC_SIZE && Bounded(t)
    requires |name| <= PrefixInt.MAX_INTEGER && |value| <= PrefixInt.MAX_INTEGER
    ensures ParseField(FieldCode(c, t, name, value) + post) ==
            Got(FieldFor(c, t, name, value), |FieldCode(c, t, name, value)|)
  {
    hide StringCode, Payload, Canonical, Marked, ParseField, ParseLiteral, FindIndex, FindIndexName, Bounded, CanAdd;
    IndexBound(c, t, name, value);
    var index := FindIndex(c.fixed, t, name, value);
    if index > 0 {
      ParseMarked(index, 7, post);
    } else {
      var named := FindIndexName(c.fixed, t, name);
      var stored := CanAdd(t, Entry(name, value));
      var head := Marked(named, if stored then 6 else 4);
      var nameCode := if named > 0 then [] else StringCode(c.code, name);
      var valueCode := StringCode(c.code, value);
      ParseStrings(c, head, stored, named, name, value, post);
      ParseMarked(named, if stored then 6 else 4, nameCode + valueCode + post);
      Reassociate(head, nameCode, valueCode, post);
    }
  }

  lemma Reassociate<T>(a: seq<T>, b: seq<T>, c: seq<T>, d: seq<T>)
    ensures a + (b + c + d) == a + b + c + d
  {
  }

  /** Bytes a string may hold for the codec to carry it: plain, not NUL, with codes of at most 27 bits. */
  ghost predicate Carried(k: Code, s: seq<byte>)
    requires Sized(k)
  {
    Short(k, s) && forall i :: 0 <= i < |s| ==> 0 < s[i] < 128
  }

  ghost predicate Sendable(c: Codec, name: seq<byte>, value: seq<byte>)
    requires Ready(c)
  {
    && 1 <= |name| < c.nameSize && |value| < c.valueSize
    && Carried(c.code, name) && Carried(c.code, value)
  }

  /** The encoder's searches return what they were asked for. */
  ghost predicate Faithful(c: Codec, t: Table, name: seq<byte>, value: seq<byte>)
    requires |c.fixed| == STATIC_SIZE
  {
    var index := FindIndex(c.fixed, t, name, value);
    var named := FindIndexName(c.fixed, t, name);
    if index > 0 then HasIndex(c.fixed, t, index) && EntryAt(c.fixed, t, index) == Entry(name, value)
    else named > 0 ==> HasIndex(c.fixed, t, named) && EntryAt(c.fixed, t, named).name == name
  }

  lemma CarriedIsNulFree(k: Code, s: seq<byte>)
    requires Sized(k) && Carried(k, s)
    ensures NulFree(s)
  {
  }

  lemma FieldIsAcceptable(c: Codec, t: Table, name: seq<byte>, value: seq<byte>)
    requires Ready(c) && Sendable(c, name, value)
    ensures Acceptable(FieldFor(c, t, name, value))
  {
    hide PassesEosCheck, Payload, Canonical, ShortRuns, Short;
    PayloadPassesEosCheck(c.code, name);
    PayloadPassesEosCheck(c.code, value);
  }

  /** The decoder's table follows the encoder's, and the header comes out as it went in. */
  lemma ApplyFieldFor(c: Codec, t: Table, name: seq<byte>, value: seq<byte>)
    requires Ready(c) && Bounded(t) && Sendable(c, name, value) && Faithful(c, t, name, value)
    ensures Apply(c, t, FieldFor(c, t, name, value)) == Applied(TableAfter(c, t, name, value), name, value)
  {
    hide DecodeString, Payload, Canonical, ShortRuns, Bounded, FindIndex, FindIndexName, CanAdd, Add;
    CarriedIsNulFree(c.code, name);
    CarriedIsNulFree(c.code, value);
    DecodePayload(c.code, name, c.nameSize);
    DecodePayload(c.code, value, c.valueSize);
    AddUnlessTooLarge(t, Entry(name, value));
  }

  lemma AddUnlessTooLarge(t: Table, e: Entry)
    ensures !CanAdd(t, e) ==> Add(t, e) == t
  {
  }

  lemma TableAfterIsBounded(c: Codec, t: Table, name: seq<byte>, value: seq<byte>)
    requires Bounded(t) && NulFree(name) && NulFree(value)
    ensures Bounded(TableAfter(c, t, name, value))
  {
    AddKeepsWellFormed(t, Entry(name, value));
  }

  /** One header, whatever follows it in the block. */
  lemma HeaderRoundTrip(c: Codec, t: Table, name: seq<byte>, value: seq<byte>, post: seq<byte>, first: bool)
    requires Ready(c) && Bounded(t) && Sendable(c, name, value) && Faithful(c, t, name, value)
    ensures DecodeBlock(c, t, FieldCode(c, t, name, value) + post, first) ==
            Before(Emit(name, value), DecodeBlock(c, TableAfter(c, t, name, value), post, false))
  {
    hide FieldFor, FieldCode, TableAfter, ParseField, Apply, Acceptable, Sendable, Canonical, ShortRuns, Bounded, Emit, Before;
    LengthsFit(c, name, value);
    ParseFieldCode(c, t, name, value, post);
    FieldIsAcceptable(c, t, name, value);
    ApplyFieldFor(c, t, name, value);
    NotAnUpdate(c, t, name, value);
    var code := FieldCode(c, t, name, value);
    assert (code + post)[|code|..] == post;
  }

  lemma LengthsFit(c: Codec, name: seq<byte>, value: seq<byte>)
    requires Ready(c) && Sendable(c, name, value)
    ensures |name| <= PrefixInt.MAX_INTEGER && |value| <= PrefixInt.MAX_INTEGER
  {
  }

  lemma NotAnUpdate(c: Codec, t: Table, name: seq<byte>, value: seq<byte>)
    requires Canonical(c.code)
    ensures !FieldFor(c, t, name, value).SizeUpdate?
  {
  }
}
