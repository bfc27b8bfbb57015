/** HPACK string literals, section 5.2 of RFC 7541: a length with a Huffman flag, then the bytes. */
module HpackString {
  import opened Bits
  import PrefixInt
  import opened Huffman
  import opened HuffmanString
  import opened Eos
  import opened TableSpec

  /** The preamble bits in the first octet. */
  function WithPreamble(p: byte, bs: seq<byte>): (r: seq<byte>)
    requires |bs| >= 1 && Or(p, bs[0]) < 256
    ensures |r| == |bs|
  {
    [Or(p, bs[0])] + bs[1..]
  }

  /** An integer in the low prefix bits of an octet whose next bit is set, with the octets that follow. */
  ghost function Marked(n: nat, prefix: nat): (r: seq<byte>)
    requires n <= PrefixInt.MAX_INTEGER && 4 <= prefix <= 7
    ensures |r| == |PrefixInt.Encode(n, prefix)|
    ensures Pow2(prefix) <= r[0] < 2 * Pow2(prefix)
  {
    Pow2Small();
    PrefixInt.RoundTrip(n, prefix, 1, []);
    WithPreamble(Pow2(prefix), PrefixInt.Encode(n, prefix))
  }

  lemma MarkedRoundTrip(n: nat, prefix: nat, post: seq<byte>)
    requires n <= PrefixInt.MAX_INTEGER && 4 <= prefix <= 7
    ensures PrefixInt.Decode(Marked(n, prefix) + post, prefix) == PrefixInt.Value(n)
  {
    Pow2Small();
    PrefixInt.RoundTrip(n, prefix, 1, post);
  }

  lemma PlainRoundTrip(n: nat, prefix: nat, post: seq<byte>)
    requires n <= PrefixInt.MAX_INTEGER && 4 <= prefix <= 7
    ensures PrefixInt.Decode(PrefixInt.Encode(n, prefix) + post, prefix) == PrefixInt.Value(n)
    ensures PrefixInt.Encode(n, prefix)[0] < Pow2(prefix)
  {
    var e := PrefixInt.Encode(n, prefix);
    PrefixInt.RoundTrip(n, prefix, 0, post);
    assert 0 * Pow2(prefix) == 0;
    assert e == [e[0]] + e[1..];
  }

  ghost function PlainString(s: seq<byte>): (r: seq<byte>) {
    PrefixInt.Encode(|s|, 7) + s
  }

  ghost predicate HuffmanFits(k: Code, s: seq<byte>)
    requires Canonical(k)
  {
    |HuffmanBytes(k, s)| <= PrefixInt.MAX_INTEGER
  }

  ghost function CodedString(k: Code, s: seq<byte>): (r: seq<byte>)
    requires Canonical(k) && HuffmanFits(k, s)
  {
    Marked(|HuffmanBytes(k, s)|, 7) + HuffmanBytes(k, s)
  }

  /** hpack_encoder_encode_string: Huffman coding when it is no longer than the string. */
  ghost predicate UsesHuffman(k: Code, s: seq<byte>)
    requires Canonical(k)
  {
    HuffmanFits(k, s) && |CodedString(k, s)| <= |s|
  }

  ghost function StringCode(k: Code, s: seq<byte>): (r: seq<byte>)
    requires Canonical(k)
    ensures |r| >= 1
  {
    if UsesHuffman(k, s) then CodedString(k, s) else PlainString(s)
  }

  /** The bytes that stand for a string in a block. */
  datatype Raw = Raw(huffman: bool, bytes: seq<byte>)

  datatype Parsed = Parsed(raw: Raw, used: nat) | Unparsed

  /** A string literal at the start of bs. */
  function ParseString(bs: seq<byte>): (r: Parsed)
    ensures r.Parsed? ==> 1 <= r.used <= |bs|
  {
    if bs == [] then Unparsed
    else
      match PrefixInt.Decode(bs, 7)
      case Value(n) =>
        var used := |PrefixInt.Encode(n, 7)|;
        if used + n > |bs| then Unparsed else Parsed(Raw(bs[0] >= 128, bs[used..used + n]), used + n)
      case _ => Unparsed
  }

  /** What the encoder puts in a block for a string. */
  ghost function Payload(k: Code, s: seq<byte>): (r: Raw)
    requires Canonical(k)
  {
    if UsesHuffman(k, s) then Raw(true, HuffmanBytes(k, s)) else Raw(false, s)
  }

  /** The octets of a string literal: length, flag and payload. */
  ghost function RawCode(raw: Raw): (r: seq<byte>)
    requires |raw.bytes| <= PrefixInt.MAX_INTEGER
  {
    (if raw.huffman then Marked(|raw.bytes|, 7) else PrefixInt.Encode(|raw.bytes|, 7)) + raw.bytes
  }

  lemma ParseRaw(raw: Raw, post: seq<byte>)
    requires |raw.bytes| <= PrefixInt.MAX_INTEGER
    ensures ParseString(RawCode(raw) + post) == Parsed(raw, |RawCode(raw)|)
  {
    hide PrefixInt.Encode, PrefixInt.Decode, Marked;
    Pow2Small();
    var bs, n := RawCode(raw) + post, |raw.bytes|;
    if raw.huffman {
      MarkedRoundTrip(n, 7, raw.bytes + post);
      assert bs == Marked(n, 7) + (raw.bytes + post);
    } else {
      PlainRoundTrip(n, 7, raw.bytes + post);
      assert bs == PrefixInt.Encode(n, 7) + (raw.bytes + post);
    }
    var used := |PrefixInt.Encode(n, 7)|;
    assert bs[used..used + n] == raw.bytes;
  }

  lemma ParseStringCode(k: Code, s: seq<byte>, post: seq<byte>)
    requires Canonical(k) && |s| <= PrefixInt.MAX_INTEGER
    ensures ParseString(StringCode(k, s) + post) == Parsed(Payload(k, s), |StringCode(k, s)|)
  {
    hide Canonical, HuffmanBytes, PrefixInt.Encode, Marked, ParseString;
    ParseRaw(Payload(k, s), post);
  }

  /** The errors of the decoder; Overrun stands for memory read or written past a buffer, where C defines nothing any more. */
  datatype Error = Compression | Internal | Memory | Overrun

  /** The part of a buffer that C reads as a string. */
  function CString(s: seq<byte>): (r: seq<byte>)
    ensures NulFree(r)
    ensures if NulFree(s) then r == s else |r| < |s|
  {
    if s == [] || s[0] == 0 then []
    else
      assert NulFree(s) ==> NulFree(s[1..]);
      [s[0]] + CString(s[1..])
  }

  /**
   * What decoding a string leaves in a zeroed buffer: a C string; characters up to the last octet with no terminator
   * behind them; a character stored past the end; or an error.
   */
  datatype Content = Terminated(bytes: seq<byte>) | Unterminated(bytes: seq<byte>) | Overflow | NotDecoded(error: Error)

  /** Characters stored from the start of a buffer that they fit, with zeros behind them. */
  function InBuffer(s: seq<byte>, size: nat): (r: Content)
    requires |s| <= size
    ensures r == if |s| == size && NulFree(s) then Unterminated(s) else Terminated(CString(s))
    ensures r.Terminated? ==> |r.bytes| < size
  {
    if |s| == size && NulFree(s) then Unterminated(s) else Terminated(CString(s))
  }

  /** hpack_decoder_decode_string: a plain string is measured before it is stored, a Huffman-coded one only while it is. */
  function DecodeString(k: Code, raw: Raw, size: nat): (r: Content)
    requires Sized(k)
    ensures r.Terminated? ==> NulFree(r.bytes) && |r.bytes| < size
    ensures r.Unterminated? ==> NulFree(r.bytes) && |r.bytes| == size
  {
    if raw.huffman then
      var bits := BitsOf(raw.bytes);
      if SymbolCount(k, bits, 0) > size then Overflow
      else
        CountOfText(k, bits, 0, 0, size);
        match TextFrom(k, bits, 0, 0, size)
        case Text(s) => InBuffer(s, size)
        case TooLong => NotDecoded(Memory)
        case BadCode => NotDecoded(Compression)
    else if |raw.bytes| > size then NotDecoded(Memory)
    else InBuffer(raw.bytes, size)
  }

  lemma DecodePayload(k: Code, s: seq<byte>, size: nat)
    requires Canonical(k) && NulFree(s) && |s| < size
    ensures DecodeString(k, Payload(k, s), size) == Terminated(s)
  {
    hide Canonical, HuffmanBytes, TextFrom, BitsOf, UsesHuffman, SymbolCount;
    HuffmanRoundTrip(k, s, size);
    CountOfText(k, BitsOf(HuffmanBytes(k, s)), 0, 0, size);
  }

  /** hpack_decoder_check_errors for one string: short strings pass, and the length is kept in eight bits. */
  ghost predicate PassesEosCheck(bytes: seq<byte>) {
    |bytes| >= 4 ==> EosFree(BitsOf(bytes[..|bytes| % 256]))
  }

  /** Strings whose codes are short and whose bytes are plain pass the scan in either form. */
  lemma PayloadPassesEosCheck(k: Code, s: seq<byte>)
    requires Canonical(k) && ShortRuns(k) && Short(k, s) && |s| < 256
    requires forall i :: 0 <= i < |s| ==> s[i] < 128
    ensures PassesEosCheck(Payload(k, s).bytes)
  {
    hide Canonical, HuffmanBytes, BitsOf, ShortRuns, Short, EosFree;
    var b := Payload(k, s).bytes;
    assert |b| < 256 by { PayloadIsShort(k, s); }
    assert b[..|b|] == b;
    if UsesHuffman(k, s) {
      CodedPassesEosScan(k, s);
    } else {
      PlainTextIsEosFree(s);
    }
  }

  lemma PayloadIsShort(k: Code, s: seq<byte>)
    requires Canonical(k)
    ensures |Payload(k, s).bytes| <= |s|
  {
  }
}
