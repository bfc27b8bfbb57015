/**
 * Huffman-coded strings: packing (src/hpack/encoder.c), word-by-word decoding and the scan for
 * the EOS symbol (src/hpack/decoder.c).
 */
module HuffmanString {
  import opened Bits
  import opened BitStream
  import opened Huffman

  ghost function SymbolBits(k: Code, s: byte): (r: seq<bit>)
    requires Canonical(k)
    ensures |r| == CodeLength(k, s)
  {
    ToBits(CodeWord(k, s), CodeLength(k, s))
  }

  ghost function StringBits(k: Code, str: seq<byte>): (r: seq<bit>)
    requires Canonical(k)
  {
    if str == [] then [] else SymbolBits(k, str[0]) + StringBits(k, str[1..])
  }

  /** The bytes of a Huffman-coded string: its codes end to end, filled up with ones. */
  ghost function HuffmanBytes(k: Code, str: seq<byte>): (r: seq<byte>)
    requires Canonical(k)
    ensures |r| == (|StringBits(k, str)| + 7) / 8
  {
    var bits := StringBits(k, str);
    Pack(bits + Ones(BitStream.Padding(|bits|)))
  }

  lemma {:induction false} StringBitsSnoc(k: Code, a: seq<byte>, s: byte)
    requires Canonical(k)
    ensures StringBits(k, a + [s]) == StringBits(k, a) + SymbolBits(k, s)
  {
    if a == [] {
      assert [s][1..] == [];
    } else {
      assert (a + [s])[1..] == a[1..] + [s];
      StringBitsSnoc(k, a[1..], s);
    }
  }

  /** A code word fits in its length. */
  lemma CodeFits(k: Code, s: byte)
    requires Canonical(k)
    ensures CodeWord(k, s) < Pow2(CodeLength(k, s))
  {
    hide Pow2, CodeLength, CodeWord, LengthFrom, Low;
    var l, c := CodeLength(k, s), CodeWord(k, s);
    CodeInterval(k, s);
    Pow2Add(l, LONGEST - l);
    if l < LONGEST {
      LowMonotone(k, l + 1, LONGEST);
      TopOfCode(k);
    }
    var p := Pow2(LONGEST - l);
    if c >= Pow2(l) {
      Distribute(c + 1, 1, p);
      MulMonotone(Pow2(l), c, p);
      assert false;
    }
  }

  lemma TopOfCode(k: Code)
    requires Canonical(k)
    ensures Low(k, LONGEST) < Pow2(LONGEST)
  {
    assert Pow2(0) == 1;
  }

  /** The code words of a string, one per symbol, and their total length in bits. */
  method EncodeWords(k: Code, str: seq<byte>) returns (words: seq<Word>, bitLength: nat)
    requires Canonical(k)
    ensures forall w :: w in words ==> ValidWord(w)
    ensures WordBits(words) == StringBits(k, str)
    ensures bitLength == |StringBits(k, str)|
  {
    words, bitLength := [], 0;
    for i := 0 to |str|
      invariant forall w :: w in words ==> ValidWord(w)
      invariant WordBits(words) == StringBits(k, str[..i])
      invariant bitLength == |WordBits(words)|
    {
      words, bitLength := EncodeNext(k, str, i, words, bitLength);
    }
    assert str[..|str|] == str;
  }

  method EncodeNext(k: Code, str: seq<byte>, i: nat, words: seq<Word>, bitLength: nat)
    returns (words': seq<Word>, bitLength': nat)
    requires Canonical(k) && i < |str|
    requires forall w :: w in words ==> ValidWord(w)
    requires WordBits(words) == StringBits(k, str[..i]) && bitLength == |WordBits(words)|
    ensures forall w :: w in words' ==> ValidWord(w)
    ensures WordBits(words') == StringBits(k, str[..i + 1]) && bitLength' == |WordBits(words')|
  {
    hide CodeLength, CodeWord, Canonical, Pow2, StringBits, ToBits;
    var rc, code, length := EncodeSymbol(k, str[i]);
    CodeFits(k, str[i]);
    StringBitsSnoc(k, str[..i], str[i]);
    assert str[..i + 1] == str[..i] + [str[i]];
    words' := words + [Word(code, length)];
    bitLength' := bitLength + length;
    assert words'[..|words|] == words;
  }

  /** The Huffman coding of a string, byte for byte. */
  method EncodeText(k: Code, str: seq<byte>) returns (out: seq<byte>)
    requires Canonical(k)
    ensures out == HuffmanBytes(k, str)
  {
    hide Canonical, StringBits, WordBits, ByteAt;
    var words, bitLength := EncodeWords(k, str);
    var byteLength := if bitLength % 8 != 0 then bitLength / 8 + 1 else bitLength / 8;
    var buffer := new byte[byteLength](_ => 0);
    var ok := PackWords(words, buffer);
    out := buffer[..];
    ghost var bits := StringBits(k, str) + Ones(BitStream.Padding(bitLength));
    assert |Pack(bits)| == byteLength;
    assert forall i :: 0 <= i < byteLength ==> out[i] == Pack(bits)[i];
  }

  datatype Step = Symbol(symbol: byte, size: nat) | End | Malformed

  /** hpack_decoder_check_huffman_padding: the last n bits are ones, and there are fewer than eight. */
  function PaddingStep(bits: seq<bit>, n: nat): (r: Step)
    requires |bits| >= 8
    ensures r.End? || r.Malformed?
  {
    if n < 8 && bits[|bits| - n..] == Ones(n) then End else Malformed
  }

  /** The thirty bits from pos on, ones standing for the bits past the end. */
  function Window(bits: seq<bit>, pos: nat): (w: seq<bit>)
    requires pos <= |bits|
    ensures |w| == 30
  {
    var left := |bits| - pos;
    if left < 30 then bits[pos..] + Ones(30 - left) else bits[pos..pos + 30]
  }

  /** hpack_decoder_decode_huffman_word; the count of bits left is kept in eight bits. */
  function StepAt(k: Code, bits: seq<bit>, pos: nat): (r: Step)
    requires Sized(k) && pos <= |bits| && |bits| >= 8
  {
    var left := |bits| - pos;
    if left < 5 then PaddingStep(bits, left)
    else
      match LookupWord(k, Val(Window(bits, pos)))
      case Found(s, size) => Symbol(s, size)
      case Missing => PaddingStep(bits, left % 256)
  }

  datatype Text = Text(bytes: seq<byte>) | TooLong | BadCode

  function Prepend(s: byte, t: Text): (r: Text) {
    match t case Text(bs) => Text([s] + bs) case _ => t
  }

  /** hpack_decoder_decode_huffman_string from bit pos with i symbols already stored. */
  function TextFrom(k: Code, bits: seq<bit>, pos: nat, i: nat, limit: nat): (r: Text)
    requires Sized(k) && |bits| % 8 == 0
    decreases if pos <= |bits| then |bits| - pos + 1 else 0
  {
    if bits == [] || pos > |bits| then Text([])
    else if limit < i then TooLong
    else
      match StepAt(k, bits, pos)
      case End => Text([])
      case Malformed => BadCode
      case Symbol(s, size) =>
        assert size >= SHORTEST;
        Prepend(s, TextFrom(k, bits, pos + size, i + 1, limit))
  }

  /** How many symbols the bits from pos on yield before an end, a bad code or the last bit. */
  function SymbolCount(k: Code, bits: seq<bit>, pos: nat): (n: nat)
    requires Sized(k) && |bits| % 8 == 0
    decreases if pos <= |bits| then |bits| - pos + 1 else 0
  {
    if bits == [] || pos > |bits| then 0
    else
      match StepAt(k, bits, pos)
      case Symbol(_, size) =>
        assert size >= SHORTEST;
        1 + SymbolCount(k, bits, pos + size)
      case _ => 0
  }

  /** The limit is passed by the symbol behind it; a text has as many symbols as there are. */
  lemma {:induction false} CountOfText(k: Code, bits: seq<bit>, pos: nat, i: nat, limit: nat)
    requires Sized(k) && |bits| % 8 == 0
    ensures var t, n := TextFrom(k, bits, pos, i, limit), SymbolCount(k, bits, pos);
            && (t.Text? ==> |t.bytes| == n)
            && (t.TooLong? ==> limit < i + n)
            && (limit < i + n ==> !t.BadCode?)
    decreases if pos <= |bits| then |bits| - pos + 1 else 0
  {
    hide StepAt;
    if bits != [] && pos <= |bits| && i <= limit {
      match StepAt(k, bits, pos)
      case Symbol(_, size) =>
        StepSize(k, bits, pos);
        CountOfText(k, bits, pos + size, i + 1, limit);
      case _ =>
    }
  }

  /** A code followed by anything decodes to its symbol. */
  lemma SymbolStep(k: Code, bits: seq<bit>, pos: nat, s: byte, tail: seq<bit>)
    requires Canonical(k) && pos <= |bits| && |bits| >= 8
    requires bits[pos..] == SymbolBits(k, s) + tail
    ensures StepAt(k, bits, pos) == Symbol(s, CodeLength(k, s))
  {
    hide Val, ToBits, Canonical, CodeLength, CodeWord, LookupWord, Pow2, SymbolBits;
    var l := CodeLength(k, s);
    var w := Window(bits, pos);
    assert w == w[..l] + w[l..];
    assert w[..l] == SymbolBits(k, s) by { WindowPrefix(bits, pos, SymbolBits(k, s), tail); }
    SymbolValue(k, s);
    ValSplit(w[..l], w[l..]);
    assert Begins(k, s, Val(w)) by { BeginsIs(k, s, Val(w)); }
    LookupExact(k, Val(w));
  }

  lemma BeginsIs(k: Code, s: byte, w: nat)
    requires Canonical(k) && w / Pow2(30 - CodeLength(k, s)) == CodeWord(k, s)
    ensures Begins(k, s, w)
  {
  }

  lemma WindowPrefix(bits: seq<bit>, pos: nat, head: seq<bit>, tail: seq<bit>)
    requires pos <= |bits| && bits[pos..] == head + tail && |head| <= 30
    ensures Window(bits, pos)[..|head|] == head
  {
    assert forall i :: 0 <= i < |head| ==> bits[pos..][i] == head[i];
  }

  lemma SymbolValue(k: Code, s: byte)
    requires Canonical(k)
    ensures Val(SymbolBits(k, s)) == CodeWord(k, s)
  {
    CodeFits(k, s);
    ValToBits(CodeWord(k, s), CodeLength(k, s));
  }

  /** Padding of ones, and nothing else, ends the string. */
  lemma PaddingEnds(k: Code, bits: seq<bit>, pos: nat)
    requires Canonical(k) && pos <= |bits| && |bits| >= 8
    requires |bits| - pos < 8 && bits[pos..] == Ones(|bits| - pos)
    ensures StepAt(k, bits, pos) == End
  {
    hide Val, LookupWord, Pow2, Canonical, CodeLength, CodeWord;
    var n := |bits| - pos;
    if n >= 5 {
      assert Window(bits, pos) == Ones(30);
      ValOnes(30);
      LookupExact(k, Pow2(30) - 1);
    }
  }

  /**
   * Round trip of the string codec: codes followed by fewer than eight ones decode to the
   * symbols that were coded, and decoding stops at the padding.
   */
  lemma {:induction false} TextRoundTrip(k: Code, bits: seq<bit>, pos: nat, i: nat, rest: seq<byte>, pad: nat, limit: nat)
    requires Canonical(k) && |bits| % 8 == 0 && pos <= |bits| && pad < 8
    requires bits[pos..] == StringBits(k, rest) + Ones(pad)
    requires i + |rest| <= limit
    ensures TextFrom(k, bits, pos, i, limit) == Text(rest)
    decreases |rest|
  {
    hide Canonical, StepAt, SymbolBits, CodeLength;
    if rest == [] {
      if bits != [] {
        assert StringBits(k, rest) + Ones(pad) == Ones(pad);
        PaddingEnds(k, bits, pos);
      }
    } else {
      var s := rest[0];
      var tail := StringBits(k, rest[1..]) + Ones(pad);
      assert bits[pos..] == SymbolBits(k, s) + tail;
      SymbolStep(k, bits, pos, s, tail);
      assert bits[pos + CodeLength(k, s)..] == tail;
      TextRoundTrip(k, bits, pos + CodeLength(k, s), i + 1, rest[1..], pad, limit);
      assert rest == [s] + rest[1..];
    }
  }

  /** Every string within the length limit is decoded from its coding. */
  lemma HuffmanRoundTrip(k: Code, str: seq<byte>, limit: nat)
    requires Canonical(k) && |str| <= limit
    ensures TextFrom(k, BitsOf(HuffmanBytes(k, str)), 0, 0, limit) == Text(str)
  {
    var pad := BitStream.Padding(|StringBits(k, str)|);
    var bits := StringBits(k, str) + Ones(pad);
    PackRoundTrip(bits);
    assert bits[0..] == bits;
    TextRoundTrip(k, bits, 0, 0, str, pad, limit);
  }

  method CheckPadding(bitsLeft: nat, encoded: seq<byte>) returns (ok: bool)
    requires |encoded| >= 1
    ensures ok <==> PaddingStep(BitsOf(encoded), bitsLeft) == End
  {
    hide Val, BitsOf, Pow2, Ones;
    if bitsLeft < 8 {
      var last := |encoded| - 1;
      ghost var tail := BitsOf(encoded)[8 * |encoded| - bitsLeft..];
      ok := encoded[last] % Pow2(bitsLeft) == Pow2(bitsLeft) - 1;
      LastBits(encoded, bitsLeft);
      ValOnes(bitsLeft);
      if ok {
        ValInjective(tail, Ones(bitsLeft));
      }
    } else {
      ok := false;
    }
  }

  lemma LastBits(bs: seq<byte>, n: nat)
    requires |bs| >= 1 && n < 8
    ensures bs[|bs| - 1] % Pow2(n) == Val(BitsOf(bs)[8 * |bs| - n..])
  {
    hide Val, Pow2, BitsOf;
    if n == 0 {
      assert BitsOf(bs)[8 * |bs|..] == [];
      NoBits();
    } else {
      ByteSuffix(bs, |bs| - 1, 8 - n);
      assert BitsOf(bs)[8 * |bs| - n..8 * |bs|] == BitsOf(bs)[8 * |bs| - n..];
    }
  }

  lemma NoBits()
    ensures Pow2(0) == 1 && Val([]) == 0
  {
  }

  method DecodeWord(k: Code, encoded: seq<byte>, pos: nat) returns (r: Step)
    requires Sized(k) && |encoded| >= 1 && pos <= 8 * |encoded|
    ensures r == StepAt(k, BitsOf(encoded), pos)
  {
    hide Val, LookupWord, BitsOf, Pow2, PaddingStep;
    var bitsLeft := (8 * |encoded| - pos) % 256;
    var word: nat;
    ghost var bits := BitsOf(encoded);
    if pos + 30 > 8 * |encoded| {
      if bitsLeft < 5 {
        var ok := CheckPadding(bitsLeft, encoded);
        return if ok then End else Malformed;
      }
      word := ReadBits(encoded, pos, bitsLeft);
      ValConcat(bits[pos..pos + bitsLeft], Ones(30 - bitsLeft));
      ValOnes(30 - bitsLeft);
      assert bits[pos..pos + bitsLeft] == bits[pos..];
      // shifted left, then or-ed with the padding ones
      word := word * Pow2(30 - bitsLeft) + (Pow2(30 - bitsLeft) - 1);
    } else {
      word := ReadBits(encoded, pos, 30);
    }
    assert word == Val(Window(bits, pos));
    var size, s := DecodeSymbol(k, word);
    if size >= 0 {
      return Symbol(s, size);
    }
    var ok := CheckPadding(bitsLeft, encoded);
    return if ok then End else Malformed;
  }

  /** The text, and how many characters were stored: the limit is looked at after the character behind it. */
  method DecodeText(k: Code, encoded: seq<byte>, limit: nat) returns (r: Text, stored: nat)
    requires Sized(k)
    ensures r == TextFrom(k, BitsOf(encoded), 0, 0, limit)
    ensures stored == Min(limit + 1, SymbolCount(k, BitsOf(encoded), 0))
  {
    hide BitsOf, StepAt;
    var str: seq<byte> := [];
    var pos := 0;
    ghost var bits := BitsOf(encoded);
    while |encoded| > 0 && pos <= 8 * |encoded|
      invariant TextFrom(k, bits, 0, 0, limit) == PrependAll(str, TextFrom(k, bits, pos, |str|, limit))
      invariant SymbolCount(k, bits, 0) == |str| + SymbolCount(k, bits, pos) && |str| <= limit + 1
      decreases 8 * |encoded| + 30 - pos
    {
      if limit < |str| {
        return TooLong, |str|;
      }
      var step := DecodeWord(k, encoded, pos);
      match step {
        case End => return Text(str), |str|;
        case Malformed => return BadCode, |str|;
        case Symbol(s, size) =>
          StepSize(k, bits, pos);
          PrependSnoc(str, s, TextFrom(k, bits, pos + size, |str| + 1, limit));
          str := str + [s];
          pos := pos + size;
      }
    }
    return Text(str), |str|;
  }

  lemma StepSize(k: Code, bits: seq<bit>, pos: nat)
    requires Sized(k) && pos <= |bits| && |bits| >= 8
    ensures StepAt(k, bits, pos).Symbol? ==> StepAt(k, bits, pos).size >= SHORTEST
  {
  }

  function PrependAll(a: seq<byte>, t: Text): (r: Text) {
    match t case Text(bs) => Text(a + bs) case _ => t
  }

  lemma PrependSnoc(a: seq<byte>, s: byte, t: Text)
    ensures PrependAll(a, Prepend(s, t)) == PrependAll(a + [s], t)
  {
    match t {
      case Text(bs) => assert a + ([s] + bs) == a + [s] + bs;
      case _ =>
    }
  }
}
