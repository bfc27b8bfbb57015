/** Packing bit strings into bytes and reading them back, as the Huffman string codec does. */
module BitStream {
  import opened Bits

  function Zeros(n: nat): (r: seq<bit>)
    ensures |r| == n && forall i :: 0 <= i < n ==> r[i] == 0
  {
    seq(n, _ => 0)
  }

  lemma {:induction false} ValZeros(n: nat)
    ensures Val(Zeros(n)) == 0
  {
    if n > 0 {
      ValZeros(n - 1);
      assert Zeros(n)[..n - 1] == Zeros(n - 1);
    }
  }

  lemma ValShift(a: seq<bit>, n: nat)
    ensures Val(a + Zeros(n)) == Val(a) * Pow2(n)
  {
    ValConcat(a, Zeros(n));
    ValZeros(n);
  }

  /** Or-ing a bit string into zeros left for it appends it. */
  lemma OrAppends(a: seq<bit>, b: seq<bit>)
    ensures Or(Val(a + Zeros(|b|)), Val(b)) == Val(a + b)
  {
    ValShift(a, |b|);
    OrDisjoint(Val(a), Val(b), |b|);
    ValConcat(a, b);
  }

  /** The bits of byte i of a bit string. */
  function Chunk(bits: seq<bit>, i: nat): (r: seq<bit>)
    ensures |r| <= 8
  {
    if 8 * i >= |bits| then [] else if 8 * i + 8 > |bits| then bits[8 * i..] else bits[8 * i..8 * i + 8]
  }

  /** At most eight bits laid out from the most significant bit, the rest of the byte zero. */
  function Fill(c: seq<bit>): (b: byte)
    requires |c| <= 8
  {
    Pow2Small();
    Val(c + Zeros(8 - |c|))
  }

  lemma FillIs(c: seq<bit>, z: seq<bit>)
    requires |c| <= 8 && z == Zeros(8 - |c|)
    ensures Fill(c) == Val(c + z)
  {
  }

  /** Byte i of a bit string. */
  function ByteAt(bits: seq<bit>, i: nat): (b: byte)
  {
    Fill(Chunk(bits, i))
  }

  /** A bit string of whole bytes as bytes. */
  function Pack(bits: seq<bit>): (r: seq<byte>)
    ensures |r| == |bits| / 8
  {
    seq(|bits| / 8, i requires 0 <= i < |bits| / 8 => ByteAt(bits, i))
  }

  lemma PackBit(bits: seq<bit>, j: nat)
    requires |bits| % 8 == 0 && j < |bits|
    ensures ToBits(ByteAt(bits, j / 8), 8)[j % 8] == bits[j]
  {
    var i := j / 8;
    var c := bits[8 * i..8 * i + 8];
    hide Val, Fill, Pow2, Zeros, ToBits;
    FillIs(c, Zeros(0));
    assert c + Zeros(0) == c;
    ToBitsVal(c);
  }

  lemma PackRoundTrip(bits: seq<bit>)
    requires |bits| % 8 == 0
    ensures BitsOf(Pack(bits)) == bits
  {
    forall j | 0 <= j < |bits|
      ensures BitsOf(Pack(bits))[j] == bits[j]
    {
      PackBit(bits, j);
    }
  }

  lemma AppendChunk(bits: seq<bit>, more: seq<bit>, i: nat)
    requires |more| <= 8 - |bits| % 8
    ensures Chunk(bits + more, i) == if i == |bits| / 8 then Chunk(bits, i) + more else Chunk(bits, i)
    ensures i == |bits| / 8 ==> |Chunk(bits, i)| == |bits| % 8
  {
  }

  /** Appending bits that stay within the current byte or-s them into that byte and touches no other. */
  lemma AppendByte(bits: seq<bit>, more: seq<bit>, field: nat)
    requires |more| <= 8 - |bits| % 8
    requires field == Val(more + Zeros(8 - |bits| % 8 - |more|))
    ensures ByteAt(bits + more, |bits| / 8) == Or(ByteAt(bits, |bits| / 8), field)
    ensures forall i: nat :: i != |bits| / 8 ==> ByteAt(bits + more, i) == ByteAt(bits, i)
  {
    hide Val, Pow2, Or, Zeros, Chunk, Fill;
    var at := |bits| / 8;
    AppendChunk(bits, more, at);
    AppendWithinByte(Chunk(bits, at), more);
    forall i: nat | i != at
      ensures ByteAt(bits + more, i) == ByteAt(bits, i)
    {
      AppendChunk(bits, more, i);
    }
  }

  lemma AppendWithinByte(c: seq<bit>, more: seq<bit>)
    requires |c| + |more| <= 8
    ensures Fill(c + more) == Or(Fill(c), Val(more + Zeros(8 - |c| - |more|)))
  {
    hide *;
    var free := Zeros(8 - |c| - |more|);
    var tail := more + free;
    FillIs(c, Zeros(|tail|));
    FillIs(c + more, free);
    assert c + tail == (c + more) + free;
    OrAppends(c, tail);
  }

  lemma ByteOfShort(bits: seq<bit>, i: nat)
    requires 8 * i >= |bits|
    ensures ByteAt(bits, i) == 0
  {
    hide Val, Fill, Pow2, Zeros;
    ValZeros(8);
    FillIs([], Zeros(8));
    assert [] + Zeros(8) == Zeros(8);
  }

  /** A code word: the low length bits of code. */
  datatype Word = Word(code: nat, length: nat)

  ghost predicate ValidWord(w: Word) {
    w.length <= 32 && w.code < Pow2(w.length)
  }

  function WordBits(words: seq<Word>): (r: seq<bit>)
  {
    if words == [] then [] else WordBits(words[..|words| - 1]) + ToBits(words[|words| - 1].code, words[|words| - 1].length)
  }

  lemma WordBitsNext(words: seq<Word>, i: nat)
    requires i < |words|
    ensures WordBits(words[..i + 1]) == WordBits(words[..i]) + ToBits(words[i].code, words[i].length)
  {
    assert words[..i + 1][..i] == words[..i];
  }

  /** The number of one bits that fill the last byte. */
  function Padding(n: nat): (p: nat)
    ensures p < 8 && (n + p) % 8 == 0
  {
    (8 - n % 8) % 8
  }

  ghost predicate Holds(buffer: array<byte>, bits: seq<bit>)
    reads buffer
  {
    |bits| <= 8 * buffer.Length && forall i :: 0 <= i < buffer.Length ==> buffer[i] == ByteAt(bits, i)
  }

  /** One step of packing: the leading n bits of the 32-bit register go into the current byte. */
  method PutBits(buffer: array<byte>, reg: nat, n: nat, cur: nat, ghost bits: seq<bit>, ghost pending: seq<bit>)
    requires Holds(buffer, bits) && cur == |bits|
    requires |pending| <= 32 && reg == Val(pending + Zeros(32 - |pending|))
    requires 1 <= n <= |pending| && n <= 8 - cur % 8 && cur + n <= 8 * buffer.Length
    modifies buffer
    ensures Holds(buffer, bits + pending[..n])
  {
    var offset := cur % 8;
    // mask & code, then shifted right by 32 - (8 - offset)
    var masked := reg / Pow2(32 - n) * Pow2(32 - n);
    var field := masked / Pow2(24 + offset);
    RegisterField(pending, n, offset);
    AppendByte(bits, pending[..n], field);
    var at := cur / 8;
    buffer[at] := Or(buffer[at], field);
  }

  /** The masked and shifted register is the field of n bits in its place within the byte. */
  lemma RegisterField(pending: seq<bit>, n: nat, offset: nat)
    requires n <= |pending| <= 32 && offset + n <= 8
    ensures var reg := Val(pending + Zeros(32 - |pending|));
            reg / Pow2(32 - n) * Pow2(32 - n) / Pow2(24 + offset) == Val(pending[..n] + Zeros(8 - offset - n))
  {
    hide Val, Pow2;
    var all := pending + Zeros(32 - |pending|);
    assert all == pending[..n] + all[n..];
    ValSplit(pending[..n], all[n..]);
    var v := Val(pending[..n]);
    var k := 8 - offset - n;
    assert 32 - n == k + (24 + offset);
    Pow2Add(k, 24 + offset);
    ProductQuotient(v, Pow2(k), Pow2(24 + offset));
    ValShift(pending[..n], k);
  }

  lemma ProductQuotient(v: nat, a: nat, b: nat)
    requires b >= 1
    ensures v * (a * b) / b == v * a
  {
    assert v * (a * b) == (v * a) * b;
    DivModUnique(v * (a * b), b, v * a, 0);
  }

  /** Shifting the register left drops its leading bits. */
  lemma RegisterShift(pending: seq<bit>, n: nat)
    requires n <= |pending| <= 32
    ensures var reg := Val(pending + Zeros(32 - |pending|));
            reg * Pow2(n) % Pow2(32) == Val(pending[n..] + Zeros(32 - (|pending| - n)))
  {
    var all := pending + Zeros(32 - |pending|);
    var rest := pending[n..] + Zeros(32 - (|pending| - n));
    assert all + Zeros(n) == pending[..n] + rest;
    ValShift(all, n);
    ValSplit(pending[..n], rest);
  }

  lemma RegisterLoad(w: Word)
    requires ValidWord(w)
    ensures var b := ToBits(w.code, w.length);
            w.code * Pow2(32 - w.length) == Val(b + Zeros(32 - w.length)) < Pow2(32)
  {
    ValToBits(w.code, w.length);
    ValShift(ToBits(w.code, w.length), 32 - w.length);
  }

  /** Sum of the lengths of the words, and so the number of bytes they need. */
  method RequiredBytes(words: seq<Word>) returns (bytes: nat)
    ensures bytes == (|WordBits(words)| + 7) / 8
  {
    var sum := 0;
    for i := 0 to |words|
      invariant sum == |WordBits(words[..i])|
    {
      WordBitsNext(words, i);
      sum := sum + words[i].length;
    }
    assert words[..|words|] == words;
    bytes := if sum % 8 != 0 then sum / 8 + 1 else sum / 8;
  }

  /**
   * hpack_encoder_pack_encoded_words_to_bytes: the code words end to end, the last byte
   * completed with ones; nothing is written when they do not fit.
   */
  method PackWords(words: seq<Word>, buffer: array<byte>) returns (ok: bool)
    requires forall w :: w in words ==> ValidWord(w)
    requires forall i :: 0 <= i < buffer.Length ==> buffer[i] == 0
    modifies buffer
    ensures ok <==> |WordBits(words)| <= 8 * buffer.Length
    ensures ok ==> Holds(buffer, WordBits(words) + Ones(Padding(|WordBits(words)|)))
    ensures !ok ==> buffer[..] == old(buffer[..])
  {
    var required := RequiredBytes(words);
    RoundUp(|WordBits(words)|, buffer.Length);
    if required > buffer.Length {
      return false;
    }
    var cur := 0;
    ghost var bits: seq<bit> := [];
    forall i: nat | i < buffer.Length ensures ByteAt(bits, i) == 0 { ByteOfShort(bits, i); }
    for i := 0 to |words|
      invariant cur == |bits| && bits == WordBits(words[..i])
      invariant Holds(buffer, bits)
    {
      WordBitsNext(words, i);
      WordBitsFit(words, i + 1);
      cur, bits := PackWord(words[i], buffer, cur, bits);
    }
    assert words[..|words|] == words;
    PutPadding(buffer, cur, bits);
    return true;
  }

  lemma RoundUp(n: nat, m: nat)
    ensures (n + 7) / 8 <= m <==> n <= 8 * m
  {
  }

  lemma PaddingFills(n: nat)
    ensures Padding(n) == if n % 8 == 0 then 0 else 8 - n % 8
  {
  }

  method PutPadding(buffer: array<byte>, cur: nat, ghost bits: seq<bit>)
    requires Holds(buffer, bits) && cur == |bits|
    modifies buffer
    ensures Holds(buffer, bits + Ones(Padding(cur)))
  {
    hide Val, Pow2, Or, Ones, ByteAt, Padding;
    PaddingFills(cur);
    if cur % 8 > 0 {
      ghost var ones := Ones(8 - cur % 8);
      var at := cur / 8;
      var padding := Pow2(8 - cur % 8) - 1;
      ValOnes(8 - cur % 8);
      assert ones + Zeros(0) == ones;
      AppendByte(bits, ones, padding);
      buffer[at] := Or(buffer[at], padding);
    } else {
      assert bits + Ones(0) == bits;
    }
  }

  lemma {:induction false} WordBitsFit(words: seq<Word>, i: nat)
    requires i <= |words|
    ensures |WordBits(words[..i])| <= |WordBits(words)|
    decreases |words| - i
  {
    if i == |words| {
      assert words[..i] == words;
    } else {
      WordBitsNext(words, i);
      WordBitsFit(words, i + 1);
    }
  }

  /** The inner loop: one code word, at most a byte's worth of bits at a time. */
  method PackWord(w: Word, buffer: array<byte>, start: nat, ghost before: seq<bit>)
    returns (cur: nat, ghost bits: seq<bit>)
    requires ValidWord(w) && Holds(buffer, before) && start == |before|
    requires start + w.length <= 8 * buffer.Length
    modifies buffer
    ensures cur == |bits| && bits == before + ToBits(w.code, w.length)
    ensures Holds(buffer, bits)
  {
    hide Val, Pow2, Zeros, ToBits, Holds, ByteAt;
    cur, bits := start, before;
    var reg := w.code * Pow2(32 - w.length);
    var left := w.length;
    ghost var pending := ToBits(w.code, w.length);
    RegisterLoad(w);
    while left > 0
      invariant left == |pending| <= 32 && cur == |bits|
      invariant bits + pending == before + ToBits(w.code, w.length)
      invariant cur + left == start + w.length
      invariant reg == Val(pending + Zeros(32 - |pending|))
      invariant Holds(buffer, bits)
    {
      var n := if 8 - cur % 8 > left then left else 8 - cur % 8;
      PutBits(buffer, reg, n, cur, bits, pending);
      RegisterShift(pending, n);
      assert bits + pending == (bits + pending[..n]) + pending[n..];
      bits, pending := bits + pending[..n], pending[n..];
      reg := reg * Pow2(n) % Pow2(32);
      left := left - n;
      cur := cur + n;
    }
    assert bits + [] == bits;
  }

  /** hpack_decoder_read_bits_from_bytes: n bits starting at bit position p. */
  method ReadBits(bs: seq<byte>, p: nat, n: nat) returns (code: nat)
    requires 1 <= n <= 32 && p + n <= 8 * |bs|
    ensures code == Val(BitsOf(bs)[p..p + n])
  {
    hide *;
    var byteOffset := p / 8;
    var bitOffset := p - 8 * byteOffset;
    var numBytes := (n + p - 1) / 8 - p / 8 + 1;
    code := bs[byteOffset] % Pow2(8 - bitOffset);
    var lastOffset := 8 * (numBytes + byteOffset) - (p + n);
    if numBytes == 1 {
      WithinByte(bs, p, n);
      code := code / Pow2(lastOffset);
    } else {
      ByteSuffix(bs, byteOffset, bitOffset);
      code := ReadBytes(bs, p, byteOffset + 1, byteOffset + numBytes - 1, code);
      LastByte(bs, p, n);
      code := code * Pow2(8 - lastOffset) + bs[byteOffset + numBytes - 1] / Pow2(lastOffset);
    }
  }

  /** The whole bytes from lo up to hi, appended to the bits read so far. */
  method ReadBytes(bs: seq<byte>, p: nat, lo: nat, hi: nat, start: nat) returns (code: nat)
    requires p <= 8 * lo && lo <= hi <= |bs|
    requires start == Val(BitsOf(bs)[p..8 * lo])
    ensures code == Val(BitsOf(bs)[p..8 * hi])
  {
    code := start;
    for i := lo to hi
      invariant code == Val(BitsOf(bs)[p..8 * i])
    {
      AppendWholeByte(bs, p, i);
      code := code * 256 + bs[i];
    }
  }

  lemma SameByte(p: nat, n: nat)
    requires 1 <= n && (p + n - 1) / 8 == p / 8
    ensures var i := p / 8; 8 * i <= p < 8 * i + 8 && p + n <= 8 * i + 8
  {
  }

  lemma WithinByte(bs: seq<byte>, p: nat, n: nat)
    requires 1 <= n && p + n <= 8 * |bs| && (p + n - 1) / 8 == p / 8
    ensures var i := p / 8;
            bs[i] % Pow2(8 - (p - 8 * i)) / Pow2(8 * (i + 1) - (p + n)) == Val(BitsOf(bs)[p..p + n])
  {
    hide *;
    SameByte(p, n);
    var i := p / 8;
    var end := 8 * i + 8;
    var bits := BitsOf(bs);
    ByteSuffix(bs, i, p - 8 * i);
    assert bits[p..end] == bits[p..p + n] + bits[p + n..end];
    ValSplit(bits[p..p + n], bits[p + n..end]);
  }

  lemma LastByte(bs: seq<byte>, p: nat, n: nat)
    requires 1 <= n && p + n <= 8 * |bs| && (p + n - 1) / 8 > p / 8
    ensures var last := (p + n - 1) / 8;
            var o := 8 * (last + 1) - (p + n);
            Val(BitsOf(bs)[p..p + n]) == Val(BitsOf(bs)[p..8 * last]) * Pow2(8 - o) + bs[last] / Pow2(o)
  {
    hide *;
    var last := (p + n - 1) / 8;
    var o := 8 * (last + 1) - (p + n);
    var bits := BitsOf(bs);
    BytePrefix(bs, last, 8 - o);
    assert bits[p..p + n] == bits[p..8 * last] + bits[8 * last..p + n];
    ValConcat(bits[p..8 * last], bits[8 * last..p + n]);
  }

  lemma ByteSuffix(bs: seq<byte>, i: nat, o: nat)
    requires i < |bs| && o < 8
    ensures bs[i] % Pow2(8 - o) == Val(BitsOf(bs)[8 * i + o..8 * i + 8])
  {
    hide *;
    var b := BitsOf(bs)[8 * i..8 * i + 8];
    BitsOfByte(bs, i);
    assert b == b[..o] + b[o..];
    ValSplit(b[..o], b[o..]);
    assert b[o..] == BitsOf(bs)[8 * i + o..8 * i + 8];
  }

  lemma BytePrefix(bs: seq<byte>, i: nat, o: nat)
    requires i < |bs| && o <= 8
    ensures bs[i] / Pow2(8 - o) == Val(BitsOf(bs)[8 * i..8 * i + o])
  {
    hide *;
    var b := BitsOf(bs)[8 * i..8 * i + 8];
    BitsOfByte(bs, i);
    assert b == b[..o] + b[o..];
    ValSplit(b[..o], b[o..]);
    assert b[..o] == BitsOf(bs)[8 * i..8 * i + o];
  }

  lemma AppendWholeByte(bs: seq<byte>, p: nat, i: nat)
    requires i < |bs| && p <= 8 * i
    ensures Val(BitsOf(bs)[p..8 * i + 8]) == Val(BitsOf(bs)[p..8 * i]) * 256 + bs[i]
  {
    var bits := BitsOf(bs);
    BitsOfByte(bs, i);
    assert bits[p..8 * i + 8] == bits[p..8 * i] + bits[8 * i..8 * i + 8];
    ValConcat(bits[p..8 * i], bits[8 * i..8 * i + 8]);
    Pow2Small();
  }
}
