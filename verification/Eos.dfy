/** The decoder's scan for the EOS symbol, thirty one bits at any bit offset (src/hpack/decoder.c). */
module Eos {
  import opened Bits
  import opened BitStream
  import opened Huffman
  import opened HuffmanString

  ghost predicate ZeroIn(bits: seq<bit>, lo: nat, hi: nat) {
    exists j :: lo <= j < hi && j < |bits| && bits[j] == 0
  }

  /** The thirty bits from o on are not the EOS symbol. */
  ghost predicate BrokenAt(bits: seq<bit>, o: nat) {
    ZeroIn(bits, o, o + 30)
  }

  /** No thirty consecutive bits are all ones. */
  ghost predicate EosFree(bits: seq<bit>) {
    forall o: nat :: o + 30 <= |bits| ==> BrokenAt(bits, o)
  }

  /** Bits with no zero among them have the largest value of their length, and no others do. */
  lemma {:induction false} ZeroOrFull(w: seq<bit>)
    ensures ZeroIn(w, 0, |w|) <==> Val(w) < Pow2(|w|) - 1
  {
    if w == [] {
    } else {
      var w', x := w[..|w| - 1], w[|w| - 1];
      ZeroOrFull(w');
      if ZeroIn(w, 0, |w|) && x == 1 {
        var j :| 0 <= j < |w| && w[j] == 0;
        assert w'[j] == 0;
      } else if ZeroIn(w', 0, |w'|) {
        var j :| 0 <= j < |w'| && w'[j] == 0;
        assert w[j] == 0;
      }
    }
  }

  lemma ZeroOfSlice(bits: seq<bit>, lo: nat, hi: nat)
    requires lo <= hi <= |bits|
    ensures ZeroIn(bits, lo, hi) <==> ZeroIn(bits[lo..hi], 0, hi - lo)
  {
    if ZeroIn(bits, lo, hi) {
      var j :| lo <= j < hi && bits[j] == 0;
      assert bits[lo..hi][j - lo] == 0;
    }
  }

  lemma Pow2OfThirty()
    ensures Pow2(6) == 64 && Pow2(24) == 0x100_0000 && Pow2(30) == 0x4000_0000
  {
    Pow2Small();
    Pow2Add(8, 8);
    Pow2Add(16, 8);
    Pow2Add(24, 6);
  }

  /** hpack_check_eos_symbol over the first length bytes. */
  method CheckEosSymbol(encoded: seq<byte>, length: nat) returns (ok: bool)
    requires length <= |encoded|
    ensures ok <==> EosFree(BitsOf(encoded[..length]))
  {
    hide BitsOf, Val, ZeroIn;
    ghost var bits := BitsOf(encoded[..length]);
    var pos := 0;
    while pos + 30 <= 8 * length
      invariant forall o: nat :: o < pos ==> BrokenAt(bits, o)
    {
      var word := ReadBits(encoded[..length], pos, 30);
      ZeroOfSlice(bits, pos, pos + 30);
      ZeroOrFull(bits[pos..pos + 30]);
      Pow2OfThirty();
      assert BrokenAt(bits, pos) <==> word != 0x3fff_ffff;
      if word == 0x3fff_ffff {
        return false;
      }
      pos := pos + 1;
    }
    return true;
  }

  /**
   * What keeps runs of ones short in the tables: no code of 6 to 27 bits ends in six ones, and
   * the codes of at most 27 bits lie below the words that begin with 24 ones.
   */
  ghost predicate ShortRuns(k: Code)
    requires Sized(k)
  {
    && k.firstCode[28] * 4 + 64 <= Pow2(30)
    && forall l :: 6 <= l <= 27 ==> k.firstCode[l] % 64 + k.firstLeaf[l + 1] <= 63 + k.firstLeaf[l]
  }

  lemma EndsWithoutRun(k: Code, s: byte)
    requires Canonical(k) && ShortRuns(k) && 6 <= CodeLength(k, s) <= 27
    ensures CodeWord(k, s) % 64 != 63
  {
    LeafRange(k, k.leafOf[s], SHORTEST);
    var l := CodeLength(k, s);
    hide Canonical, CodeLength, LengthFrom;
    NoCarry(k.firstCode[l], k.leafOf[s] - k.firstLeaf[l]);
  }

  lemma NoCarry(a: nat, d: nat)
    requires a % 64 + d < 63
    ensures (a + d) % 64 != 63
  {
  }

  /** Among the last six bits of a code there is a zero. */
  lemma TailOfCode(k: Code, s: byte)
    requires Canonical(k) && ShortRuns(k) && 6 <= CodeLength(k, s) <= 27
    ensures ZeroIn(SymbolBits(k, s), CodeLength(k, s) - 6, CodeLength(k, s))
  {
    hide Val, ToBits, CodeWord, CodeLength, Canonical, SymbolBits, ZeroIn;
    var b := SymbolBits(k, s);
    var n := |b| - 6;
    assert b == b[..n] + b[n..];
    ValSplit(b[..n], b[n..]);
    SymbolValue(k, s);
    EndsWithoutRun(k, s);
    Pow2OfThirty();
    ZeroOrFull(b[n..]);
    ZeroOfSlice(b, n, |b|);
    assert b[n..|b|] == b[n..];
  }

  ghost predicate Short(k: Code, str: seq<byte>)
    requires Sized(k)
  {
    forall i :: 0 <= i < |str| ==> CodeLength(k, str[i]) <= 27
  }

  /** The first 24 bits of a code of at most 27 bits and whatever follows it hold a zero. */
  lemma BeginsWithoutRun(k: Code, s: byte, bits: seq<bit>)
    requires Canonical(k) && ShortRuns(k) && CodeLength(k, s) <= 27
    requires SymbolBits(k, s) <= bits && |bits| >= 24
    ensures ZeroIn(bits, 0, 24)
  {
    hide *;
    var w := Window(bits, 0);
    WindowOf(bits);
    WindowBelow(k, s, bits);
    var a, b := w[..24], w[24..];
    assert w == a + b;
    ValSplit(a, b);
    Pow2OfThirty();
    ZeroOrFull(a);
    assert bits[0..24] == a;
    ZeroOfSlice(bits, 0, 24);
  }

  lemma WindowOf(bits: seq<bit>)
    requires |bits| >= 24
    ensures Window(bits, 0)[..24] == bits[..24]
  {
  }

  lemma WindowBelow(k: Code, s: byte, bits: seq<bit>)
    requires Canonical(k) && ShortRuns(k) && CodeLength(k, s) <= 27
    requires SymbolBits(k, s) <= bits && |bits| >= 24
    ensures Val(Window(bits, 0)) < 0x4000_0000 - 64
  {
    hide Val, ToBits, CodeWord, CodeLength, LengthFrom, Canonical, SymbolBits, Low, Pow2;
    var l := CodeLength(k, s);
    var w := Window(bits, 0);
    assert w[..l] == SymbolBits(k, s);
    assert w == w[..l] + w[l..];
    ValSplit(w[..l], w[l..]);
    SymbolValue(k, s);
    BeginsIs(k, s, Val(w));
    BeginsInterval(k, s, Val(w));
    LowMonotone(k, l + 1, 28);
    LowOf28(k);
  }

  lemma LowOf28(k: Code)
    requires Canonical(k) && ShortRuns(k)
    ensures Low(k, 28) <= 0x4000_0000 - 64
  {
    assert Pow2(2) == 4;
    Pow2OfThirty();
  }

  /** Thirty bits that start within the first code hold a zero. */
  lemma ZeroNearFront(k: Code, s: byte, rest: seq<byte>, pad: nat, o: nat)
    requires Canonical(k) && ShortRuns(k) && pad < 8
    requires CodeLength(k, s) <= 27 && Short(k, rest)
    requires o < CodeLength(k, s)
    requires o + 30 <= |SymbolBits(k, s) + (StringBits(k, rest) + Ones(pad))|
    ensures ZeroIn(SymbolBits(k, s) + (StringBits(k, rest) + Ones(pad)), o, o + 30)
  {
    hide Canonical, ShortRuns, CodeLength, SymbolBits;
    var head := SymbolBits(k, s);
    var tail := StringBits(k, rest) + Ones(pad);
    var bits := head + tail;
    var l := |head|;
    if o == 0 {
      BeginsWithoutRun(k, s, bits);
    } else if l - o >= 6 {
      TailOfCode(k, s);
      var j :| l - 6 <= j < l && head[j] == 0;
      assert bits[j] == 0;
    } else if rest != [] {
      assert SymbolBits(k, rest[0]) <= tail;
      BeginsWithoutRun(k, rest[0], tail);
      var j :| 0 <= j < 24 && j < |tail| && tail[j] == 0;
      assert bits[l + j] == 0;
    }
  }

  /** What the encoder packs from codes of at most 27 bits never holds thirty ones in a row. */
  lemma {:induction false} CodedTextIsEosFree(k: Code, str: seq<byte>, pad: nat)
    requires Canonical(k) && ShortRuns(k) && Short(k, str) && pad < 8
    ensures EosFree(StringBits(k, str) + Ones(pad))
    decreases |str|
  {
    hide Canonical, ShortRuns, SymbolBits, CodeLength;
    var bits := StringBits(k, str) + Ones(pad);
    if str != [] {
      var tail := StringBits(k, str[1..]) + Ones(pad);
      CodedTextIsEosFree(k, str[1..], pad);
      assert bits == SymbolBits(k, str[0]) + tail;
      forall o: nat | o + 30 <= |bits|
        ensures BrokenAt(bits, o)
      {
        var l := CodeLength(k, str[0]);
        if o < l {
          ZeroNearFront(k, str[0], str[1..], pad, o);
        } else {
          assert BrokenAt(tail, o - l);
          var j :| o - l <= j < o - l + 30 && j < |tail| && tail[j] == 0;
          assert bits[l + j] == 0;
        }
      }
    }
  }

  /** Bytes below 128 never hold thirty ones in a row: every eighth bit is zero. */
  lemma PlainTextIsEosFree(str: seq<byte>)
    requires forall i :: 0 <= i < |str| ==> str[i] < 128
    ensures EosFree(BitsOf(str))
  {
    forall o: nat | o + 30 <= 8 * |str|
      ensures BrokenAt(BitsOf(str), o)
    {
      var i := (o + 7) / 8;
      TopBit(str[i]);
      assert BitsOf(str)[8 * i] == 0;
    }
  }

  lemma TopBit(b: byte)
    requires b < 128
    ensures ToBits(b, 8)[0] == 0
  {
    var r := ToBits(b, 8);
    assert r == r[..1] + r[1..];
    ValSplit(r[..1], r[1..]);
    Pow2Small();
    ValToBits(b, 8);
    assert Val(r[..1]) == 2 * Val([]) + r[0];
  }

  /** The same for the bytes of a Huffman-coded string. */
  lemma CodedPassesEosScan(k: Code, str: seq<byte>)
    requires Canonical(k) && ShortRuns(k) && Short(k, str)
    ensures EosFree(BitsOf(HuffmanBytes(k, str)))
  {
    hide Canonical, ShortRuns, Short, EosFree, StringBits;
    var pad := BitStream.Padding(|StringBits(k, str)|);
    CodedTextIsEosFree(k, str, pad);
    PackRoundTrip(StringBits(k, str) + Ones(pad));
  }
}
