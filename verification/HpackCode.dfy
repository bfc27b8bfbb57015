/** What the tables of src/hpack/huffman.c satisfy, so that the theory of canonical codes applies to them. */
module HpackCode {
  import opened Bits
  import opened BitStream
  import opened Huffman
  import opened HuffmanString
  import opened HuffmanExact
  import opened HuffmanTables
  import opened Eos
  import opened EosRuns
  import opened HpackString
  import PrefixInt

  lemma HpackIsSized()
    ensures Sized(HPACK_CODE)
  {
    hide Leaf, LeafOf;
    TableEnds();
  }

  /** The tables form a canonical prefix code that leaves only EOS unused. */
  lemma HpackIsCanonical()
    ensures Canonical(HPACK_CODE)
  {
    hide Leaf, LeafOf;
    HpackIsSized();
    TableEnds();
    Pow2OfThirty();
    forall l | SHORTEST <= l < LONGEST
      ensures CanonicalAt(HPACK_CODE, l)
    {
      CanonicalStep(l);
    }
    forall x | 0 <= x < 256
      ensures HPACK_CODE.leaves[HPACK_CODE.leafOf[x]] == x && HPACK_CODE.leafOf[HPACK_CODE.leaves[x]] == x
    {
      Inverses(x);
    }
  }

  lemma HpackRunsAreShort()
    ensures Sized(HPACK_CODE) && ShortRuns(HPACK_CODE)
  {
    hide Leaf, LeafOf;
    HpackIsSized();
    TableEnds();
    Pow2OfThirty();
    forall l | 6 <= l <= 27
      ensures FIRST_CODE[l] % 64 + FIRST_LEAF[l + 1] <= 63 + FIRST_LEAF[l]
    {
      ShortRunAt(l);
    }
  }

  predicate Printable(s: byte) {
    32 <= s <= 126
  }

  lemma PrintableLeaf(s: byte)
    requires Printable(s)
    ensures LeafOf(s) < 224
  {
  }

  /** Printable ASCII symbols have codes of at most 27 bits. */
  lemma PrintableIsShort(str: seq<byte>)
    requires forall i :: 0 <= i < |str| ==> Printable(str[i])
    ensures Sized(HPACK_CODE) && Short(HPACK_CODE, str)
  {
    hide Leaf, LeafOf;
    HpackIsCanonical();
    forall i | 0 <= i < |str|
      ensures CodeLength(HPACK_CODE, str[i]) <= 27
    {
      PrintableLeaf(str[i]);
      EarlyLeafIsShort(HPACK_CODE, str[i], 28);
    }
  }

  /** A leaf before the first of length l has a shorter code. */
  lemma EarlyLeafIsShort(k: Code, s: byte, l: nat)
    requires Canonical(k) && SHORTEST < l <= LONGEST && k.leafOf[s] < k.firstLeaf[l]
    ensures CodeLength(k, s) < l
  {
    hide LengthFrom;
    LeafRange(k, k.leafOf[s], SHORTEST);
    if CodeLength(k, s) >= l {
      FirstLeafMonotone(k, l, CodeLength(k, s));
    }
  }

  /** Huffman-coded or plain, what the encoder emits for printable text passes the EOS scan. */
  lemma PrintablePassesEosScan(str: seq<byte>)
    requires forall i :: 0 <= i < |str| ==> Printable(str[i])
    ensures Canonical(HPACK_CODE) && EosFree(BitsOf(HuffmanBytes(HPACK_CODE, str)))
    ensures EosFree(BitsOf(str))
  {
    hide *;
    HpackIsCanonical();
    HpackRunsAreShort();
    CodedPassesEosScan(HPACK_CODE, str) by { PrintableIsShort(str); }
    PlainTextIsEosFree(str) by { PrintableIsPlain(str); }
  }

  lemma PrintableIsPlain(str: seq<byte>)
    requires forall i :: 0 <= i < |str| ==> Printable(str[i])
    ensures forall i :: 0 <= i < |str| ==> str[i] < 128
  {
  }

  lemma ZeroNineAndNewline()
    ensures LeafOf(48) == 0 && LeafOf(57) == 21 && LeafOf(10) == 253
    ensures FIRST_LEAF[6] == 10 && FIRST_LEAF[7] == 36 && FIRST_CODE[6] == 20
  {
  }

  /** The digit 9 is coded as 011111, and the line feed with 28 ones and two zeros. */
  lemma NineAndNewlineBits()
    ensures Canonical(HPACK_CODE)
    ensures SymbolBits(HPACK_CODE, 57) == [0] + Ones(5) && SymbolBits(HPACK_CODE, 10) == Ones(28) + [0, 0]
  {
    hide Leaf, LeafOf, Val, ToBits;
    HpackIsCanonical();
    ZeroNineAndNewline();
    TableEnds();
    LengthOfLeaf(HPACK_CODE, 21, SHORTEST, 6);
    LengthOfLeaf(HPACK_CODE, 253, SHORTEST, 30);
    TrailingOnes();
    LeadingOnes();
  }

  /**
   * A digit 9 before a line feed makes a run of 33 ones: no Huffman-coded string with the two in it passes, unless the
   * part that is scanned ends before the thirtieth.
   */
  lemma NineNewlineFails(str: seq<byte>, i: nat)
    requires i + 1 < |str| && str[i] == 57 && str[i + 1] == 10
    requires Canonical(HPACK_CODE) && UsesHuffman(HPACK_CODE, str)
    requires |StringBits(HPACK_CODE, str[..i + 1])| + 25 <= 8 * (|HuffmanBytes(HPACK_CODE, str)| % 256)
    ensures !PassesEosCheck(Payload(HPACK_CODE, str).bytes)
  {
    hide Canonical, SymbolBits, StringBits, PassesEosCheck, Payload, UsesHuffman, RunsShortUpTo, HuffmanBytes;
    NineAndNewlineBits();
    TrailingUnique([0] + Ones(5), 5);
    LeadingUnique(Ones(28) + [0, 0], 28);
    EmittedPassesEosCheckIff(HPACK_CODE, str);
    var pad, cut := BitStream.Padding(|StringBits(HPACK_CODE, str)|), 8 * (|HuffmanBytes(HPACK_CODE, str)| % 256);
    assert str[i..][1] == str[i + 1];
    if RunsShortUpTo(HPACK_CODE, str, pad, cut) {
      RunsShortAt(HPACK_CODE, str, pad, cut, i);
      assert false;
    }
  }

  /** In a coded string shorter than 256 octets all of the two codes is scanned. */
  lemma ScannedWhole(str: seq<byte>, i: nat)
    requires i + 1 < |str| && str[i + 1] == 10 && Canonical(HPACK_CODE) && |HuffmanBytes(HPACK_CODE, str)| < 256
    ensures |StringBits(HPACK_CODE, str[..i + 1])| + 25 <= 8 * (|HuffmanBytes(HPACK_CODE, str)| % 256)
  {
    hide Canonical, SymbolBits, StringBits;
    NineAndNewlineBits();
    StringBitsSnoc(HPACK_CODE, str[..i + 1], str[i + 1]);
    assert str[..i + 2] == str[..i + 1] + [str[i + 1]];
    StringBitsGrow(HPACK_CODE, str, i + 2);
  }

  lemma {:induction false} StringBitsGrow(k: Code, str: seq<byte>, n: nat)
    requires Canonical(k) && n <= |str|
    ensures |StringBits(k, str[..n])| <= |StringBits(k, str)|
  {
    hide Canonical, SymbolBits;
    if n > 0 {
      assert str[..n][0] == str[0] && str[..n][1..] == str[1..][..n - 1];
      StringBitsGrow(k, str[1..], n - 1);
    }
  }

  lemma {:induction false} DigitsLength(n: nat)
    requires Canonical(HPACK_CODE) && CodeLength(HPACK_CODE, 48) == 5
    ensures |StringBits(HPACK_CODE, seq(n, _ => 48))| == 5 * n
  {
    hide Canonical, SymbolBits;
    if n > 0 {
      var s := seq(n, _ => 48);
      assert s[0] == 48 && s[1..] == seq(n - 1, _ => 48);
      DigitsLength(n - 1);
    }
  }

  /** Twelve zeros, a nine and a line feed. */
  function LongRun(): (s: seq<byte>)
    ensures |s| == 14 && s[12] == 57 && s[13] == 10
  {
    seq(12, _ => 48) + [57] + [10]
  }

  lemma LongRunLength()
    ensures Canonical(HPACK_CODE) && |StringBits(HPACK_CODE, LongRun())| == 96
  {
    hide Leaf, LeafOf, Val, ToBits, StringBits;
    HpackIsCanonical();
    ZeroNineAndNewline();
    TableEnds();
    LengthOfLeaf(HPACK_CODE, 0, SHORTEST, 5);
    LengthOfLeaf(HPACK_CODE, 21, SHORTEST, 6);
    LengthOfLeaf(HPACK_CODE, 253, SHORTEST, 30);
    DigitsLength(12);
    StringBitsSnoc(HPACK_CODE, seq(12, _ => 48), 57);
    StringBitsSnoc(HPACK_CODE, seq(12, _ => 48) + [57], 10);
  }

  /** Beyond printable text the scan rejects strings the encoder emits: this one takes 13 octets for 14 characters. */
  lemma NewlineFailsEosScan()
    ensures Canonical(HPACK_CODE) && UsesHuffman(HPACK_CODE, LongRun())
    ensures !PassesEosCheck(Payload(HPACK_CODE, LongRun()).bytes)
  {
    LongRunLength();
    hide Canonical, StringBits, HuffmanBytes, PassesEosCheck, Payload, LongRun;
    assert |PrefixInt.Encode(12, 7)| == 1;
    ScannedWhole(LongRun(), 12);
    NineNewlineFails(LongRun(), 12);
  }

  lemma TrailingOnes()
    ensures ToBits(31, 6) == [0] + Ones(5)
  {
    var w: seq<bit> := [0] + Ones(5);
    ValConcat([0], Ones(5));
    ValOnes(5);
    Pow2Small();
    ToBitsVal(w);
  }

  lemma LeadingOnes()
    ensures ToBits(0x3fff_fffc, 30) == Ones(28) + [0, 0]
  {
    hide Val, Pow2, ToBits;
    var w: seq<bit> := Ones(28) + Zeros(2);
    ValShift(Ones(28), 2);
    ValOnes(28);
    Pow2OfThirty();
    Pow2Add(28, 2);
    Pow2Small();
    ToBitsVal(w);
    assert Zeros(2) == [0, 0];
  }

  lemma ParenthesisBits()
    ensures Canonical(HPACK_CODE) && SymbolBits(HPACK_CODE, 41) == Ones(7) + [0, 1, 1]
  {
    hide Leaf, LeafOf, Val, ToBits;
    HpackIsCanonical();
    ParenthesisLeaf();
    LengthOfLeaf(HPACK_CODE, 77, SHORTEST, 10);
    ParenthesisWord();
  }

  lemma ParenthesisLeaf()
    ensures LeafOf(41) == 77 && FIRST_LEAF[10] == 74 && FIRST_LEAF[11] == 79 && FIRST_CODE[10] == 1016
  {
  }

  lemma ParenthesisWord()
    ensures ToBits(1019, 10) == Ones(7) + [0, 1, 1] && ToBits(254, 8) == Ones(7) + [0]
  {
    ValConcat(Ones(7), [0, 1, 1]);
    ValConcat(Ones(7), [0]);
    ValOnes(7);
    Pow2Small();
    ToBitsVal(Ones(7) + [0, 1, 1]);
    ToBitsVal(Ones(7) + [0]);
    assert Val([0, 1, 1]) == 3 && Val([0]) == 0;
  }

  lemma ParenthesisOctet()
    ensures Ones(7) + [0, 1, 1] == BitsOf([0xFE]) + Ones(2)
  {
    ParenthesisWord();
    BitsOfOne(0xFE);
    hide ToBits, BitsOf;
    assert Ones(2) == [1, 1];
  }

  /** The octet FE is taken for a closing parenthesis, whose code has ten bits and whose coding has two octets. */
  lemma OneOctetDecodes()
    ensures Canonical(HPACK_CODE) && |HuffmanBytes(HPACK_CODE, [41])| == 2
    ensures TextFrom(HPACK_CODE, BitsOf([0xFE]), 0, 0, 5) == Text([41])
  {
    ParenthesisBits();
    ParenthesisOctet();
    var s: seq<byte> := [41];
    assert s[1..] == [] && s[..0] == [];
    assert StringBits(HPACK_CODE, s) == SymbolBits(HPACK_CODE, 41) + [] == Ones(7) + [0, 1, 1];
    assert StringBits(HPACK_CODE, s[..0]) == [];
    hide Canonical, SymbolBits, BitsOf, ToBits, Val, Ends, Ones, StringBits;
    assert CutShort(HPACK_CODE, BitsOf([0xFE]), s);
    DecodesIff(HPACK_CODE, [0xFE], s, 5);
  }
}
