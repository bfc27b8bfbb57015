/**
 * Exactly which Huffman-coded strings hold the EOS symbol: no code is all ones, so a run of ones ends
 * within the code after the one it begins in.
 */
module EosRuns {
  import opened Bits
  import opened BitStream
  import opened Huffman
  import opened HuffmanString
  import opened Eos
  import opened HpackString

  /** The number of ones a bit string begins with. */
  function Leading(bits: seq<bit>): (n: nat)
    ensures n <= |bits| && forall j :: 0 <= j < n ==> bits[j] == 1
    ensures n < |bits| ==> bits[n] == 0
  {
    if bits == [] || bits[0] == 0 then 0 else 1 + Leading(bits[1..])
  }

  /** The number of ones it ends with. */
  function Trailing(bits: seq<bit>): (n: nat)
    ensures n <= |bits| && forall j :: |bits| - n <= j < |bits| ==> bits[j] == 1
    ensures n < |bits| ==> bits[|bits| - 1 - n] == 0
  {
    if bits == [] || bits[|bits| - 1] == 0 then 0 else 1 + Trailing(bits[..|bits| - 1])
  }

  lemma LeadingUnique(bits: seq<bit>, n: nat)
    requires n < |bits| && bits[n] == 0 && forall j :: 0 <= j < n ==> bits[j] == 1
    ensures Leading(bits) == n
  {
  }

  lemma TrailingUnique(bits: seq<bit>, n: nat)
    requires n < |bits| && bits[|bits| - 1 - n] == 0 && forall j :: |bits| - n <= j < |bits| ==> bits[j] == 1
    ensures Trailing(bits) == n
  {
  }

  /** Where bits with a zero among them meet others, the run across decides. */
  lemma JoinIff(a: seq<bit>, r: seq<bit>)
    requires |a| <= 30 && Trailing(a) < |a|
    ensures EosFree(a + r) <==> Trailing(a) + Leading(r) < 30 && EosFree(r)
  {
    var bits, t, l := a + r, Trailing(a), Leading(r);
    hide Trailing, Leading;
    if t + l >= 30 {
      assert forall j :: |a| - t <= j < |a| - t + 30 ==> bits[j] == 1;
      assert !BrokenAt(bits, |a| - t);
    } else if EosFree(r) {
      forall o: nat | o + 30 <= |bits| ensures BrokenAt(bits, o) {
        JoinedWindow(a, r, o);
      }
    } else {
      var o: nat :| o + 30 <= |r| && !BrokenAt(r, o);
      assert forall j :: 0 <= j < |r| ==> bits[|a| + j] == r[j];
      assert !BrokenAt(bits, |a| + o);
    }
  }

  lemma JoinedWindow(a: seq<bit>, r: seq<bit>, o: nat)
    requires |a| <= 30 && Trailing(a) < |a| && Trailing(a) + Leading(r) < 30 && EosFree(r)
    requires o + 30 <= |a + r|
    ensures BrokenAt(a + r, o)
  {
    var bits, t, l := a + r, Trailing(a), Leading(r);
    hide Trailing, Leading;
    if o >= |a| {
      assert BrokenAt(r, o - |a|);
      var j :| o - |a| <= j < o - |a| + 30 && j < |r| && r[j] == 0;
      assert bits[|a| + j] == 0;
    } else if o <= |a| - 1 - t {
      assert bits[|a| - 1 - t] == 0;
    } else {
      assert bits[|a| + l] == 0;
    }
  }

  /** No code is all ones: those words are left for EOS. */
  lemma CodeIsNotFull(k: Code, s: byte)
    requires Canonical(k)
    ensures CodeWord(k, s) + 1 < Pow2(CodeLength(k, s))
  {
    hide Pow2, CodeLength, CodeWord, LengthFrom, Low;
    var l, c := CodeLength(k, s), CodeWord(k, s);
    CodeInterval(k, s);
    Pow2Add(l, LONGEST - l);
    if l < LONGEST {
      LowMonotone(k, l + 1, LONGEST);
      TopOfCode(k);
    }
    SmallerFactor(c + 1, Pow2(l), Pow2(LONGEST - l));
  }

  lemma SmallerFactor(a: nat, b: nat, p: nat)
    requires a * p < b * p
    ensures a < b
  {
    if a >= b {
      MulMonotone(b, a, p);
    }
  }

  lemma SymbolHasZero(k: Code, s: byte)
    requires Canonical(k)
    ensures |SymbolBits(k, s)| <= 30
    ensures Trailing(SymbolBits(k, s)) < |SymbolBits(k, s)| && Leading(SymbolBits(k, s)) < |SymbolBits(k, s)|
  {
    hide Canonical, CodeWord, Val, ToBits, Pow2;
    var b := SymbolBits(k, s);
    CodeIsNotFull(k, s);
    SymbolValue(k, s);
    ZeroOrFull(b);
    var j :| 0 <= j < |b| && b[j] == 0;
    LengthAtMost(k, s);
  }

  lemma LengthAtMost(k: Code, s: byte)
    requires Canonical(k)
    ensures CodeLength(k, s) <= 30
  {
  }

  /** The run of ones across the end of each code is shorter than EOS. */
  ghost predicate RunsShort(k: Code, str: seq<byte>, pad: nat)
    requires Canonical(k)
  {
    && (forall i :: 0 <= i < |str| - 1 ==>
          Trailing(SymbolBits(k, str[i])) + Leading(SymbolBits(k, str[i + 1])) < 30)
    && (str != [] ==> Trailing(SymbolBits(k, str[|str| - 1])) + pad < 30)
  }

  lemma LeadingOfText(k: Code, str: seq<byte>, pad: nat)
    requires Canonical(k)
    ensures Leading(StringBits(k, str) + Ones(pad)) == if str == [] then pad else Leading(SymbolBits(k, str[0]))
  {
    hide Canonical, SymbolBits;
    var bits := StringBits(k, str) + Ones(pad);
    if str != [] {
      SymbolHasZero(k, str[0]);
      LeadingUnique(bits, Leading(SymbolBits(k, str[0])));
    } else {
      assert bits == Ones(pad);
    }
  }

  lemma RunsShortCons(k: Code, str: seq<byte>, pad: nat)
    requires Canonical(k) && |str| > 1
    ensures RunsShort(k, str, pad) <==>
            Trailing(SymbolBits(k, str[0])) + Leading(SymbolBits(k, str[1])) < 30 && RunsShort(k, str[1..], pad)
  {
    hide Canonical, SymbolBits, Trailing, Leading;
    var rest := str[1..];
    assert forall i :: 0 <= i < |rest| ==> rest[i] == str[i + 1];
    if RunsShort(k, rest, pad) && Trailing(SymbolBits(k, str[0])) + Leading(SymbolBits(k, str[1])) < 30 {
      forall i | 0 <= i < |str| - 1 ensures Trailing(SymbolBits(k, str[i])) + Leading(SymbolBits(k, str[i + 1])) < 30 {
        if i > 0 {
          assert rest[i - 1] == str[i] && rest[i] == str[i + 1];
        }
      }
    }
  }

  /** Codes end to end and padding are free of EOS if and only if no run across the end of a code reaches thirty. */
  lemma {:induction false} CodedIsEosFreeIff(k: Code, str: seq<byte>, pad: nat)
    requires Canonical(k) && pad < 30
    ensures EosFree(StringBits(k, str) + Ones(pad)) <==> RunsShort(k, str, pad)
    decreases |str|
  {
    hide Canonical, SymbolBits, EosFree, Trailing, Leading;
    if str == [] {
      TooShortForEos(StringBits(k, str) + Ones(pad));
    } else {
      var a, r := SymbolBits(k, str[0]), StringBits(k, str[1..]) + Ones(pad);
      assert StringBits(k, str) + Ones(pad) == a + r;
      SymbolHasZero(k, str[0]);
      JoinIff(a, r);
      LeadingOfText(k, str[1..], pad);
      CodedIsEosFreeIff(k, str[1..], pad);
      if |str| > 1 {
        RunsShortCons(k, str, pad);
      }
    }
  }

  lemma TooShortForEos(bits: seq<bit>)
    requires |bits| < 30
    ensures EosFree(bits)
  {
  }

  /** The exact condition for the bytes of a Huffman-coded string. */
  lemma HuffmanBytesEosFreeIff(k: Code, str: seq<byte>)
    requires Canonical(k)
    ensures EosFree(BitsOf(HuffmanBytes(k, str))) <==> RunsShort(k, str, BitStream.Padding(|StringBits(k, str)|))
  {
    hide Canonical, EosFree, StringBits, RunsShort;
    var pad := BitStream.Padding(|StringBits(k, str)|);
    CodedIsEosFreeIff(k, str, pad);
    PackRoundTrip(StringBits(k, str) + Ones(pad));
  }

  /** The ones that follow the first code: of the next code, or the padding. */
  ghost function Following(k: Code, str: seq<byte>, pad: nat): (n: nat)
    requires Canonical(k) && str != []
  {
    if |str| > 1 then Leading(SymbolBits(k, str[1])) else pad
  }

  /** The same up to some bit: every run across the end of a code, as far as it gets, is shorter than EOS. */
  ghost predicate RunsShortUpTo(k: Code, str: seq<byte>, pad: nat, cut: nat)
    requires Canonical(k)
    decreases |str|
  {
    str != [] && cut >= CodeLength(k, str[0]) ==>
      var left := cut - CodeLength(k, str[0]);
      Trailing(SymbolBits(k, str[0])) + Min(Following(k, str, pad), left) < 30 && RunsShortUpTo(k, str[1..], pad, left)
  }

  lemma {:induction false} LeadingOfPrefix(bits: seq<bit>, n: nat)
    requires n <= |bits|
    ensures Leading(bits[..n]) == Min(Leading(bits), n)
  {
    if n > 0 && bits[0] == 1 {
      LeadingOfPrefix(bits[1..], n - 1);
      assert bits[..n][1..] == bits[1..][..n - 1];
    }
  }

  lemma {:induction false} CutIsEosFreeIff(k: Code, str: seq<byte>, pad: nat, cut: nat)
    requires Canonical(k) && pad < 30 && cut <= |StringBits(k, str)| + pad
    ensures EosFree((StringBits(k, str) + Ones(pad))[..cut]) <==> RunsShortUpTo(k, str, pad, cut)
    decreases |str|
  {
    hide Canonical, SymbolBits, EosFree, Trailing, Leading, CodeLength;
    var bits := StringBits(k, str) + Ones(pad);
    if str == [] {
      TooShortForEos(bits[..cut]);
    } else {
      var a, r := SymbolBits(k, str[0]), StringBits(k, str[1..]) + Ones(pad);
      assert bits == a + r;
      SymbolHasZero(k, str[0]);
      if cut < |a| {
        TooShortForEos(bits[..cut]);
      } else {
        assert bits[..cut] == a + r[..cut - |a|];
        JoinIff(a, r[..cut - |a|]);
        LeadingOfPrefix(r, cut - |a|);
        LeadingOfText(k, str[1..], pad);
        CutIsEosFreeIff(k, str[1..], pad, cut - |a|);
      }
    }
  }

  /** Every code that ends before the cut. */
  lemma {:induction false} RunsShortAt(k: Code, str: seq<byte>, pad: nat, cut: nat, i: nat)
    requires Canonical(k) && RunsShortUpTo(k, str, pad, cut) && i < |str| && |StringBits(k, str[..i + 1])| <= cut
    ensures Trailing(SymbolBits(k, str[i])) + Min(Following(k, str[i..], pad), cut - |StringBits(k, str[..i + 1])|) < 30
    decreases |str|
  {
    hide Canonical, SymbolBits, Trailing, Leading, CodeLength, Following;
    assert str[..i + 1][0] == str[0] && str[..i + 1][1..] == str[1..][..i];
    if i > 0 {
      assert str[1..][i - 1..] == str[i..];
      RunsShortAt(k, str[1..], pad, cut - CodeLength(k, str[0]), i - 1);
    } else {
      assert str[0..] == str && StringBits(k, str[..1]) == SymbolBits(k, str[0]) + [];
    }
  }

  /**
   * And for what the encoder emits, where it chooses the Huffman form, as hpack_decoder_check_errors sees it: the check
   * gets the length in eight bits, so of a longer string it scans that much.
   */
  lemma EmittedPassesEosCheckIff(k: Code, str: seq<byte>)
    requires Canonical(k) && UsesHuffman(k, str)
    ensures var pad, n := BitStream.Padding(|StringBits(k, str)|), |HuffmanBytes(k, str)|;
            && (PassesEosCheck(Payload(k, str).bytes) <==> RunsShortUpTo(k, str, pad, 8 * (n % 256)))
            && (n < 256 ==> (PassesEosCheck(Payload(k, str).bytes) <==> RunsShort(k, str, pad)))
  {
    hide Canonical, BitsOf, EosFree, RunsShort, RunsShortUpTo, UsesHuffman, StringBits;
    var b, pad := Payload(k, str).bytes, BitStream.Padding(|StringBits(k, str)|);
    var cut := |b| % 256;
    var bits := StringBits(k, str) + Ones(pad);
    assert BitsOf(b) == bits by { PackRoundTrip(bits); }
    hide HuffmanBytes;
    BitCount(b);
    BitsOfSlice(b, 0, cut);
    assert bits[0..8 * cut] == bits[..8 * cut] && b[0..cut] == b[..cut];
    CutIsEosFreeIff(k, str, pad, 8 * cut);
    CodedIsEosFreeIff(k, str, pad);
    assert |b| < 256 ==> bits[..8 * cut] == bits;
    if |b| < 4 {
      TooShortForEos(bits);
    }
  }

  lemma BitCount(b: seq<byte>)
    ensures |BitsOf(b)| == 8 * |b|
  {
  }
}
