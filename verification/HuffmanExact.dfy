/** Exactly which bit strings src/hpack/decoder.c takes for the coding of which text. */
module HuffmanExact {
  import opened Bits
  import opened Huffman
  import opened HuffmanString

  /**
   * Where decoding ends: before fewer than eight ones. The count of bits left is kept in eight bits, so it also ends
   * 256 bits or more from the end, before thirty ones, when what is left of the count is less than eight and that many
   * bits at the very end are ones.
   */
  ghost predicate Ends(rest: seq<bit>) {
    var n := |rest| % 256;
    n < 8 && rest[|rest| - n..] == Ones(n) && (|rest| >= 256 ==> rest[..30] == Ones(30))
  }

  /** The last code is longer than what is left of the bits, at least five, and ones complete it. */
  ghost predicate CutShort(k: Code, rest: seq<bit>, s: seq<byte>)
    requires Canonical(k)
  {
    s != [] &&
    var all := StringBits(k, s);
    |StringBits(k, s[..|s| - 1])| + 5 <= |rest| < |all| && all == rest + Ones(|all| - |rest|)
  }

  /** Whole codes up to an end, with i symbols before them; the limit is looked at before each symbol and at the end. */
  ghost predicate Decodes(k: Code, rest: seq<bit>, s: seq<byte>, i: nat, limit: nat)
    requires Canonical(k)
  {
    || (StringBits(k, s) <= rest && Ends(rest[|StringBits(k, s)|..]) && i + |s| <= limit)
    || (CutShort(k, rest, s) && i + |s| <= limit + 1)
  }

  lemma WindowIsOnesIff(bits: seq<bit>, pos: nat)
    requires pos <= |bits|
    ensures Val(Window(bits, pos)) == Pow2(30) - 1 <==>
            if |bits| - pos < 30 then bits[pos..] == Ones(|bits| - pos) else bits[pos..pos + 30] == Ones(30)
  {
    var w, left := Window(bits, pos), |bits| - pos;
    if left < 30 {
      assert w[..left] == bits[pos..] && Ones(30)[..left] == Ones(left) && Ones(left) + Ones(30 - left) == Ones(30);
    }
    hide Val, Pow2;
    ValOnes(30);
    if Val(w) == Pow2(30) - 1 {
      ValInjective(w, Ones(30));
    }
  }

  lemma EndStepIff(k: Code, bits: seq<bit>, pos: nat)
    requires Canonical(k) && pos <= |bits| && |bits| >= 8
    ensures StepAt(k, bits, pos) == End <==> Ends(bits[pos..])
  {
    hide Val, LookupWord, Pow2, Canonical, Window;
    var rest := bits[pos..];
    var n := |rest| % 256;
    assert n <= |rest| && rest[|rest| - n..] == bits[|bits| - n..];
    if |rest| >= 5 {
      LookupExact(k, Val(Window(bits, pos)));
      WindowIsOnesIff(bits, pos);
      assert |rest| >= 30 ==> bits[pos..pos + 30] == rest[..30];
    }
  }

  /** A symbol is found if and only if its code begins the window, with at least five bits left. */
  lemma SymbolStepIff(k: Code, bits: seq<bit>, pos: nat, s: byte)
    requires Canonical(k) && pos <= |bits| && |bits| >= 8
    ensures StepAt(k, bits, pos) == Symbol(s, CodeLength(k, s)) <==>
            |bits| - pos >= 5 && SymbolBits(k, s) <= Window(bits, pos)
    ensures StepAt(k, bits, pos).Symbol? && StepAt(k, bits, pos).symbol == s ==>
            StepAt(k, bits, pos) == Symbol(s, CodeLength(k, s))
  {
    hide Val, ToBits, Canonical, CodeLength, CodeWord, LookupWord, Pow2, SymbolBits, Window;
    var w, l := Window(bits, pos), CodeLength(k, s);
    LookupExact(k, Val(w));
    LookupFinds(k, Val(w), s);
    assert w == w[..l] + w[l..];
    ValSplit(w[..l], w[l..]);
    SymbolValue(k, s);
    BeginsIff(k, s, Val(w));
    assert SymbolBits(k, s) <= w ==> w[..l] == SymbolBits(k, s);
    if Val(w[..l]) == CodeWord(k, s) {
      ValInjective(w[..l], SymbolBits(k, s));
    }
  }

  lemma BeginsIff(k: Code, s: byte, w: nat)
    requires Canonical(k)
    ensures Begins(k, s, w) <==> w / Pow2(30 - CodeLength(k, s)) == CodeWord(k, s)
  {
  }

  lemma LookupFinds(k: Code, w: nat, s: byte)
    requires Canonical(k) && w < Pow2(30)
    ensures LookupWord(k, w).Found? && LookupWord(k, w).symbol == s ==> LookupWord(k, w) == Found(s, CodeLength(k, s))
  {
    LookupSound(k, w);
  }

  lemma WindowPrefixIff(bits: seq<bit>, pos: nat, code: seq<bit>)
    requires pos <= |bits| && |code| <= 30
    ensures var rest := bits[pos..];
            code <= Window(bits, pos) <==>
            if |code| <= |rest| then code <= rest else code == rest + Ones(|code| - |rest|)
  {
    var rest, w := bits[pos..], Window(bits, pos);
    if |rest| >= 30 {
      assert w == rest[..30];
      assert code <= w <==> code == w[..|code|] == rest[..|code|];
    } else if |code| <= |rest| {
      assert w[..|code|] == rest[..|code|];
    } else {
      assert w[..|code|] == rest + Ones(|code| - |rest|);
    }
  }

  /** A cut in a later code. */
  lemma CutShortNextIff(k: Code, rest: seq<bit>, s: seq<byte>)
    requires Canonical(k) && s != []
    ensures CutShort(k, SymbolBits(k, s[0]) + rest, s) <==> CutShort(k, rest, s[1..])
  {
    hide Canonical, SymbolBits, CodeLength;
    var code, more, m := SymbolBits(k, s[0]), StringBits(k, s[1..]), |s| - 1;
    var all := code + more;
    assert StringBits(k, s) == all && |all| == |code| + |more|;
    if m == 0 {
      assert s[1..] == [] && more == [];
    } else {
      assert s[..m][0] == s[0] && s[..m][1..] == s[1..][..m - 1];
      assert StringBits(k, s[..m]) == code + StringBits(k, s[1..][..m - 1]);
      if |rest| < |more| {
        var ones := Ones(|more| - |rest|);
        assert (code + rest) + ones == code + (rest + ones);
        assert all == code + (rest + ones) <==> all[|code|..] == (code + (rest + ones))[|code|..];
        assert all[|code|..] == more && (code + (rest + ones))[|code|..] == rest + ones;
      }
    }
  }

  /** A cut in the first code, which must be the only one. */
  lemma CutShortFirstIff(k: Code, rest: seq<bit>, s: seq<byte>)
    requires Canonical(k) && s != [] && |rest| < CodeLength(k, s[0])
    ensures var code := SymbolBits(k, s[0]);
            CutShort(k, rest, s) <==> |rest| >= 5 && code == rest + Ones(|code| - |rest|) && s[1..] == []
  {
    hide Canonical, SymbolBits, CodeLength;
    var code, m := SymbolBits(k, s[0]), |s| - 1;
    if m == 0 {
      assert StringBits(k, s) == code + [] == code && StringBits(k, s[..m]) == [];
    } else {
      assert s[..m][0] == s[0];
      assert |StringBits(k, s[..m])| >= |code|;
    }
  }

  /** What decodes to a text with a first symbol begins with the code of that symbol, cut short only if it is the last. */
  lemma DecodesNextIff(k: Code, rest: seq<bit>, s: seq<byte>, i: nat, limit: nat)
    requires Canonical(k) && s != []
    ensures var code := SymbolBits(k, s[0]);
            Decodes(k, rest, s, i, limit) <==>
            if |code| <= |rest| then code <= rest && Decodes(k, rest[|code|..], s[1..], i + 1, limit)
            else |rest| >= 5 && code == rest + Ones(|code| - |rest|) && s[1..] == [] && i <= limit
  {
    hide Canonical, SymbolBits, CodeLength;
    var code, more := SymbolBits(k, s[0]), StringBits(k, s[1..]);
    assert StringBits(k, s) == code + more;
    if |code| <= |rest| {
      assert code == (code + more)[..|code|];
      assert code + more <= rest ==> code == rest[..|code|];
      assert CutShort(k, rest, s) ==> code == (rest + Ones(|code + more| - |rest|))[..|code|] == rest[..|code|];
      if code <= rest {
        var rest' := rest[|code|..];
        assert rest == code + rest';
        assert code + more <= rest <==> more <= rest';
        CutShortNextIff(k, rest', s);
        if more <= rest' {
          assert rest[|code + more|..] == rest'[|more|..];
        }
      }
    } else {
      CutShortFirstIff(k, rest, s);
    }
  }

  /** From any position, decoding gives a text if and only if the bits from there on are its codes up to an end or a cut. */
  lemma {:induction false} TextFromIff(k: Code, bits: seq<bit>, pos: nat, i: nat, limit: nat, s: seq<byte>)
    requires Canonical(k) && |bits| % 8 == 0 && bits != [] && pos <= |bits|
    ensures TextFrom(k, bits, pos, i, limit) == Text(s) <==> Decodes(k, bits[pos..], s, i, limit)
    decreases |bits| - pos
  {
    hide Canonical, StepAt, SymbolBits, CodeLength, Ends, Decodes, Window;
    var rest := bits[pos..];
    NothingLeftIff(k, rest, i, limit);
    EndStepIff(k, bits, pos);
    if s != [] {
      SymbolStepIff(k, bits, pos, s[0]);
      WindowPrefixIff(bits, pos, SymbolBits(k, s[0]));
      DecodesNextIff(k, rest, s, i, limit);
      var l := CodeLength(k, s[0]);
      assert s == [s[0]] + s[1..];
      if pos + l <= |bits| {
        assert rest[l..] == bits[pos + l..];
        TextFromIff(k, bits, pos + l, i + 1, limit, s[1..]);
      }
    }
  }

  lemma NothingLeftIff(k: Code, rest: seq<bit>, i: nat, limit: nat)
    requires Canonical(k)
    ensures Decodes(k, rest, [], i, limit) <==> Ends(rest) && i <= limit
  {
    assert StringBits(k, []) == [] && rest[0..] == rest;
  }

  /**
   * The decoder takes bits for a text if and only if they are the codes of its symbols followed by an end, or the last
   * code is cut short after five bits or more and goes on with ones.
   */
  lemma DecodesIff(k: Code, bytes: seq<byte>, s: seq<byte>, limit: nat)
    requires Canonical(k)
    ensures TextFrom(k, BitsOf(bytes), 0, 0, limit) == Text(s) <==> Decodes(k, BitsOf(bytes), s, 0, limit)
  {
    var bits := BitsOf(bytes);
    assert bits[0..] == bits;
    hide Canonical, Decodes, BitsOf;
    if bytes != [] {
      TextFromIff(k, bits, 0, 0, limit, s);
    } else {
      OfNothing(k, s, limit);
    }
  }

  lemma OfNothing(k: Code, s: seq<byte>, limit: nat)
    requires Canonical(k)
    ensures Decodes(k, [], s, 0, limit) <==> s == []
  {
    hide Canonical;
    if s != [] {
      assert |SymbolBits(k, s[0])| >= SHORTEST;
    }
  }

  /** Among the last 255 bits only fewer than eight ones are an end. */
  lemma EndsIsPadding(rest: seq<bit>)
    requires |rest| < 256
    ensures Ends(rest) <==> |rest| < 8 && rest == Ones(|rest|)
  {
  }

  lemma ByteOfOnes()
    ensures ToBits(255, 8) == Ones(8)
  {
    ToBitsVal(Ones(8));
    ValOnes(8);
    Pow2Small();
  }

  function FullBytes(n: nat): (bytes: seq<byte>)
    ensures |bytes| == n
  {
    seq(n, _ => 255)
  }

  lemma FullBits(n: nat)
    ensures BitsOf(FullBytes(n)) == Ones(8 * n)
  {
    ByteOfOnes();
    hide ToBits;
  }

  lemma LongOnesEnd(n: nat)
    requires n % 256 == 0 && n >= 256
    ensures Ends(Ones(n))
  {
  }

  /** Padding of 256 bits passes: 32 octets of ones are taken for the empty text. */
  lemma LongPaddingPasses(k: Code, limit: nat)
    requires Canonical(k)
    ensures TextFrom(k, BitsOf(FullBytes(32)), 0, 0, limit) == Text([])
  {
    hide *;
    FullBits(32);
    LongOnesEnd(256);
    NothingLeftIff(k, BitsOf(FullBytes(32)), 0, limit);
    DecodesIff(k, FullBytes(32), [], limit);
  }
}
