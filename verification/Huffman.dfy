/**
 * The canonical Huffman code of src/hpack/huffman.c, for any tables with the canonical shape:
 * leaves lists the symbols by increasing code, firstLeaf[l] and firstCode[l] give the position
 * of the first leaf of length l and its code.
 */
module Huffman {
  import opened Bits

  const LONGEST: nat := 30
  const SHORTEST: nat := 5

  datatype Code = Code(leaves: seq<byte>, leafOf: seq<byte>, firstLeaf: seq<nat>, firstCode: seq<nat>)

  ghost predicate Sized(k: Code) {
    |k.leaves| == 256 && |k.leafOf| == 256 && |k.firstLeaf| == 31 && |k.firstCode| == 31
  }

  ghost predicate CanonicalAt(k: Code, l: nat)
    requires Sized(k) && l < LONGEST
  {
    && k.firstLeaf[l] <= k.firstLeaf[l + 1]
    && k.firstCode[l + 1] == 2 * (k.firstCode[l] + k.firstLeaf[l + 1] - k.firstLeaf[l])
  }

  /** The tables are those of a canonical code in which only the word of thirty ones (EOS) is unused. */
  ghost predicate Canonical(k: Code)
    ensures Canonical(k) ==> Sized(k)
  {
    && Sized(k)
    && (forall l :: 0 <= l <= SHORTEST ==> k.firstLeaf[l] == 0)
    && k.firstCode[SHORTEST] == 0
    && (forall l :: SHORTEST <= l < LONGEST ==> CanonicalAt(k, l))
    && k.firstLeaf[LONGEST] <= 256
    && k.firstCode[LONGEST] + 256 - k.firstLeaf[LONGEST] == Pow2(30) - 1
    && (forall s :: 0 <= s < 256 ==> k.leaves[k.leafOf[s]] == s)
    && (forall p :: 0 <= p < 256 ==> k.leafOf[k.leaves[p]] == p)
  }

  /** Length of the code at leaf p: the last l whose first leaf is not beyond p. */
  function LengthFrom(k: Code, p: nat, l: nat): (r: nat)
    requires |k.firstLeaf| == 31 && l <= LONGEST
    ensures l <= r <= LONGEST
    decreases LONGEST - l, p
  {
    if l == LONGEST || p < k.firstLeaf[l + 1] then l else LengthFrom(k, p, l + 1)
  }

  ghost function CodeLength(k: Code, s: byte): (l: nat)
    requires Sized(k)
    ensures SHORTEST <= l <= LONGEST
  {
    LengthFrom(k, k.leafOf[s], SHORTEST)
  }

  ghost function CodeWord(k: Code, s: byte): (c: nat)
    requires Canonical(k)
  {
    var l := CodeLength(k, s);
    LeafRange(k, k.leafOf[s], SHORTEST);
    k.firstCode[l] + k.leafOf[s] - k.firstLeaf[l]
  }

  lemma {:induction false} LeafRange(k: Code, p: nat, l: nat)
    requires |k.firstLeaf| == 31 && l <= LONGEST && k.firstLeaf[l] <= p
    ensures var r := LengthFrom(k, p, l);
            k.firstLeaf[r] <= p && (r < LONGEST ==> p < k.firstLeaf[r + 1])
    decreases LONGEST - l
  {
    if l < LONGEST && p >= k.firstLeaf[l + 1] {
      LeafRange(k, p, l + 1);
    }
  }

  /** The first code of length l, extended with zeros to the longest length. */
  function Low(k: Code, l: nat): (x: nat)
    requires |k.firstCode| == 31 && l <= LONGEST
  {
    k.firstCode[l] * Pow2(LONGEST - l)
  }

  lemma LowStep(k: Code, l: nat)
    requires Canonical(k) && SHORTEST <= l < LONGEST
    ensures Low(k, l + 1) == (k.firstCode[l] + k.firstLeaf[l + 1] - k.firstLeaf[l]) * Pow2(LONGEST - l)
    ensures Low(k, l) <= Low(k, l + 1)
  {
    assert CanonicalAt(k, l);
    var n: nat := k.firstCode[l] + k.firstLeaf[l + 1] - k.firstLeaf[l];
    var r: nat := LONGEST - l - 1;
    DoubleShift(n, r);
    assert LONGEST - l == r + 1;
    assert (2 * n) * Pow2(r) == 2 * (n * Pow2(r)) by { Regroup(n, Pow2(r)); }
    MulMonotone(k.firstCode[l], n, Pow2(LONGEST - l));
  }

  lemma Regroup(n: int, p: int)
    ensures (2 * n) * p == 2 * (n * p)
  {
  }

  lemma {:induction false} LowMonotone(k: Code, a: nat, b: nat)
    requires Canonical(k) && SHORTEST <= a <= b <= LONGEST
    ensures Low(k, a) <= Low(k, b)
    decreases b - a
  {
    if a < b {
      LowStep(k, a);
      LowMonotone(k, a + 1, b);
    }
  }

  /** The words of LONGEST bits that begin with the code of s fill an interval of their own. */
  lemma CodeInterval(k: Code, s: byte)
    requires Canonical(k)
    ensures var l, c := CodeLength(k, s), CodeWord(k, s);
            && Low(k, l) <= c * Pow2(LONGEST - l)
            && (c + 1) * Pow2(LONGEST - l) <= (if l < LONGEST then Low(k, l + 1) else Pow2(30) - 1)
  {
    var l, c := CodeLength(k, s), CodeWord(k, s);
    var p := Pow2(LONGEST - l);
    LeafRange(k, k.leafOf[s], SHORTEST);
    MulMonotone(k.firstCode[l], c, p);
    if l < LONGEST {
      LowStep(k, l);
      MulMonotone(c + 1, k.firstCode[l] + k.firstLeaf[l + 1] - k.firstLeaf[l], p);
    } else {
      assert p == 1;
    }
  }

  /** Word w of LONGEST bits begins with the code of s. */
  ghost predicate Begins(k: Code, s: byte, w: nat)
    requires Canonical(k)
  {
    w / Pow2(LONGEST - CodeLength(k, s)) == CodeWord(k, s)
  }

  lemma QuotientAtLeast(w: nat, p: nat, q: nat)
    requires p >= 1 && q * p <= w
    ensures q <= w / p
  {
    if w / p < q {
      MulMonotone(w / p + 1, q, p);
      Distribute(w / p + 1, 1, p);
    }
  }

  lemma QuotientBelow(w: nat, p: nat, q: nat)
    requires p >= 1 && w < q * p
    ensures w / p < q
  {
    if w / p >= q {
      MulMonotone(q, w / p, p);
    }
  }

  lemma QuotientBounds(w: nat, p: nat, q: nat)
    requires p >= 1
    ensures w / p == q <==> q * p <= w < (q + 1) * p
  {
    assert w == (w / p) * p + w % p;
    if w / p == q {
      assert (q + 1) * p == q * p + p;
    } else if q * p <= w < (q + 1) * p {
      assert (q + 1) * p == q * p + p;
      DivModUnique(w, p, q, w - q * p);
    }
  }

  lemma BeginsInterval(k: Code, s: byte, w: nat)
    requires Canonical(k) && Begins(k, s, w)
    ensures var l := CodeLength(k, s); Low(k, l) <= w && (l < LONGEST ==> w < Low(k, l + 1)) && w < Pow2(30) - 1
  {
    var l, c := CodeLength(k, s), CodeWord(k, s);
    QuotientBounds(w, Pow2(LONGEST - l), c);
    CodeInterval(k, s);
    if l < LONGEST {
      LowMonotone(k, l + 1, LONGEST);
      assert Pow2(LONGEST - LONGEST) == 1;
    }
  }

  /** Canonical codes are prefix-free: whatever bits follow, at most one symbol begins a word. */
  lemma PrefixFree(k: Code, s: byte, t: byte, w: nat)
    requires Canonical(k) && Begins(k, s, w) && Begins(k, t, w)
    ensures s == t
  {
    hide Low, Pow2, LengthFrom, CodeLength;
    var a, b := CodeLength(k, s), CodeLength(k, t);
    BeginsInterval(k, s, w);
    BeginsInterval(k, t, w);
    if a < b {
      LowMonotone(k, a + 1, b);
    } else if b < a {
      LowMonotone(k, b + 1, a);
    }
    assert k.leafOf[s] == k.leafOf[t];
  }

  /** The length the decoder settles on for word w, trying lengths from l on. */
  function DecodeLength(k: Code, w: nat, l: nat): (r: nat)
    requires |k.firstCode| == 31 && l <= LONGEST
    ensures l <= r <= LONGEST
    decreases LONGEST - l, w
  {
    if l == LONGEST || w < Low(k, l + 1) then l else DecodeLength(k, w, l + 1)
  }

  datatype Lookup = Found(symbol: byte, size: nat) | Missing

  function LookupWord(k: Code, w: nat): (r: Lookup)
    requires |k.firstCode| == 31 && |k.firstLeaf| == 31 && |k.leaves| == 256
  {
    var l := DecodeLength(k, w, SHORTEST);
    var pos := k.firstLeaf[l] + w / Pow2(LONGEST - l) - k.firstCode[l];
    if 0 <= pos < 256 then Found(k.leaves[pos], l) else Missing
  }

  lemma {:induction false} DecodeLengthRange(k: Code, w: nat, l: nat)
    requires |k.firstCode| == 31 && l <= LONGEST && Low(k, l) <= w
    ensures var r := DecodeLength(k, w, l); Low(k, r) <= w && (r < LONGEST ==> w < Low(k, r + 1))
    decreases LONGEST - l
  {
    if l < LONGEST && w >= Low(k, l + 1) {
      DecodeLengthRange(k, w, l + 1);
    }
  }

  /** The position computed for a word falls among the leaves of the length settled on. */
  lemma DecodedPosition(k: Code, w: nat, l: nat)
    requires Canonical(k) && SHORTEST <= l <= LONGEST
    requires Low(k, l) <= w && (l < LONGEST ==> w < Low(k, l + 1))
    ensures var q := w / Pow2(LONGEST - l);
            && k.firstCode[l] <= q
            && (l < LONGEST ==> k.firstLeaf[l] + q - k.firstCode[l] < k.firstLeaf[l + 1])
  {
    var p := Pow2(LONGEST - l);
    QuotientAtLeast(w, p, k.firstCode[l]);
    if l < LONGEST {
      assert CanonicalAt(k, l);
      var n: nat := k.firstCode[l] + k.firstLeaf[l + 1] - k.firstLeaf[l];
      LowStep(k, l);
      QuotientBelow(w, p, n);
    }
  }

  lemma {:induction false} LengthOfLeaf(k: Code, p: nat, l: nat, r: nat)
    requires Canonical(k) && SHORTEST <= l <= r <= LONGEST
    requires k.firstLeaf[r] <= p && (r < LONGEST ==> p < k.firstLeaf[r + 1])
    ensures LengthFrom(k, p, l) == r
    decreases r - l
  {
    if l < r {
      assert k.firstLeaf[l + 1] <= p by { FirstLeafMonotone(k, l + 1, r); }
      LengthOfLeaf(k, p, l + 1, r);
    }
  }

  lemma {:induction false} FirstLeafMonotone(k: Code, a: nat, b: nat)
    requires Canonical(k) && SHORTEST <= a <= b <= LONGEST
    ensures k.firstLeaf[a] <= k.firstLeaf[b]
    decreases b - a
  {
    if a < b {
      assert CanonicalAt(k, a);
      FirstLeafMonotone(k, a + 1, b);
    }
  }

  /** What the decoder finds for a word is a symbol whose code begins it; only the EOS word finds nothing. */
  lemma LookupSound(k: Code, w: nat)
    requires Canonical(k) && w < Pow2(30)
    ensures match LookupWord(k, w)
            case Missing => w == Pow2(30) - 1
            case Found(s, size) => size == CodeLength(k, s) && Begins(k, s, w)
  {
    assert Low(k, SHORTEST) == 0;
    DecodeLengthRange(k, w, SHORTEST);
    var l := DecodeLength(k, w, SHORTEST);
    DecodedPosition(k, w, l);
    var pos := k.firstLeaf[l] + w / Pow2(LONGEST - l) - k.firstCode[l];
    if l < LONGEST {
      FirstLeafMonotone(k, l + 1, LONGEST);
    } else {
      assert Pow2(LONGEST - LONGEST) == 1;
    }
    if pos < 256 {
      LengthOfLeaf(k, pos, SHORTEST, l);
    }
  }

  /**
   * Decoding a word of thirty bits finds exactly the symbol whose code begins it, and finds
   * nothing exactly for the EOS word: the code is prefix-free and complete but for EOS.
   */
  lemma LookupExact(k: Code, w: nat)
    requires Canonical(k) && w < Pow2(30)
    ensures LookupWord(k, w).Missing? <==> w == Pow2(30) - 1
    ensures forall s: byte :: Begins(k, s, w) <==> LookupWord(k, w) == Found(s, CodeLength(k, s))
  {
    LookupSound(k, w);
    forall s: byte | Begins(k, s, w)
      ensures LookupWord(k, w) == Found(s, CodeLength(k, s))
    {
      BeginsInterval(k, s, w);
      PrefixFree(k, s, LookupWord(k, w).symbol, w);
    }
    if w == Pow2(30) - 1 && LookupWord(k, w).Found? {
      BeginsInterval(k, LookupWord(k, w).symbol, w);
    }
  }

  method EncodeSymbol(k: Code, s: byte) returns (rc: int, code: nat, length: nat)
    requires Canonical(k)
    ensures rc == 0 && length == CodeLength(k, s) && code == CodeWord(k, s)
  {
    rc, code, length := -1, 0, 0;
    var p := k.leafOf[s];
    if p >= k.firstLeaf[30] {
      LengthOfLeaf(k, p, SHORTEST, LONGEST);
      return 0, p - k.firstLeaf[30] + k.firstCode[30], 30;
    }
    for i := 1 to 31
      invariant forall j :: 1 <= j < i ==> p >= k.firstLeaf[j]
    {
      if p < k.firstLeaf[i] {
        assert i > 5;
        LengthOfLeaf(k, p, SHORTEST, i - 1);
        return 0, p - k.firstLeaf[i - 1] + k.firstCode[i - 1], i - 1;
      }
    }
  }

  method DecodeSymbol(k: Code, word: nat) returns (size: int, s: byte)
    requires Sized(k)
    ensures LookupWord(k, word) == if size >= 0 then Found(s, size) else Missing
  {
    var length, code := 30, word;
    assert Pow2(0) == 1;
    for i := 5 to 30
      invariant length == 30 && code == word
      invariant DecodeLength(k, word, SHORTEST) == DecodeLength(k, word, i)
    {
      var offset := Pow2(30 - i - 1);
      if code < k.firstCode[i + 1] * offset {
        length, code := i, code / Pow2(30 - i);
        break;
      }
    }
    var pos := k.firstLeaf[length] + code - k.firstCode[length];
    if 0 <= pos < 256 {
      return length, k.leaves[pos];
    }
    return -1, 0;
  }
}
