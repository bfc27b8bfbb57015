/** The prefix integers of section 5.1 of RFC 7541, as src/hpack/encoder.c, decoder.c and utils.c code them. */
module PrefixInt {
  import opened Bits

  /** HPACK_MAXIMUM_INTEGER, the largest integer the codec accepts. */
  const MAX_INTEGER: nat := 4096

  function Pow128(n: nat): (p: nat)
    ensures p >= 1
  {
    if n == 0 then 1 else 128 * Pow128(n - 1)
  }

  /** The largest value that fits in the prefix; one less than 2^prefix. */
  function Limit(prefix: nat): (p: nat)
    requires 1 <= prefix <= 8
    ensures 1 <= p <= 255
  {
    Pow2Small();
    Pow2(prefix) - 1
  }

  /** The continuation octets: base-128 digits, least significant first, all but the last with the top bit set. */
  function Tail(n: nat): (r: seq<byte>)
    ensures |r| >= 1
  {
    if n < 128 then [n] else [n % 128 + 128] + Tail(n / 128)
  }

  function Encode(n: nat, prefix: nat): (r: seq<byte>)
    requires 1 <= prefix <= 8
    ensures |r| >= 1 && r[0] <= Limit(prefix)
  {
    if n < Limit(prefix) then [n] else [Limit(prefix)] + Tail(n - Limit(prefix))
  }

  /** floor(log128(x)): the largest k with 128^k <= x. */
  ghost predicate IsLog128(x: nat, k: nat) {
    Pow128(k) <= x < Pow128(k + 1)
  }

  /** Up to 2^28, beyond which the shift would leave the 32-bit word; the result for 0 is 0 - 1 in that word. */
  method Log128(x: nat) returns (k: nat)
    requires x <= 0x1000_0000
    ensures x >= 1 ==> IsLog128(x, k)
    ensures x == 0 ==> k == WORD - 1
  {
    var n := 0;
    var m := 1;
    while m < x
      invariant n <= 4 && m == Pow128(n)
      invariant n > 0 ==> Pow128(n - 1) < x
      decreases x - m
    {
      assert n == 4 ==> m == 0x1000_0000;
      n := n + 1;
      ShiftBySevens(n);
      m := Pow2(7 * n);
    }
    if m == x {
      return n;
    }
    return if n == 0 then WORD - 1 else n - 1;
  }

  lemma {:induction false} ShiftBySevens(n: nat)
    ensures Pow2(7 * n) == Pow128(n)
  {
    if n > 0 {
      ShiftBySevens(n - 1);
      Pow2Add(7 * (n - 1), 7);
      Pow2Small();
    }
  }

  /** Number of octets the encoder writes for n, by table of cases rather than by encoding. */
  method EncodedSize(n: nat, prefix: nat) returns (size: nat)
    requires 1 <= prefix <= 8 && n <= 0x1000_0000 + Limit(prefix)
    ensures size == |Encode(n, prefix)|
    ensures n > Limit(prefix) ==> IsLog128(n - Limit(prefix), size - 2)
  {
    var p := Limit(prefix);
    if n < p {
      size := 1;
    } else if n == p {
      size := 2;
    } else {
      var k := Log128(n - p);
      size := k + 2;
      TailLength(n - p, k);
    }
  }

  lemma {:induction false} TailLength(n: nat, k: nat)
    requires n >= 1 && IsLog128(n, k)
    ensures |Tail(n)| == k + 1
    decreases n
  {
    if n < 128 {
      assert Pow128(1) == 128;
      if k >= 1 {
        Pow128AtLeast(k);
      }
    } else {
      assert k >= 1 by { assert Pow128(1) == 128; }
      assert Pow128(k - 1) <= n / 128 < Pow128(k);
      TailLength(n / 128, k - 1);
    }
  }

  lemma {:induction false} Pow128AtLeast(k: nat)
    requires k >= 1
    ensures Pow128(k) >= 128
  {
    if k > 1 {
      Pow128AtLeast(k - 1);
    }
  }

  method EncodeInteger(n: nat, prefix: nat) returns (ok: bool, out: seq<byte>)
    requires 1 <= prefix <= 8
    ensures ok <==> n <= MAX_INTEGER
    ensures ok ==> out == Encode(n, prefix)
  {
    out := [];
    if n > MAX_INTEGER {
      return false, out;
    }
    ok := true;
    var first := Limit(prefix);
    if n < first {
      Pow2Small();
      out := [n];
    } else {
      out := [first];
      var rest: nat := n - first;
      while rest >= 128
        invariant out + Tail(rest) == Encode(n, prefix)
      {
        assert out + Tail(rest) == (out + [rest % 128 + 128]) + Tail(rest / 128);
        out := out + [rest % 128 + 128];
        rest := rest / 128;
      }
      out := out + [rest];
    }
  }

  /** Outcome of decoding an integer. Overrun stands for a read past the end of the bytes given. */
  datatype Decoded = Value(value: nat) | TooLarge | Overrun

  const WORD: nat := 0x1_0000_0000

  /** Seven more bits at the given depth, in 32-bit arithmetic. */
  function Accumulate(acc: nat, d: nat, depth: nat): (sum: nat) {
    (acc + d * (Pow2(depth) % WORD)) % WORD
  }

  /** Continuation octets from position i with the accumulator and the shift so far. */
  function DecodeTail(bs: seq<byte>, i: nat, acc: nat, depth: nat): (r: Decoded)
    decreases |bs| - i
  {
    if i >= |bs| then Overrun
    else
      var sum := Accumulate(acc, bs[i] % 128, depth);
      if bs[i] >= 128 then DecodeTail(bs, i + 1, sum, depth + 7)
      else if sum > MAX_INTEGER then TooLarge
      else Value(sum)
  }

  function Decode(bs: seq<byte>, prefix: nat): (r: Decoded)
    requires 1 <= prefix <= 8
  {
    if bs == [] then Overrun
    else
      var b0 := bs[0] % Pow2(prefix);
      if b0 != Limit(prefix) then Value(b0) else DecodeTail(bs, 1, b0, 0)
  }

  method DecodeInteger(bs: seq<byte>, prefix: nat) returns (r: Decoded)
    requires 1 <= prefix <= 8
    ensures r == Decode(bs, prefix)
  {
    if bs == [] {
      return Overrun;
    }
    // Shifting left and back right by 8 - prefix keeps the low prefix bits of the first octet.
    var b0 := bs[0] % Pow2(prefix);
    if b0 != Limit(prefix) {
      return Value(b0);
    }
    var integer: nat := b0;
    var depth: nat := 0;
    var i := 1;
    while i < |bs|
      invariant 1 <= i <= |bs|
      invariant Decode(bs, prefix) == DecodeTail(bs, i, integer, depth)
    {
      integer := Accumulate(integer, bs[i] % 128, depth);
      if bs[i] < 128 {
        return if integer > MAX_INTEGER then TooLarge else Value(integer);
      }
      depth := depth + 7;
      i := i + 1;
    }
    return Overrun;
  }

  /** The weight of a digit, or of the number that several digits make, at the given depth. */
  function Weight(n: nat, depth: nat): (w: nat) {
    n * Pow2(depth)
  }

  /** One continuation octet, as long as the accumulator stays within the limit. */
  lemma TailStep(bs: seq<byte>, i: nat, acc: nat, depth: nat)
    requires i < |bs| && acc + Weight(bs[i] % 128, depth) <= MAX_INTEGER
    requires bs[i] % 128 > 0 ==> Pow2(depth) < WORD
    ensures var sum := acc + Weight(bs[i] % 128, depth);
            DecodeTail(bs, i, acc, depth) ==
            if bs[i] >= 128 then DecodeTail(bs, i + 1, sum, depth + 7) else Value(sum)
  {
    hide Accumulate, Weight, Pow2;
    AccumulateSmall(acc, bs[i] % 128, depth);
  }

  lemma AccumulateSmall(acc: nat, d: nat, depth: nat)
    requires d > 0 ==> Pow2(depth) < WORD
    requires acc + Weight(d, depth) <= MAX_INTEGER
    ensures Accumulate(acc, d, depth) == acc + Weight(d, depth)
  {
    hide Pow2;
    if d == 0 {
      assert 0 * (Pow2(depth) % WORD) == 0 && 0 * Pow2(depth) == 0;
    } else {
      assert Pow2(depth) % WORD == Pow2(depth);
    }
  }

  /** Decoding the continuation octets of n adds n, shifted by the depth reached, to the accumulator. */
  lemma {:induction false} TailRoundTrip(pre: seq<byte>, n: nat, post: seq<byte>, acc: nat, depth: nat)
    requires acc + Weight(n, depth) <= MAX_INTEGER
    ensures DecodeTail(pre + Tail(n) + post, |pre|, acc, depth) == Value(acc + Weight(n, depth))
    decreases n
  {
    hide Pow2, Weight, DecodeTail, Tail;
    var tail := Tail(n);
    var bs := pre + tail + post;
    TailUnfold(n);
    assert bs[|pre|] == tail[0];
    ShiftFits(n, depth);
    if n < 128 {
      TailStep(bs, |pre|, acc, depth);
    } else {
      var d, q := n % 128, n / 128;
      DigitStep(n, depth);
      TailStep(bs, |pre|, acc, depth);
      TailRoundTrip(pre + [d + 128], q, post, acc + Weight(d, depth), depth + 7);
      Regrouped(pre, d + 128, Tail(q), post);
    }
  }

  lemma TailUnfold(n: nat)
    ensures n < 128 ==> Tail(n) == [n]
    ensures n >= 128 ==> Tail(n) == [n % 128 + 128] + Tail(n / 128)
  {
  }

  lemma Regrouped(pre: seq<byte>, b: byte, tail: seq<byte>, post: seq<byte>)
    ensures (pre + [b]) + tail + post == pre + ([b] + tail) + post
  {
  }

  /** The first of several digits, and the others at the next depth. */
  lemma DigitStep(n: nat, depth: nat)
    ensures Weight(n % 128, depth) + Weight(n / 128, depth + 7) == Weight(n, depth)
  {
    ShiftBySeven(depth);
    SplitProduct(n / 128, n % 128, Pow2(depth));
    hide Pow2;
  }

  lemma ShiftBySeven(depth: nat)
    ensures Pow2(depth + 7) == Pow2(depth) * 128
  {
    Pow2Add(depth, 7);
    Pow2Small();
  }

  lemma ShiftFits(n: nat, depth: nat)
    requires Weight(n, depth) <= MAX_INTEGER
    ensures n > 0 ==> Pow2(depth) < WORD
  {
    if n > 0 {
      MulAtLeast(n, Pow2(depth));
    }
  }

  lemma SplitProduct(q: nat, d: nat, p: nat)
    ensures (q * 128 + d) * p == q * (p * 128) + d * p
    ensures q * (p * 128) >= 0
  {
  }

  /**
   * Every integer up to the limit is read back from its encoding, whatever preamble of the
   * remaining high bits is or-ed into the first octet and whatever follows.
   */
  lemma RoundTrip(n: nat, prefix: nat, preamble: nat, post: seq<byte>)
    requires 1 <= prefix <= 8 && n <= MAX_INTEGER
    requires preamble * Pow2(prefix) < 256
    ensures var e := Encode(n, prefix);
            Or(preamble * Pow2(prefix), e[0]) == preamble * Pow2(prefix) + e[0] < 256
    ensures var e := Encode(n, prefix);
            Decode([Or(preamble * Pow2(prefix), e[0])] + e[1..] + post, prefix) == Value(n)
  {
    var e := Encode(n, prefix);
    var p := Pow2(prefix);
    OrDisjoint(preamble, e[0], prefix);
    TopFits(preamble, prefix);
    var first := preamble * p + e[0];
    DivModUnique(first, p, preamble, e[0]);
    var bs := [first] + e[1..] + post;
    if n >= Limit(prefix) {
      var tail := Tail(n - Limit(prefix));
      assert e[1..] == tail;
      assert Pow2(0) == 1;
      assert Weight(n - Limit(prefix), 0) == n - Limit(prefix);
      TailRoundTrip([first], n - Limit(prefix), post, Limit(prefix), 0);
    }
  }

  lemma TopFits(a: nat, prefix: nat)
    requires 1 <= prefix <= 8 && a * Pow2(prefix) < 256
    ensures a * Pow2(prefix) + Limit(prefix) < 256
  {
    Pow2Small();
    Pow2Add(prefix, 8 - prefix);
    var p, q := Pow2(prefix), Pow2(8 - prefix);
    assert p * q == 256;
    if a >= q {
      MulMonotone(q, a, p);
      assert false;
    }
    MulMonotone(a, q - 1, p);
    Distribute(q, 1, p);
  }

  // ----- Whatever octets there are -----

  /** The number that continuation octets spell, minimal or not. */
  function Digits(s: seq<byte>): (n: nat) {
    if s == [] then 0 else s[0] % 128 + 128 * Digits(s[1..])
  }

  lemma ModSum(x: nat, y: nat, k: nat)
    ensures (x % WORD + y) % WORD == (x + y) % WORD
    ensures (x + WORD * k) % WORD == x % WORD
  {
  }

  lemma AccumulateIs(acc: nat, d: nat, depth: nat)
    ensures Accumulate(acc, d, depth) == (acc + Weight(d, depth)) % WORD
  {
    hide Pow2;
    var p := Pow2(depth);
    var q, r := p / WORD, p % WORD;
    assert d * p == d * (WORD * q + r) == WORD * (d * q) + d * r;
    MulNatural(d, q);
    MulNatural(d, r);
    ModSum(acc + d * r, 0, d * q);
  }

  lemma MulNatural(a: nat, b: nat)
    ensures a * b >= 0
  {
  }

  lemma DigitsStep(s: seq<byte>, depth: nat)
    requires s != []
    ensures Weight(s[0] % 128, depth) + Weight(Digits(s[1..]), depth + 7) == Weight(Digits(s), depth)
  {
    hide Pow2;
    ShiftBySeven(depth);
    SplitProduct(Digits(s[1..]), s[0] % 128, Pow2(depth));
  }

  lemma {:induction false} TailIsExact(bs: seq<byte>, i: nat, m: nat, acc: nat, depth: nat)
    requires i <= m < |bs| && bs[m] < 128 && forall j :: i <= j < m ==> bs[j] >= 128
    ensures var v := (acc + Weight(Digits(bs[i..m + 1]), depth)) % WORD;
            DecodeTail(bs, i, acc, depth) == if v <= MAX_INTEGER then Value(v) else TooLarge
    decreases m - i
  {
    hide Pow2, Weight, Accumulate;
    var s, d := bs[i..m + 1], bs[i] % 128;
    assert s[0] == bs[i] && s[1..] == bs[i + 1..m + 1];
    AccumulateIs(acc, d, depth);
    DigitsStep(s, depth);
    if i == m {
      NoWeight(depth + 7);
    } else {
      var sum := Accumulate(acc, d, depth);
      TailIsExact(bs, i + 1, m, sum, depth + 7);
      ModSum(acc + Weight(d, depth), Weight(Digits(s[1..]), depth + 7), 0);
    }
  }

  lemma NoWeight(depth: nat)
    ensures Weight(0, depth) == 0 && Weight(Digits([]), depth) == 0
  {
    hide Pow2;
  }

  lemma {:induction false} TailOverruns(bs: seq<byte>, i: nat, acc: nat, depth: nat)
    requires forall j :: i <= j < |bs| ==> bs[j] >= 128
    ensures DecodeTail(bs, i, acc, depth) == Overrun
    decreases |bs| - i
  {
    if i < |bs| {
      TailOverruns(bs, i + 1, Accumulate(acc, bs[i] % 128, depth), depth + 7);
    }
  }

  /**
   * What is read from any octets: the low bits of the first one when they are not all set; otherwise those plus the
   * number that the octets up to the first one below 128 spell, as a 32-bit integer, if it is no larger than the limit.
   */
  lemma DecodeIsExact(bs: seq<byte>, prefix: nat, m: nat)
    requires 1 <= prefix <= 8 && bs != []
    requires 1 <= m <= |bs| && (m < |bs| ==> bs[m] < 128) && forall j :: 1 <= j < m ==> bs[j] >= 128
    ensures var low := bs[0] % Pow2(prefix);
            Decode(bs, prefix) ==
            if low != Limit(prefix) then Value(low)
            else if m == |bs| then Overrun
            else var v := (low + Digits(bs[1..m + 1])) % WORD; if v <= 4096 then Value(v) else TooLarge
  {
    hide Pow2, Weight;
    var low := bs[0] % Pow2(prefix);
    if low == Limit(prefix) {
      if m == |bs| {
        TailOverruns(bs, 1, low, 0);
      } else {
        TailIsExact(bs, 1, m, low, 0);
        AtDepthZero(Digits(bs[1..m + 1]));
      }
    }
  }

  lemma AtDepthZero(n: nat)
    ensures Weight(n, 0) == n
  {
    assert Pow2(0) == 1;
  }

  /** The number wraps around: FF 81 FE FF FF 0F spells 2^32, and is read as 0. */
  lemma LargeIntegerWraps()
    ensures Digits([0x81, 0xfe, 0xff, 0xff, 0x0f]) + 255 == WORD
    ensures Decode([0xff, 0x81, 0xfe, 0xff, 0xff, 0x0f], 8) == Value(0)
  {
    SpellsWord();
    var bs: seq<byte> := [0xff, 0x81, 0xfe, 0xff, 0xff, 0x0f];
    hide *;
    assert bs[1..] == [0x81, 0xfe, 0xff, 0xff, 0x0f];
    WrapsToZero(bs);
  }

  lemma WrapsToZero(bs: seq<byte>)
    requires |bs| == 6 && bs[0] == 255 && bs[5] < 128 && (forall j :: 1 <= j < 5 ==> bs[j] >= 128)
    requires Digits(bs[1..]) + 255 == WORD
    ensures Decode(bs, 8) == Value(0)
  {
    hide *;
    FullPrefix();
    assert bs[1..6] == bs[1..];
    DecodeIsExact(bs, 8, 5);
  }

  lemma FullPrefix()
    ensures Pow2(8) == 256 && Limit(8) == 255
  {
    Pow2Small();
  }

  lemma SpellsWord()
    ensures Digits([0x81, 0xfe, 0xff, 0xff, 0x0f]) + 255 == WORD
  {
    var s: seq<byte> := [0x81, 0xfe, 0xff, 0xff, 0x0f];
    assert s[1..] == [0xfe, 0xff, 0xff, 0x0f] && s[1..][1..] == [0xff, 0xff, 0x0f];
    assert s[1..][1..][1..] == [0xff, 0x0f] && s[1..][1..][1..][1..] == [0x0f];
    assert Digits([0x0f]) == 15 && Digits([0xff, 0x0f]) == 2047 && Digits([0xff, 0xff, 0x0f]) == 262143;
    assert Digits([0xfe, 0xff, 0xff, 0x0f]) == 33554430;
  }
}
