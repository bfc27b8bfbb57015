/** Bytes, bit strings and the shift-and-mask arithmetic that the codecs are written in. */
module Bits {
  type byte = b: int | 0 <= b < 256
  type bit = b: int | 0 <= b < 2

  function Pow2(n: nat): (p: nat)
    ensures p >= 1
  {
    if n == 0 then 1 else 2 * Pow2(n - 1)
  }

  lemma {:induction false} Pow2Add(a: nat, b: nat)
    ensures Pow2(a + b) == Pow2(a) * Pow2(b)
  {
    if b == 0 {
    } else {
      Pow2Add(a, b - 1);
      assert a + b - 1 == a + (b - 1);
    }
  }

  lemma Pow2Small()
    ensures Pow2(0) == 1 && Pow2(1) == 2 && Pow2(2) == 4 && Pow2(3) == 8 && Pow2(4) == 16
    ensures Pow2(5) == 32 && Pow2(6) == 64 && Pow2(7) == 128 && Pow2(8) == 256
  {
  }

  /** A bit string, most significant bit first, read as a number. */
  function Val(bits: seq<bit>): (v: nat)
    ensures v < Pow2(|bits|)
  {
    if bits == [] then 0 else 2 * Val(bits[..|bits| - 1]) + bits[|bits| - 1]
  }

  /** The low n bits of x, most significant bit first. */
  function ToBits(x: nat, n: nat): (r: seq<bit>)
    ensures |r| == n
    decreases n, x
  {
    if n == 0 then [] else ToBits(x / 2, n - 1) + [x % 2]
  }

  function Ones(n: nat): (r: seq<bit>)
    ensures |r| == n && forall i :: 0 <= i < n ==> r[i] == 1
  {
    seq(n, _ => 1)
  }

  lemma SplitLast<T>(a: seq<T>, b: seq<T>)
    requires b != []
    ensures a + b == (a + b[..|b| - 1]) + [b[|b| - 1]]
  {
  }

  lemma ValSnoc(a: seq<bit>, x: bit)
    ensures Val(a + [x]) == 2 * Val(a) + x
  {
    assert (a + [x])[..|a|] == a;
  }

  lemma DoubleShift(x: nat, n: nat)
    ensures 2 * (x * Pow2(n)) == x * Pow2(n + 1)
  {
  }

  lemma {:induction false} ValConcat(a: seq<bit>, b: seq<bit>)
    ensures Val(a + b) == Val(a) * Pow2(|b|) + Val(b)
    decreases |b|
  {
    if b == [] {
      assert a + b == a;
    } else {
      var b', x := b[..|b| - 1], b[|b| - 1];
      SplitLast(a, b);
      ValConcat(a, b');
      ValSnoc(a + b', x);
      DoubleShift(Val(a), |b'|);
    }
  }

  lemma {:induction false} ValOnes(n: nat)
    ensures Val(Ones(n)) == Pow2(n) - 1
  {
    if n > 0 {
      ValOnes(n - 1);
      assert Ones(n)[..n - 1] == Ones(n - 1);
    }
  }

  lemma {:induction false} ToBitsVal(b: seq<bit>)
    ensures ToBits(Val(b), |b|) == b
  {
    if b != [] {
      var b' := b[..|b| - 1];
      ToBitsVal(b');
      assert Val(b) / 2 == Val(b');
      assert b == b' + [b[|b| - 1]];
    }
  }

  lemma {:induction false} ValToBits(x: nat, n: nat)
    requires x < Pow2(n)
    ensures Val(ToBits(x, n)) == x
    decreases n
  {
    if n > 0 {
      ValToBits(x / 2, n - 1);
      var r := ToBits(x, n);
      assert r[..n - 1] == ToBits(x / 2, n - 1);
    }
  }

  lemma ValInjective(a: seq<bit>, b: seq<bit>)
    requires |a| == |b| && Val(a) == Val(b)
    ensures a == b
  {
    ToBitsVal(a);
    ToBitsVal(b);
  }

  /** The prefix of a bit string is the quotient of its value and the rest is the remainder. */
  lemma ValSplit(a: seq<bit>, b: seq<bit>)
    ensures Val(a + b) / Pow2(|b|) == Val(a) && Val(a + b) % Pow2(|b|) == Val(b)
  {
    ValConcat(a, b);
    DivModUnique(Val(a + b), Pow2(|b|), Val(a), Val(b));
  }

  lemma Distribute(a: int, b: int, d: int)
    ensures (a - b) * d == a * d - b * d
  {
  }

  lemma MulAtLeast(k: nat, d: nat)
    requires k >= 1
    ensures k * d >= d
  {
  }

  lemma MulMonotone(a: int, b: int, d: nat)
    requires a <= b
    ensures a * d <= b * d
  {
  }

  lemma DivModUnique(x: int, d: nat, q: int, r: int)
    requires d > 0 && x == q * d + r && 0 <= r < d
    ensures x / d == q && x % d == r
  {
    var q', r' := x / d, x % d;
    Distribute(q, q', d);
    if q' < q {
      MulAtLeast(q - q', d);
    } else if q' > q {
      MulAtLeast(q' - q, d);
      Distribute(q', q, d);
    }
  }

  /** The bits of a byte string, in the order in which HPACK reads them. */
  function BitsOf(bs: seq<byte>): (r: seq<bit>)
    ensures |r| == 8 * |bs|
  {
    seq(8 * |bs|, i requires 0 <= i < 8 * |bs| => ToBits(bs[i / 8], 8)[i % 8])
  }

  lemma BitsOfSlice(bs: seq<byte>, i: nat, j: nat)
    requires i <= j <= |bs|
    ensures BitsOf(bs)[8 * i..8 * j] == BitsOf(bs[i..j])
  {
  }

  lemma BitsOfOne(x: byte)
    ensures BitsOf([x]) == ToBits(x, 8)
    ensures Val(ToBits(x, 8)) == x
  {
    Pow2Small();
    ValToBits(x, 8);
  }

  lemma SliceOne<T>(s: seq<T>, i: nat)
    requires i < |s|
    ensures s[i..i + 1] == [s[i]]
  {
  }

  lemma BitsOfByte(bs: seq<byte>, i: nat)
    requires i < |bs|
    ensures BitsOf(bs)[8 * i..8 * i + 8] == ToBits(bs[i], 8)
    ensures Val(BitsOf(bs)[8 * i..8 * i + 8]) == bs[i]
  {
    SliceOne(bs, i);
    BitsOfOne(bs[i]);
    BitsOfSlice(bs, i, i + 1);
  }

  /** Bitwise inclusive or of two numbers. */
  function Or(a: nat, b: nat): nat
    decreases a + b
  {
    if a == 0 then b
    else if b == 0 then a
    else 2 * Or(a / 2, b / 2) + (if a % 2 == 1 || b % 2 == 1 then 1 else 0)
  }

  /** Or-ing in bits below a multiple of a power of two is addition. */
  lemma {:induction false} OrDisjoint(a: nat, b: nat, k: nat)
    requires b < Pow2(k)
    ensures Or(a * Pow2(k), b) == a * Pow2(k) + b
    decreases k
  {
    if a == 0 || b == 0 {
      assert 0 * Pow2(k) == 0;
    } else {
      assert k > 0;
      var h := a * Pow2(k - 1);
      assert a * Pow2(k) == 2 * h;
      assert h >= 1 by { assert Pow2(k - 1) >= 1; }
      OrDisjoint(a, b / 2, k - 1);
      assert Or(2 * h, b) == 2 * Or(h, b / 2) + b % 2;
    }
  }

  function Max(a: int, b: int): (r: int) {
    if a >= b then a else b
  }

  function Min(a: int, b: int): (r: int) {
    if a < b then a else b
  }

  /** (base + k + m) % m: the slot k places after base in a circle of m. */
  function Slot(base: nat, k: nat, m: nat): (r: nat)
    requires base < m && k <= m
    ensures r == if base + k < m then base + k else base + k - m
  {
    (base + k) % m
  }
}
