/** Octets written as one hexadecimal number, as the examples of RFC 7541 have them, and their Huffman coding. */
module HexOctets {
  import opened Bits
  import opened BitStream
  import opened Huffman
  import opened HuffmanTables
  import opened HuffmanString
  import opened HpackCode
  import opened AppendixB
  import opened TableSpec

  /** The last k octets of a number. */
  function Hex(k: nat, x: nat): (bytes: seq<byte>)
    ensures |bytes| == k
  {
    if k == 0 then [] else Hex(k - 1, x / 256) + [x % 256]
  }

  lemma BitsOfSnoc(bs: seq<byte>, b: byte)
    ensures BitsOf(bs + [b]) == BitsOf(bs) + ToBits(b, 8)
  {
    hide ToBits;
  }

  lemma {:induction false} HexBits(k: nat, x: nat)
    requires x < Pow2(8 * k)
    ensures Val(BitsOf(Hex(k, x))) == x
  {
    hide Val, BitsOf, ToBits, Pow2;
    Pow2Small();
    if k == 0 {
      NoBits();
      assert BitsOf([]) == [];
    } else {
      Pow2Add(8 * k - 8, 8);
      HexBits(k - 1, x / 256);
      BitsOfSnoc(Hex(k - 1, x / 256), x % 256);
      ValConcat(BitsOf(Hex(k - 1, x / 256)), ToBits(x % 256, 8));
      ValToBits(x % 256, 8);
    }
  }

  lemma BitsInjective(a: seq<byte>, b: seq<byte>)
    requires |a| == |b| && BitsOf(a) == BitsOf(b)
    ensures a == b
  {
    hide BitsOf, Val;
    forall i | 0 <= i < |a| ensures a[i] == b[i] {
      BitsOfByte(a, i);
      BitsOfByte(b, i);
    }
  }

  lemma SamePacked(bits: seq<bit>, bytes: seq<byte>)
    requires |bits| == 8 * |bytes| && BitsOf(bytes) == bits
    ensures Pack(bits) == bytes
  {
    hide BitsOf, Pack;
    PackRoundTrip(bits);
    BitsInjective(Pack(bits), bytes);
  }

  /** The characters of an ASCII literal. */
  function Ascii(s: string): (r: seq<byte>)
    ensures |r| == |s| && NulFree(r)
  {
    seq(|s|, i requires 0 <= i < |s| => if 0 < s[i] as int < 128 then s[i] as int else 63)
  }

  /** The codes of the first i characters, end to end, have n bits and the value v. */
  ghost predicate Coded(k: Code, text: string, i: nat, v: int, n: nat) {
    && i <= |text| && Canonical(k)
    && |StringBits(k, Ascii(text)[..i])| == n && Val(StringBits(k, Ascii(text)[..i])) == v
  }

  /** The code of a character is w, with l bits. */
  predicate IsCode(c: char, l: nat, m: nat, w: nat) {
    0 < c as int < 128 && LengthB(c as int) == l && CodeB(c as int) == w && m == Pow2(l)
  }

  lemma NoText(text: string) returns (v: int, n: nat)
    ensures v == n == 0 && Coded(HPACK_CODE, text, 0, v, n)
  {
    v, n := 0, 0;
    HpackIsCanonical();
    NoBits();
    hide Canonical;
    assert Ascii(text)[..0] == [];
  }

  /** One more character. */
  lemma Next(text: string, i: nat, v: int, n: nat, c: char, l: nat, m: nat, w: nat) returns (v': int, n': nat)
    requires Coded(HPACK_CODE, text, i, v, n) && i < |text| && text[i] == c && IsCode(c, l, m, w)
    ensures v' == m * v + w && n' == n + l && Coded(HPACK_CODE, text, i + 1, v', n')
  {
    hide Canonical, LengthB, CodeB, Pow2, Val, StringBits, SymbolBits;
    var s: byte := c as int;
    var before := Ascii(text)[..i];
    v', n' := m * v + w, n + l;
    assert Ascii(text)[..i + 1] == before + [s];
    StringBitsSnoc(HPACK_CODE, before, s);
    CodesAreAppendixB(s);
    SymbolValue(HPACK_CODE, s);
    ValConcat(StringBits(HPACK_CODE, before), SymbolBits(HPACK_CODE, s));
    assert v * m == m * v;
  }

  /** j octets y are the Huffman coding of a text if they are its codes as a number, filled up with p ones. */
  lemma HexCoding(text: string, v: int, n: nat, j: nat, y: nat, p: nat, q: nat)
    requires Coded(HPACK_CODE, text, |text|, v, n)
    requires p < 8 && q == Pow2(p) && n + p == 8 * j && v * q + q - 1 == y
    ensures Canonical(HPACK_CODE) && HuffmanBytes(HPACK_CODE, Ascii(text)) == Hex(j, y)
  {
    hide Canonical, Hex, Ascii, Val, Pow2, BitsOf, StringBits, Pack;
    assert Ascii(text)[..|text|] == Ascii(text);
    var bits := StringBits(HPACK_CODE, Ascii(text));
    assert BitStream.Padding(|bits|) == p;
    ValConcat(bits, Ones(p));
    ValOnes(p);
    ToBitsVal(bits + Ones(p));
    HexBits(j, y);
    ValInjective(bits + Ones(p), BitsOf(Hex(j, y)));
    SamePacked(bits + Ones(p), Hex(j, y));
  }
}
