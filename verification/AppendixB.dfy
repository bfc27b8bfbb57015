/** Appendix B of RFC 7541: the codes of HPACK by symbol. The tables of src/hpack/huffman.c list them by leaf. */
module AppendixB {
  import opened Bits
  import opened Huffman
  import opened HuffmanTables
  import opened HuffmanString
  import opened HpackCode

  /** Element i of a row of eight. */
  function Of(i: int, a: nat, b: nat, c: nat, d: nat, e: nat, f: nat, g: nat, h: nat): nat {
    if i < 4 then if i < 2 then if i < 1 then a else b else if i < 3 then c else d
    else if i < 6 then if i < 5 then e else f else if i < 7 then g else h
  }

  /** The length of the code of a symbol, in bits. */
  function LengthB(s: nat): (l: nat)
    requires s < 256
  {
    if s < 8 then Of(s - 0, 13, 23, 28, 28, 28, 28, 28, 28)
    else if s < 16 then Of(s - 8, 28, 24, 30, 28, 28, 30, 28, 28)
    else if s < 24 then Of(s - 16, 28, 28, 28, 28, 28, 28, 30, 28)
    else if s < 32 then Of(s - 24, 28, 28, 28, 28, 28, 28, 28, 28)
    else if s < 40 then Of(s - 32, 6, 10, 10, 12, 13, 6, 8, 11)
    else if s < 48 then Of(s - 40, 10, 10, 8, 11, 8, 6, 6, 6)
    else if s < 56 then Of(s - 48, 5, 5, 5, 6, 6, 6, 6, 6)
    else if s < 64 then Of(s - 56, 6, 6, 7, 8, 15, 6, 12, 10)
    else if s < 72 then Of(s - 64, 13, 6, 7, 7, 7, 7, 7, 7)
    else if s < 80 then Of(s - 72, 7, 7, 7, 7, 7, 7, 7, 7)
    else if s < 88 then Of(s - 80, 7, 7, 7, 7, 7, 7, 7, 7)
    else if s < 96 then Of(s - 88, 8, 7, 8, 13, 19, 13, 14, 6)
    else if s < 104 then Of(s - 96, 15, 5, 6, 5, 6, 5, 6, 6)
    else if s < 112 then Of(s - 104, 6, 5, 7, 7, 6, 6, 6, 5)
    else if s < 120 then Of(s - 112, 6, 7, 6, 5, 5, 6, 7, 7)
    else if s < 128 then Of(s - 120, 7, 7, 7, 15, 11, 14, 13, 28)
    else if s < 136 then Of(s - 128, 20, 22, 20, 20, 22, 22, 22, 23)
    else if s < 144 then Of(s - 136, 22, 23, 23, 23, 23, 23, 24, 23)
    else if s < 152 then Of(s - 144, 24, 24, 22, 23, 24, 23, 23, 23)
    else if s < 160 then Of(s - 152, 23, 21, 22, 23, 22, 23, 23, 24)
    else if s < 168 then Of(s - 160, 22, 21, 20, 22, 22, 23, 23, 21)
    else if s < 176 then Of(s - 168, 23, 22, 22, 24, 21, 22, 23, 23)
    else if s < 184 then Of(s - 176, 21, 21, 22, 21, 23, 22, 23, 23)
    else if s < 192 then Of(s - 184, 20, 22, 22, 22, 23, 22, 22, 23)
    else if s < 200 then Of(s - 192, 26, 26, 20, 19, 22, 23, 22, 25)
    else if s < 208 then Of(s - 200, 26, 26, 26, 27, 27, 26, 24, 25)
    else if s < 216 then Of(s - 208, 19, 21, 26, 27, 27, 26, 27, 24)
    else if s < 224 then Of(s - 216, 21, 21, 26, 26, 28, 27, 27, 27)
    else if s < 232 then Of(s - 224, 20, 24, 20, 21, 22, 21, 21, 23)
    else if s < 240 then Of(s - 232, 22, 22, 25, 25, 24, 24, 26, 23)
    else if s < 248 then Of(s - 240, 26, 27, 26, 26, 27, 27, 27, 27)
    else Of(s - 248, 27, 28, 27, 27, 27, 27, 27, 26)
  }

  /** The code of a symbol, aligned to the least significant bit. */
  function CodeB(s: nat): (w: nat)
    requires s < 256
  {
    if s < 8 then Of(s - 0, 0x1ff8, 0x7fffd8, 0xfffffe2, 0xfffffe3, 0xfffffe4, 0xfffffe5, 0xfffffe6, 0xfffffe7)
    else if s < 16 then Of(s - 8, 0xfffffe8, 0xffffea, 0x3ffffffc, 0xfffffe9, 0xfffffea, 0x3ffffffd, 0xfffffeb, 0xfffffec)
    else if s < 24 then Of(s - 16, 0xfffffed, 0xfffffee, 0xfffffef, 0xffffff0, 0xffffff1, 0xffffff2, 0x3ffffffe, 0xffffff3)
    else if s < 32 then Of(s - 24, 0xffffff4, 0xffffff5, 0xffffff6, 0xffffff7, 0xffffff8, 0xffffff9, 0xffffffa, 0xffffffb)
    else if s < 40 then Of(s - 32, 0x14, 0x3f8, 0x3f9, 0xffa, 0x1ff9, 0x15, 0xf8, 0x7fa)
    else if s < 48 then Of(s - 40, 0x3fa, 0x3fb, 0xf9, 0x7fb, 0xfa, 0x16, 0x17, 0x18)
    else if s < 56 then Of(s - 48, 0x0, 0x1, 0x2, 0x19, 0x1a, 0x1b, 0x1c, 0x1d)
    else if s < 64 then Of(s - 56, 0x1e, 0x1f, 0x5c, 0xfb, 0x7ffc, 0x20, 0xffb, 0x3fc)
    else if s < 72 then Of(s - 64, 0x1ffa, 0x21, 0x5d, 0x5e, 0x5f, 0x60, 0x61, 0x62)
    else if s < 80 then Of(s - 72, 0x63, 0x64, 0x65, 0x66, 0x67, 0x68, 0x69, 0x6a)
    else if s < 88 then Of(s - 80, 0x6b, 0x6c, 0x6d, 0x6e, 0x6f, 0x70, 0x71, 0x72)
    else if s < 96 then Of(s - 88, 0xfc, 0x73, 0xfd, 0x1ffb, 0x7fff0, 0x1ffc, 0x3ffc, 0x22)
    else if s < 104 then Of(s - 96, 0x7ffd, 0x3, 0x23, 0x4, 0x24, 0x5, 0x25, 0x26)
    else if s < 112 then Of(s - 104, 0x27, 0x6, 0x74, 0x75, 0x28, 0x29, 0x2a, 0x7)
    else if s < 120 then Of(s - 112, 0x2b, 0x76, 0x2c, 0x8, 0x9, 0x2d, 0x77, 0x78)
    else if s < 128 then Of(s - 120, 0x79, 0x7a, 0x7b, 0x7ffe, 0x7fc, 0x3ffd, 0x1ffd, 0xffffffc)
    else if s < 136 then Of(s - 128, 0xfffe6, 0x3fffd2, 0xfffe7, 0xfffe8, 0x3fffd3, 0x3fffd4, 0x3fffd5, 0x7fffd9)
    else if s < 144 then Of(s - 136, 0x3fffd6, 0x7fffda, 0x7fffdb, 0x7fffdc, 0x7fffdd, 0x7fffde, 0xffffeb, 0x7fffdf)
    else if s < 152 then Of(s - 144, 0xffffec, 0xffffed, 0x3fffd7, 0x7fffe0, 0xffffee, 0x7fffe1, 0x7fffe2, 0x7fffe3)
    else if s < 160 then Of(s - 152, 0x7fffe4, 0x1fffdc, 0x3fffd8, 0x7fffe5, 0x3fffd9, 0x7fffe6, 0x7fffe7, 0xffffef)
    else if s < 168 then Of(s - 160, 0x3fffda, 0x1fffdd, 0xfffe9, 0x3fffdb, 0x3fffdc, 0x7fffe8, 0x7fffe9, 0x1fffde)
    else if s < 176 then Of(s - 168, 0x7fffea, 0x3fffdd, 0x3fffde, 0xfffff0, 0x1fffdf, 0x3fffdf, 0x7fffeb, 0x7fffec)
    else if s < 184 then Of(s - 176, 0x1fffe0, 0x1fffe1, 0x3fffe0, 0x1fffe2, 0x7fffed, 0x3fffe1, 0x7fffee, 0x7fffef)
    else if s < 192 then Of(s - 184, 0xfffea, 0x3fffe2, 0x3fffe3, 0x3fffe4, 0x7ffff0, 0x3fffe5, 0x3fffe6, 0x7ffff1)
    else if s < 200 then Of(s - 192, 0x3ffffe0, 0x3ffffe1, 0xfffeb, 0x7fff1, 0x3fffe7, 0x7ffff2, 0x3fffe8, 0x1ffffec)
    else if s < 208 then Of(s - 200, 0x3ffffe2, 0x3ffffe3, 0x3ffffe4, 0x7ffffde, 0x7ffffdf, 0x3ffffe5, 0xfffff1, 0x1ffffed)
    else if s < 216 then Of(s - 208, 0x7fff2, 0x1fffe3, 0x3ffffe6, 0x7ffffe0, 0x7ffffe1, 0x3ffffe7, 0x7ffffe2, 0xfffff2)
    else if s < 224 then Of(s - 216, 0x1fffe4, 0x1fffe5, 0x3ffffe8, 0x3ffffe9, 0xffffffd, 0x7ffffe3, 0x7ffffe4, 0x7ffffe5)
    else if s < 232 then Of(s - 224, 0xfffec, 0xfffff3, 0xfffed, 0x1fffe6, 0x3fffe9, 0x1fffe7, 0x1fffe8, 0x7ffff3)
    else if s < 240 then Of(s - 232, 0x3fffea, 0x3fffeb, 0x1ffffee, 0x1ffffef, 0xfffff4, 0xfffff5, 0x3ffffea, 0x7ffff4)
    else if s < 248 then Of(s - 240, 0x3ffffeb, 0x7ffffe6, 0x3ffffec, 0x3ffffed, 0x7ffffe7, 0x7ffffe8, 0x7ffffe9, 0x7ffffea)
    else Of(s - 248, 0x7ffffeb, 0xffffffe, 0x7ffffec, 0x7ffffed, 0x7ffffee, 0x7ffffef, 0x7fffff0, 0x3ffffee)
  }

  /** The leaf of a symbol lies among those of its length, as far behind the first as its code is. */
  ghost predicate AtLeaf(s: nat)
    requires s < 256
  {
    var l, p := LengthB(s), LeafOf(s);
    && SHORTEST <= l <= LONGEST
    && FIRST_LEAF[l] <= p && (l < LONGEST ==> p < FIRST_LEAF[l + 1])
    && CodeB(s) == FIRST_CODE[l] + p - FIRST_LEAF[l]
  }

  lemma Below16(s: nat)
    requires 0 <= s < 16
    ensures AtLeaf(s)
  {
  }

  lemma Below32(s: nat)
    requires 16 <= s < 32
    ensures AtLeaf(s)
  {
  }

  lemma Below48(s: nat)
    requires 32 <= s < 48
    ensures AtLeaf(s)
  {
  }

  lemma Below64(s: nat)
    requires 48 <= s < 64
    ensures AtLeaf(s)
  {
  }

  lemma Below80(s: nat)
    requires 64 <= s < 80
    ensures AtLeaf(s)
  {
  }

  lemma Below88(s: nat)
    requires 80 <= s < 88
    ensures AtLeaf(s)
  {
  }

  lemma Below96(s: nat)
    requires 88 <= s < 96
    ensures AtLeaf(s)
  {
  }

  lemma Below104(s: nat)
    requires 96 <= s < 104
    ensures AtLeaf(s)
  {
  }

  lemma Below112(s: nat)
    requires 104 <= s < 112
    ensures AtLeaf(s)
  {
  }

  lemma Below120(s: nat)
    requires 112 <= s < 120
    ensures AtLeaf(s)
  {
  }

  lemma Below128(s: nat)
    requires 120 <= s < 128
    ensures AtLeaf(s)
  {
  }

  lemma Below144(s: nat)
    requires 128 <= s < 144
    ensures AtLeaf(s)
  {
  }

  lemma Below160(s: nat)
    requires 144 <= s < 160
    ensures AtLeaf(s)
  {
  }

  lemma Below176(s: nat)
    requires 160 <= s < 176
    ensures AtLeaf(s)
  {
  }

  lemma Below192(s: nat)
    requires 176 <= s < 192
    ensures AtLeaf(s)
  {
  }

  lemma Below208(s: nat)
    requires 192 <= s < 208
    ensures AtLeaf(s)
  {
  }

  lemma Below224(s: nat)
    requires 208 <= s < 224
    ensures AtLeaf(s)
  {
  }

  lemma Below240(s: nat)
    requires 224 <= s < 240
    ensures AtLeaf(s)
  {
  }

  lemma Below256(s: nat)
    requires 240 <= s < 256
    ensures AtLeaf(s)
  {
  }

  lemma EveryLeaf(s: nat)
    requires s < 256
    ensures AtLeaf(s)
  {
    hide *;
    if s < 16 {
      Below16(s);
    } else if s < 32 {
      Below32(s);
    } else if s < 48 {
      Below48(s);
    } else if s < 64 {
      Below64(s);
    } else if s < 80 {
      Below80(s);
    } else if s < 88 {
      Below88(s);
    } else if s < 96 {
      Below96(s);
    } else if s < 104 {
      Below104(s);
    } else if s < 112 {
      Below112(s);
    } else if s < 120 {
      Below120(s);
    } else if s < 128 {
      Below128(s);
    } else if s < 144 {
      Below144(s);
    } else if s < 160 {
      Below160(s);
    } else if s < 176 {
      Below176(s);
    } else if s < 192 {
      Below192(s);
    } else if s < 208 {
      Below208(s);
    } else if s < 224 {
      Below224(s);
    } else if s < 240 {
      Below240(s);
    } else {
      Below256(s);
    }
  }

  /** The tables of the source hold these codes and no others. */
  lemma CodesAreAppendixB(s: byte)
    ensures Canonical(HPACK_CODE)
    ensures CodeLength(HPACK_CODE, s) == LengthB(s) && CodeWord(HPACK_CODE, s) == CodeB(s)
  {
    hide Leaf, LeafOf, LengthB, CodeB;
    HpackIsCanonical();
    EveryLeaf(s);
    LengthOfLeaf(HPACK_CODE, LeafOf(s), SHORTEST, LengthB(s));
  }

  /** Codes of one length go to their symbols in ascending order. */
  predicate Ascending(p: nat)
    requires p < 255
  {
    LengthB(Leaf(p)) == LengthB(Leaf(p + 1)) ==> Leaf(p) < Leaf(p + 1)
  }

  lemma AscendBelow32(p: nat)
    requires 0 <= p < 32
    ensures Ascending(p)
  {
  }

  lemma AscendBelow64(p: nat)
    requires 32 <= p < 64
    ensures Ascending(p)
  {
  }

  lemma AscendBelow96(p: nat)
    requires 64 <= p < 96
    ensures Ascending(p)
  {
  }

  lemma AscendBelow128(p: nat)
    requires 96 <= p < 128
    ensures Ascending(p)
  {
  }

  lemma AscendBelow160(p: nat)
    requires 128 <= p < 160
    ensures Ascending(p)
  {
  }

  lemma AscendBelow192(p: nat)
    requires 160 <= p < 192
    ensures Ascending(p)
  {
  }

  lemma AscendBelow224(p: nat)
    requires 192 <= p < 224
    ensures Ascending(p)
  {
  }

  lemma AscendBelow256(p: nat)
    requires 224 <= p < 255
    ensures Ascending(p)
  {
  }

  lemma LeavesAscend(p: nat)
    requires p < 255
    ensures Ascending(p)
  {
    hide *;
    if p < 32 {
      AscendBelow32(p);
    } else if p < 64 {
      AscendBelow64(p);
    } else if p < 96 {
      AscendBelow96(p);
    } else if p < 128 {
      AscendBelow128(p);
    } else if p < 160 {
      AscendBelow160(p);
    } else if p < 192 {
      AscendBelow192(p);
    } else if p < 224 {
      AscendBelow224(p);
    } else {
      AscendBelow256(p);
    }
  }
}
