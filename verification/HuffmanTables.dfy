/** The tables L, L_inverse, F and C of src/hpack/huffman.c, the code of Appendix B of RFC 7541. */
module HuffmanTables {
  import opened Bits
  import opened Huffman

  /** Element i of a row of eight. */
  function Of8(i: int, a: byte, b: byte, c: byte, d: byte, e: byte, f: byte, g: byte, h: byte): byte {
    if i < 4 then if i < 2 then if i < 1 then a else b else if i < 3 then c else d
    else if i < 6 then if i < 5 then e else f else if i < 7 then g else h
  }

  /** L: the symbol at leaf p. */
  function Leaf(p: nat): (s: byte)
    requires p < 256
  {
    if p < 8 then Of8(p - 0, 48, 49, 50, 97, 99, 101, 105, 111)
    else if p < 16 then Of8(p - 8, 115, 116, 32, 37, 45, 46, 47, 51)
    else if p < 24 then Of8(p - 16, 52, 53, 54, 55, 56, 57, 61, 65)
    else if p < 32 then Of8(p - 24, 95, 98, 100, 102, 103, 104, 108, 109)
    else if p < 40 then Of8(p - 32, 110, 112, 114, 117, 58, 66, 67, 68)
    else if p < 48 then Of8(p - 40, 69, 70, 71, 72, 73, 74, 75, 76)
    else if p < 56 then Of8(p - 48, 77, 78, 79, 80, 81, 82, 83, 84)
    else if p < 64 then Of8(p - 56, 85, 86, 87, 89, 106, 107, 113, 118)
    else if p < 72 then Of8(p - 64, 119, 120, 121, 122, 38, 42, 44, 59)
    else if p < 80 then Of8(p - 72, 88, 90, 33, 34, 40, 41, 63, 39)
    else if p < 88 then Of8(p - 80, 43, 124, 35, 62, 0, 36, 64, 91)
    else if p < 96 then Of8(p - 88, 93, 126, 94, 125, 60, 96, 123, 92)
    else if p < 104 then Of8(p - 96, 195, 208, 128, 130, 131, 162, 184, 194)
    else if p < 112 then Of8(p - 104, 224, 226, 153, 161, 167, 172, 176, 177)
    else if p < 120 then Of8(p - 112, 179, 209, 216, 217, 227, 229, 230, 129)
    else if p < 128 then Of8(p - 120, 132, 133, 134, 136, 146, 154, 156, 160)
    else if p < 136 then Of8(p - 128, 163, 164, 169, 170, 173, 178, 181, 185)
    else if p < 144 then Of8(p - 136, 186, 187, 189, 190, 196, 198, 228, 232)
    else if p < 152 then Of8(p - 144, 233, 1, 135, 137, 138, 139, 140, 141)
    else if p < 160 then Of8(p - 152, 143, 147, 149, 150, 151, 152, 155, 157)
    else if p < 168 then Of8(p - 160, 158, 165, 166, 168, 174, 175, 180, 182)
    else if p < 176 then Of8(p - 168, 183, 188, 191, 197, 231, 239, 9, 142)
    else if p < 184 then Of8(p - 176, 144, 145, 148, 159, 171, 206, 215, 225)
    else if p < 192 then Of8(p - 184, 236, 237, 199, 207, 234, 235, 192, 193)
    else if p < 200 then Of8(p - 192, 200, 201, 202, 205, 210, 213, 218, 219)
    else if p < 208 then Of8(p - 200, 238, 240, 242, 243, 255, 203, 204, 211)
    else if p < 216 then Of8(p - 208, 212, 214, 221, 222, 223, 241, 244, 245)
    else if p < 224 then Of8(p - 216, 246, 247, 248, 250, 251, 252, 253, 254)
    else if p < 232 then Of8(p - 224, 2, 3, 4, 5, 6, 7, 8, 11)
    else if p < 240 then Of8(p - 232, 12, 14, 15, 16, 17, 18, 19, 20)
    else if p < 248 then Of8(p - 240, 21, 23, 24, 25, 26, 27, 28, 29)
    else Of8(p - 248, 30, 31, 127, 220, 249, 10, 13, 22)
  }

  /** L_inverse: the leaf of symbol s. */
  function LeafOf(s: nat): (p: byte)
    requires s < 256
  {
    if s < 8 then Of8(s - 0, 84, 145, 224, 225, 226, 227, 228, 229)
    else if s < 16 then Of8(s - 8, 230, 174, 253, 231, 232, 254, 233, 234)
    else if s < 24 then Of8(s - 16, 235, 236, 237, 238, 239, 240, 255, 241)
    else if s < 32 then Of8(s - 24, 242, 243, 244, 245, 246, 247, 248, 249)
    else if s < 40 then Of8(s - 32, 10, 74, 75, 82, 85, 11, 68, 79)
    else if s < 48 then Of8(s - 40, 76, 77, 69, 80, 70, 12, 13, 14)
    else if s < 56 then Of8(s - 48, 0, 1, 2, 15, 16, 17, 18, 19)
    else if s < 64 then Of8(s - 56, 20, 21, 36, 71, 92, 22, 83, 78)
    else if s < 72 then Of8(s - 64, 86, 23, 37, 38, 39, 40, 41, 42)
    else if s < 80 then Of8(s - 72, 43, 44, 45, 46, 47, 48, 49, 50)
    else if s < 88 then Of8(s - 80, 51, 52, 53, 54, 55, 56, 57, 58)
    else if s < 96 then Of8(s - 88, 72, 59, 73, 87, 95, 88, 90, 24)
    else if s < 104 then Of8(s - 96, 93, 3, 25, 4, 26, 5, 27, 28)
    else if s < 112 then Of8(s - 104, 29, 6, 60, 61, 30, 31, 32, 7)
    else if s < 120 then Of8(s - 112, 33, 62, 34, 8, 9, 35, 63, 64)
    else if s < 128 then Of8(s - 120, 65, 66, 67, 94, 81, 91, 89, 250)
    else if s < 136 then Of8(s - 128, 98, 119, 99, 100, 120, 121, 122, 146)
    else if s < 144 then Of8(s - 136, 123, 147, 148, 149, 150, 151, 175, 152)
    else if s < 152 then Of8(s - 144, 176, 177, 124, 153, 178, 154, 155, 156)
    else if s < 160 then Of8(s - 152, 157, 106, 125, 158, 126, 159, 160, 179)
    else if s < 168 then Of8(s - 160, 127, 107, 101, 128, 129, 161, 162, 108)
    else if s < 176 then Of8(s - 168, 163, 130, 131, 180, 109, 132, 164, 165)
    else if s < 184 then Of8(s - 176, 110, 111, 133, 112, 166, 134, 167, 168)
    else if s < 192 then Of8(s - 184, 102, 135, 136, 137, 169, 138, 139, 170)
    else if s < 200 then Of8(s - 192, 190, 191, 103, 96, 140, 171, 141, 186)
    else if s < 208 then Of8(s - 200, 192, 193, 194, 205, 206, 195, 181, 187)
    else if s < 216 then Of8(s - 208, 97, 113, 196, 207, 208, 197, 209, 182)
    else if s < 224 then Of8(s - 216, 114, 115, 198, 199, 251, 210, 211, 212)
    else if s < 232 then Of8(s - 224, 104, 183, 105, 116, 142, 117, 118, 172)
    else if s < 240 then Of8(s - 232, 143, 144, 188, 189, 184, 185, 200, 173)
    else if s < 248 then Of8(s - 240, 201, 213, 202, 203, 214, 215, 216, 217)
    else Of8(s - 248, 218, 252, 219, 220, 221, 222, 223, 204)
  }

  const FIRST_LEAF: seq<nat> := [
    0, 0, 0, 0, 0, 0, 10, 36, 68, 74, 74, 79,
    82, 84, 90, 92, 95, 95, 95, 95, 98, 106, 119, 145,
    174, 186, 190, 205, 224, 253, 253
  ]

  const FIRST_CODE: seq<nat> := [
    0, 0, 0, 0, 0, 0, 20, 92, 248, 508, 1016, 2042,
    4090, 8184, 16380, 32764, 65534, 131068, 262136, 524272, 1048550, 2097116, 4194258, 8388568,
    16777194, 33554412, 67108832, 134217694, 268435426, 536870910, 1073741820
  ]

  const HPACK_CODE: Code := Code(
    seq(256, p requires 0 <= p < 256 => Leaf(p)),
    seq(256, s requires 0 <= s < 256 => LeafOf(s)),
    FIRST_LEAF,
    FIRST_CODE)

  lemma SymbolsBelow64(s: nat)
    requires 0 <= s < 64
    ensures Leaf(LeafOf(s)) == s
  {
  }

  lemma SymbolsBelow128(s: nat)
    requires 64 <= s < 128
    ensures Leaf(LeafOf(s)) == s
  {
  }

  lemma SymbolsBelow192(s: nat)
    requires 128 <= s < 192
    ensures Leaf(LeafOf(s)) == s
  {
  }

  lemma SymbolsBelow256(s: nat)
    requires 192 <= s < 256
    ensures Leaf(LeafOf(s)) == s
  {
  }

  lemma LeavesBelow32(p: nat)
    requires 0 <= p < 32
    ensures LeafOf(Leaf(p)) == p
  {
  }

  lemma LeavesBelow64(p: nat)
    requires 32 <= p < 64
    ensures LeafOf(Leaf(p)) == p
  {
  }

  lemma LeavesBelow128(p: nat)
    requires 64 <= p < 128
    ensures LeafOf(Leaf(p)) == p
  {
  }

  lemma LeavesBelow192(p: nat)
    requires 128 <= p < 192
    ensures LeafOf(Leaf(p)) == p
  {
  }

  lemma LeavesBelow256(p: nat)
    requires 192 <= p < 256
    ensures LeafOf(Leaf(p)) == p
  {
  }

  lemma Inverses(x: nat)
    requires x < 256
    ensures Leaf(LeafOf(x)) == x && LeafOf(Leaf(x)) == x
  {
    hide *;
    if x < 64 {
      SymbolsBelow64(x);
      if x < 32 {
        LeavesBelow32(x);
      } else {
        LeavesBelow64(x);
      }
    } else if x < 128 {
      SymbolsBelow128(x);
      LeavesBelow128(x);
    } else if x < 192 {
      SymbolsBelow192(x);
      LeavesBelow192(x);
    } else {
      SymbolsBelow256(x);
      LeavesBelow256(x);
    }
  }

  lemma CanonicalStep(l: nat)
    requires SHORTEST <= l < LONGEST
    ensures FIRST_LEAF[l] <= FIRST_LEAF[l + 1]
    ensures FIRST_CODE[l + 1] == 2 * (FIRST_CODE[l] + FIRST_LEAF[l + 1] - FIRST_LEAF[l])
  {
  }

  lemma ShortRunAt(l: nat)
    requires 6 <= l <= 27
    ensures FIRST_CODE[l] % 64 + FIRST_LEAF[l + 1] <= 63 + FIRST_LEAF[l]
  {
  }

  lemma TableEnds()
    ensures |FIRST_LEAF| == 31 && |FIRST_CODE| == 31
    ensures forall l :: 0 <= l <= SHORTEST ==> FIRST_LEAF[l] == 0
    ensures FIRST_CODE[SHORTEST] == 0 && FIRST_LEAF[LONGEST] == 253 && FIRST_CODE[LONGEST] == 0x3fff_fffc
    ensures FIRST_CODE[28] == 268435426 && FIRST_LEAF[28] == 224
  {
  }
}
