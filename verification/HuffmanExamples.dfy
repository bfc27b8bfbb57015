/** The Huffman-coded strings of the examples in Appendices C.4 and C.6 of RFC 7541. */
module HuffmanExamples {
  import opened Bits
  import opened Huffman
  import opened HuffmanTables
  import opened HuffmanString
  import opened AppendixB
  import opened HexOctets

  lemma Symbols1()
    ensures IsCode('0', 5, 32, 0x0) && IsCode('1', 5, 32, 0x1)
    ensures IsCode('2', 5, 32, 0x2) && IsCode('a', 5, 32, 0x3)
    ensures IsCode('c', 5, 32, 0x4) && IsCode('e', 5, 32, 0x5)
    ensures IsCode('i', 5, 32, 0x6) && IsCode('o', 5, 32, 0x7)
  {
  }

  lemma Symbols2()
    ensures IsCode('s', 5, 32, 0x8) && IsCode('t', 5, 32, 0x9)
  {
  }

  lemma Symbols3()
    ensures IsCode(' ', 6, 64, 0x14) && IsCode('-', 6, 64, 0x16)
    ensures IsCode('.', 6, 64, 0x17) && IsCode('/', 6, 64, 0x18)
    ensures IsCode('3', 6, 64, 0x19) && IsCode('6', 6, 64, 0x1c)
    ensures IsCode('7', 6, 64, 0x1d) && IsCode('=', 6, 64, 0x20)
  {
  }

  lemma Symbols4()
    ensures IsCode('A', 6, 64, 0x21) && IsCode('f', 6, 64, 0x25)
    ensures IsCode('g', 6, 64, 0x26) && IsCode('h', 6, 64, 0x27)
    ensures IsCode('l', 6, 64, 0x28) && IsCode('m', 6, 64, 0x29)
    ensures IsCode('n', 6, 64, 0x2a) && IsCode('p', 6, 64, 0x2b)
  {
  }

  lemma Symbols5()
    ensures IsCode('r', 6, 64, 0x2c) && IsCode('u', 6, 64, 0x2d)
  {
  }

  lemma Symbols6()
    ensures IsCode(':', 7, 128, 0x5c) && IsCode('B', 7, 128, 0x5d)
    ensures IsCode('D', 7, 128, 0x5f) && IsCode('E', 7, 128, 0x60)
    ensures IsCode('G', 7, 128, 0x62) && IsCode('H', 7, 128, 0x63)
    ensures IsCode('I', 7, 128, 0x64) && IsCode('J', 7, 128, 0x65)
  {
  }

  lemma Symbols7()
    ensures IsCode('K', 7, 128, 0x66) && IsCode('M', 7, 128, 0x68)
    ensures IsCode('O', 7, 128, 0x6a) && IsCode('P', 7, 128, 0x6b)
    ensures IsCode('Q', 7, 128, 0x6c) && IsCode('S', 7, 128, 0x6e)
    ensures IsCode('T', 7, 128, 0x6f) && IsCode('U', 7, 128, 0x70)
  {
  }

  lemma Symbols8()
    ensures IsCode('W', 7, 128, 0x72) && IsCode('k', 7, 128, 0x75)
    ensures IsCode('v', 7, 128, 0x77) && IsCode('w', 7, 128, 0x78)
    ensures IsCode('x', 7, 128, 0x79) && IsCode('y', 7, 128, 0x7a)
    ensures IsCode('z', 7, 128, 0x7b)
  {
  }

  lemma Symbols9()
    ensures IsCode(',', 8, 256, 0xfa) && IsCode(';', 8, 256, 0xfb)
    ensures IsCode('X', 8, 256, 0xfc) && IsCode('Z', 8, 256, 0xfd)
  {
  }

  lemma WwwExampleCom()
    ensures Canonical(HPACK_CODE)
    ensures HuffmanBytes(HPACK_CODE, Ascii("www.example.com")) ==
            Hex(12, 0xf1e3c2e5f23a6ba0ab90f4ff)
  {
    hide *;
    Symbols1();
    Symbols3();
    Symbols4();
    Symbols8();
    var text := "www.example.com";
    var v, n := NoText(text);
    v, n := Next(text, 0, v, n, 'w', 7, 128, 0x78);
    v, n := Next(text, 1, v, n, 'w', 7, 128, 0x78);
    v, n := Next(text, 2, v, n, 'w', 7, 128, 0x78);
    v, n := Next(text, 3, v, n, '.', 6, 64, 0x17);
    v, n := Next(text, 4, v, n, 'e', 5, 32, 0x5);
    v, n := Next(text, 5, v, n, 'x', 7, 128, 0x79);
    v, n := Next(text, 6, v, n, 'a', 5, 32, 0x3);
    v, n := Next(text, 7, v, n, 'm', 6, 64, 0x29);
    v, n := Next(text, 8, v, n, 'p', 6, 64, 0x2b);
    v, n := Next(text, 9, v, n, 'l', 6, 64, 0x28);
    v, n := Next(text, 10, v, n, 'e', 5, 32, 0x5);
    v, n := Next(text, 11, v, n, '.', 6, 64, 0x17);
    v, n := Next(text, 12, v, n, 'c', 5, 32, 0x4);
    v, n := Next(text, 13, v, n, 'o', 5, 32, 0x7);
    v, n := Next(text, 14, v, n, 'm', 6, 64, 0x29);
    Pow2Small();
    HexCoding(text, v, n, 12, 0xf1e3c2e5f23a6ba0ab90f4ff, 7, 128);
  }

  lemma NoCache()
    ensures Canonical(HPACK_CODE)
    ensures HuffmanBytes(HPACK_CODE, Ascii("no-cache")) ==
            Hex(6, 0xa8eb10649cbf)
  {
    hide *;
    Symbols1();
    Symbols3();
    Symbols4();
    var text := "no-cache";
    var v, n := NoText(text);
    v, n := Next(text, 0, v, n, 'n', 6, 64, 0x2a);
    v, n := Next(text, 1, v, n, 'o', 5, 32, 0x7);
    v, n := Next(text, 2, v, n, '-', 6, 64, 0x16);
    v, n := Next(text, 3, v, n, 'c', 5, 32, 0x4);
    v, n := Next(text, 4, v, n, 'a', 5, 32, 0x3);
    v, n := Next(text, 5, v, n, 'c', 5, 32, 0x4);
    v, n := Next(text, 6, v, n, 'h', 6, 64, 0x27);
    v, n := Next(text, 7, v, n, 'e', 5, 32, 0x5);
    Pow2Small();
    HexCoding(text, v, n, 6, 0xa8eb10649cbf, 5, 32);
  }

  lemma CustomKey()
    ensures Canonical(HPACK_CODE)
    ensures HuffmanBytes(HPACK_CODE, Ascii("custom-key")) ==
            Hex(8, 0x25a849e95ba97d7f)
  {
    hide *;
    Symbols1();
    Symbols2();
    Symbols3();
    Symbols4();
    Symbols5();
    Symbols8();
    var text := "custom-key";
    var v, n := NoText(text);
    v, n := Next(text, 0, v, n, 'c', 5, 32, 0x4);
    v, n := Next(text, 1, v, n, 'u', 6, 64, 0x2d);
    v, n := Next(text, 2, v, n, 's', 5, 32, 0x8);
    v, n := Next(text, 3, v, n, 't', 5, 32, 0x9);
    v, n := Next(text, 4, v, n, 'o', 5, 32, 0x7);
    v, n := Next(text, 5, v, n, 'm', 6, 64, 0x29);
    v, n := Next(text, 6, v, n, '-', 6, 64, 0x16);
    v, n := Next(text, 7, v, n, 'k', 7, 128, 0x75);
    v, n := Next(text, 8, v, n, 'e', 5, 32, 0x5);
    v, n := Next(text, 9, v, n, 'y', 7, 128, 0x7a);
    Pow2Small();
    HexCoding(text, v, n, 8, 0x25a849e95ba97d7f, 7, 128);
  }

  lemma CustomValue()
    ensures Canonical(HPACK_CODE)
    ensures HuffmanBytes(HPACK_CODE, Ascii("custom-value")) ==
            Hex(9, 0x25a849e95bb8e8b4bf)
  {
    hide *;
    Symbols1();
    Symbols2();
    Symbols3();
    Symbols4();
    Symbols5();
    Symbols8();
    var text := "custom-value";
    var v, n := NoText(text);
    v, n := Next(text, 0, v, n, 'c', 5, 32, 0x4);
    v, n := Next(text, 1, v, n, 'u', 6, 64, 0x2d);
    v, n := Next(text, 2, v, n, 's', 5, 32, 0x8);
    v, n := Next(text, 3, v, n, 't', 5, 32, 0x9);
    v, n := Next(text, 4, v, n, 'o', 5, 32, 0x7);
    v, n := Next(text, 5, v, n, 'm', 6, 64, 0x29);
    v, n := Next(text, 6, v, n, '-', 6, 64, 0x16);
    v, n := Next(text, 7, v, n, 'v', 7, 128, 0x77);
    v, n := Next(text, 8, v, n, 'a', 5, 32, 0x3);
    v, n := Next(text, 9, v, n, 'l', 6, 64, 0x28);
    v, n := Next(text, 10, v, n, 'u', 6, 64, 0x2d);
    v, n := Next(text, 11, v, n, 'e', 5, 32, 0x5);
    Pow2Small();
    HexCoding(text, v, n, 9, 0x25a849e95bb8e8b4bf, 5, 32);
  }

  lemma Status302()
    ensures Canonical(HPACK_CODE)
    ensures HuffmanBytes(HPACK_CODE, Ascii("302")) ==
            Hex(2, 0x6402)
  {
    hide *;
    Symbols1();
    Symbols3();
    var text := "302";
    var v, n := NoText(text);
    v, n := Next(text, 0, v, n, '3', 6, 64, 0x19);
    v, n := Next(text, 1, v, n, '0', 5, 32, 0x0);
    v, n := Next(text, 2, v, n, '2', 5, 32, 0x2);
    Pow2Small();
    HexCoding(text, v, n, 2, 0x6402, 0, 1);
  }

  lemma Status307()
    ensures Canonical(HPACK_CODE)
    ensures HuffmanBytes(HPACK_CODE, Ascii("307")) ==
            Hex(3, 0x640eff)
  {
    hide *;
    Symbols1();
    Symbols3();
    var text := "307";
    var v, n := NoText(text);
    v, n := Next(text, 0, v, n, '3', 6, 64, 0x19);
    v, n := Next(text, 1, v, n, '0', 5, 32, 0x0);
    v, n := Next(text, 2, v, n, '7', 6, 64, 0x1d);
    Pow2Small();
    HexCoding(text, v, n, 3, 0x640eff, 7, 128);
  }

  lemma Private()
    ensures Canonical(HPACK_CODE)
    ensures HuffmanBytes(HPACK_CODE, Ascii("private")) ==
            Hex(5, 0xaec3771a4b)
  {
    hide *;
    Symbols1();
    Symbols2();
    Symbols4();
    Symbols5();
    Symbols8();
    var text := "private";
    var v, n := NoText(text);
    v, n := Next(text, 0, v, n, 'p', 6, 64, 0x2b);
    v, n := Next(text, 1, v, n, 'r', 6, 64, 0x2c);
    v, n := Next(text, 2, v, n, 'i', 5, 32, 0x6);
    v, n := Next(text, 3, v, n, 'v', 7, 128, 0x77);
    v, n := Next(text, 4, v, n, 'a', 5, 32, 0x3);
    v, n := Next(text, 5, v, n, 't', 5, 32, 0x9);
    v, n := Next(text, 6, v, n, 'e', 5, 32, 0x5);
    Pow2Small();
    HexCoding(text, v, n, 5, 0xaec3771a4b, 1, 2);
  }

  lemma DateTo8()
    ensures Coded(HPACK_CODE, "Mon, 21 Oct 2013 20:13:21 GMT", 8, 0xd07abe941054, 48)
  {
    hide *;
    Symbols1();
    Symbols3();
    Symbols4();
    Symbols7();
    Symbols9();
    var text := "Mon, 21 Oct 2013 20:13:21 GMT";
    var v, n := NoText(text);
    v, n := Next(text, 0, v, n, 'M', 7, 128, 0x68);
    v, n := Next(text, 1, v, n, 'o', 5, 32, 0x7);
    v, n := Next(text, 2, v, n, 'n', 6, 64, 0x2a);
    v, n := Next(text, 3, v, n, ',', 8, 256, 0xfa);
    v, n := Next(text, 4, v, n, ' ', 6, 64, 0x14);
    v, n := Next(text, 5, v, n, '2', 5, 32, 0x2);
    v, n := Next(text, 6, v, n, '1', 5, 32, 0x1);
    v, n := Next(text, 7, v, n, ' ', 6, 64, 0x14);
  }

  lemma DateTo16()
    ensures Coded(HPACK_CODE, "Mon, 21 Oct 2013 20:13:21 GMT", 16, 0xd07abe941054d444a820059, 92)
  {
    hide *;
    Symbols1();
    Symbols2();
    Symbols3();
    Symbols7();
    var text := "Mon, 21 Oct 2013 20:13:21 GMT";
    DateTo8();
    var v, n := 0xd07abe941054, 48;
    v, n := Next(text, 8, v, n, 'O', 7, 128, 0x6a);
    v, n := Next(text, 9, v, n, 'c', 5, 32, 0x4);
    v, n := Next(text, 10, v, n, 't', 5, 32, 0x9);
    v, n := Next(text, 11, v, n, ' ', 6, 64, 0x14);
    v, n := Next(text, 12, v, n, '2', 5, 32, 0x2);
    v, n := Next(text, 13, v, n, '0', 5, 32, 0x0);
    v, n := Next(text, 14, v, n, '1', 5, 32, 0x1);
    v, n := Next(text, 15, v, n, '3', 6, 64, 0x19);
  }

  lemma DateTo24()
    ensures Coded(HPACK_CODE, "Mon, 21 Oct 2013 20:13:21 GMT", 24, 0x341eafa5041535112a0801654102e059b82, 138)
  {
    hide *;
    Symbols1();
    Symbols3();
    Symbols6();
    var text := "Mon, 21 Oct 2013 20:13:21 GMT";
    DateTo16();
    var v, n := 0xd07abe941054d444a820059, 92;
    v, n := Next(text, 16, v, n, ' ', 6, 64, 0x14);
    v, n := Next(text, 17, v, n, '2', 5, 32, 0x2);
    v, n := Next(text, 18, v, n, '0', 5, 32, 0x0);
    v, n := Next(text, 19, v, n, ':', 7, 128, 0x5c);
    v, n := Next(text, 20, v, n, '1', 5, 32, 0x1);
    v, n := Next(text, 21, v, n, '3', 6, 64, 0x19);
    v, n := Next(text, 22, v, n, ':', 7, 128, 0x5c);
    v, n := Next(text, 23, v, n, '2', 5, 32, 0x2);
  }

  lemma Date()
    ensures Canonical(HPACK_CODE)
    ensures HuffmanBytes(HPACK_CODE, Ascii("Mon, 21 Oct 2013 20:13:21 GMT")) ==
            Hex(22, 0xd07abe941054d444a8200595040b8166e082a62d1bff)
  {
    hide *;
    Symbols1();
    Symbols3();
    Symbols6();
    Symbols7();
    var text := "Mon, 21 Oct 2013 20:13:21 GMT";
    DateTo24();
    var v, n := 0x341eafa5041535112a0801654102e059b82, 138;
    v, n := Next(text, 24, v, n, '1', 5, 32, 0x1);
    v, n := Next(text, 25, v, n, ' ', 6, 64, 0x14);
    v, n := Next(text, 26, v, n, 'G', 7, 128, 0x62);
    v, n := Next(text, 27, v, n, 'M', 7, 128, 0x68);
    v, n := Next(text, 28, v, n, 'T', 7, 128, 0x6f);
    Pow2Small();
    HexCoding(text, v, n, 22, 0xd07abe941054d444a8200595040b8166e082a62d1bff, 6, 64);
  }

  lemma LocationTo8()
    ensures Coded(HPACK_CODE, "https://www.example.com", 8, 0x274a6b45c618, 46)
  {
    hide *;
    Symbols2();
    Symbols3();
    Symbols4();
    Symbols6();
    var text := "https://www.example.com";
    var v, n := NoText(text);
    v, n := Next(text, 0, v, n, 'h', 6, 64, 0x27);
    v, n := Next(text, 1, v, n, 't', 5, 32, 0x9);
    v, n := Next(text, 2, v, n, 't', 5, 32, 0x9);
    v, n := Next(text, 3, v, n, 'p', 6, 64, 0x2b);
    v, n := Next(text, 4, v, n, 's', 5, 32, 0x8);
    v, n := Next(text, 5, v, n, ':', 7, 128, 0x5c);
    v, n := Next(text, 6, v, n, '/', 6, 64, 0x18);
    v, n := Next(text, 7, v, n, '/', 6, 64, 0x18);
  }

  lemma LocationTo16()
    ensures Coded(HPACK_CODE, "https://www.example.com", 16, 0x9d29ad171863c78f0b97c8e9, 96)
  {
    hide *;
    Symbols1();
    Symbols3();
    Symbols4();
    Symbols8();
    var text := "https://www.example.com";
    LocationTo8();
    var v, n := 0x274a6b45c618, 46;
    v, n := Next(text, 8, v, n, 'w', 7, 128, 0x78);
    v, n := Next(text, 9, v, n, 'w', 7, 128, 0x78);
    v, n := Next(text, 10, v, n, 'w', 7, 128, 0x78);
    v, n := Next(text, 11, v, n, '.', 6, 64, 0x17);
    v, n := Next(text, 12, v, n, 'e', 5, 32, 0x5);
    v, n := Next(text, 13, v, n, 'x', 7, 128, 0x79);
    v, n := Next(text, 14, v, n, 'a', 5, 32, 0x3);
    v, n := Next(text, 15, v, n, 'm', 6, 64, 0x29);
  }

  lemma Location()
    ensures Canonical(HPACK_CODE)
    ensures HuffmanBytes(HPACK_CODE, Ascii("https://www.example.com")) ==
            Hex(17, 0x9d29ad171863c78f0b97c8e9ae82ae43d3)
  {
    hide *;
    Symbols1();
    Symbols3();
    Symbols4();
    var text := "https://www.example.com";
    LocationTo16();
    var v, n := 0x9d29ad171863c78f0b97c8e9, 96;
    v, n := Next(text, 16, v, n, 'p', 6, 64, 0x2b);
    v, n := Next(text, 17, v, n, 'l', 6, 64, 0x28);
    v, n := Next(text, 18, v, n, 'e', 5, 32, 0x5);
    v, n := Next(text, 19, v, n, '.', 6, 64, 0x17);
    v, n := Next(text, 20, v, n, 'c', 5, 32, 0x4);
    v, n := Next(text, 21, v, n, 'o', 5, 32, 0x7);
    v, n := Next(text, 22, v, n, 'm', 6, 64, 0x29);
    Pow2Small();
    HexCoding(text, v, n, 17, 0x9d29ad171863c78f0b97c8e9ae82ae43d3, 1, 2);
  }

  lemma LaterDateTo8()
    ensures Coded(HPACK_CODE, "Mon, 21 Oct 2013 20:13:22 GMT", 8, 0xd07abe941054, 48)
  {
    hide *;
    Symbols1();
    Symbols3();
    Symbols4();
    Symbols7();
    Symbols9();
    var text := "Mon, 21 Oct 2013 20:13:22 GMT";
    var v, n := NoText(text);
    v, n := Next(text, 0, v, n, 'M', 7, 128, 0x68);
    v, n := Next(text, 1, v, n, 'o', 5, 32, 0x7);
    v, n := Next(text, 2, v, n, 'n', 6, 64, 0x2a);
    v, n := Next(text, 3, v, n, ',', 8, 256, 0xfa);
    v, n := Next(text, 4, v, n, ' ', 6, 64, 0x14);
    v, n := Next(text, 5, v, n, '2', 5, 32, 0x2);
    v, n := Next(text, 6, v, n, '1', 5, 32, 0x1);
    v, n := Next(text, 7, v, n, ' ', 6, 64, 0x14);
  }

  lemma LaterDateTo16()
    ensures Coded(HPACK_CODE, "Mon, 21 Oct 2013 20:13:22 GMT", 16, 0xd07abe941054d444a820059, 92)
  {
    hide *;
    Symbols1();
    Symbols2();
    Symbols3();
    Symbols7();
    var text := "Mon, 21 Oct 2013 20:13:22 GMT";
    LaterDateTo8();
    var v, n := 0xd07abe941054, 48;
    v, n := Next(text, 8, v, n, 'O', 7, 128, 0x6a);
    v, n := Next(text, 9, v, n, 'c', 5, 32, 0x4);
    v, n := Next(text, 10, v, n, 't', 5, 32, 0x9);
    v, n := Next(text, 11, v, n, ' ', 6, 64, 0x14);
    v, n := Next(text, 12, v, n, '2', 5, 32, 0x2);
    v, n := Next(text, 13, v, n, '0', 5, 32, 0x0);
    v, n := Next(text, 14, v, n, '1', 5, 32, 0x1);
    v, n := Next(text, 15, v, n, '3', 6, 64, 0x19);
  }

  lemma LaterDateTo24()
    ensures Coded(HPACK_CODE, "Mon, 21 Oct 2013 20:13:22 GMT", 24, 0x341eafa5041535112a0801654102e059b82, 138)
  {
    hide *;
    Symbols1();
    Symbols3();
    Symbols6();
    var text := "Mon, 21 Oct 2013 20:13:22 GMT";
    LaterDateTo16();
    var v, n := 0xd07abe941054d444a820059, 92;
    v, n := Next(text, 16, v, n, ' ', 6, 64, 0x14);
    v, n := Next(text, 17, v, n, '2', 5, 32, 0x2);
    v, n := Next(text, 18, v, n, '0', 5, 32, 0x0);
    v, n := Next(text, 19, v, n, ':', 7, 128, 0x5c);
    v, n := Next(text, 20, v, n, '1', 5, 32, 0x1);
    v, n := Next(text, 21, v, n, '3', 6, 64, 0x19);
    v, n := Next(text, 22, v, n, ':', 7, 128, 0x5c);
    v, n := Next(text, 23, v, n, '2', 5, 32, 0x2);
  }

  lemma LaterDate()
    ensures Canonical(HPACK_CODE)
    ensures HuffmanBytes(HPACK_CODE, Ascii("Mon, 21 Oct 2013 20:13:22 GMT")) ==
            Hex(22, 0xd07abe941054d444a8200595040b8166e084a62d1bff)
  {
    hide *;
    Symbols1();
    Symbols3();
    Symbols6();
    Symbols7();
    var text := "Mon, 21 Oct 2013 20:13:22 GMT";
    LaterDateTo24();
    var v, n := 0x341eafa5041535112a0801654102e059b82, 138;
    v, n := Next(text, 24, v, n, '2', 5, 32, 0x2);
    v, n := Next(text, 25, v, n, ' ', 6, 64, 0x14);
    v, n := Next(text, 26, v, n, 'G', 7, 128, 0x62);
    v, n := Next(text, 27, v, n, 'M', 7, 128, 0x68);
    v, n := Next(text, 28, v, n, 'T', 7, 128, 0x6f);
    Pow2Small();
    HexCoding(text, v, n, 22, 0xd07abe941054d444a8200595040b8166e084a62d1bff, 6, 64);
  }

  lemma Gzip()
    ensures Canonical(HPACK_CODE)
    ensures HuffmanBytes(HPACK_CODE, Ascii("gzip")) ==
            Hex(3, 0x9bd9ab)
  {
    hide *;
    Symbols1();
    Symbols4();
    Symbols8();
    var text := "gzip";
    var v, n := NoText(text);
    v, n := Next(text, 0, v, n, 'g', 6, 64, 0x26);
    v, n := Next(text, 1, v, n, 'z', 7, 128, 0x7b);
    v, n := Next(text, 2, v, n, 'i', 5, 32, 0x6);
    v, n := Next(text, 3, v, n, 'p', 6, 64, 0x2b);
    Pow2Small();
    HexCoding(text, v, n, 3, 0x9bd9ab, 0, 1);
  }

  /** The set-cookie value of Appendix C.6.3, eight characters at a time. */
  function Part(i: nat): (s: string)
    requires i < 7
  {
    match i
    case 0 => "foo=ASDJ"
    case 1 => "KHQKBZXO"
    case 2 => "QWEOPIUA"
    case 3 => "XQWEOIU;"
    case 4 => " max-age"
    case 5 => "=3600; v"
    case 6 => "ersion=1"
  }

  lemma PartsHaveEight(i: nat)
    requires i < 7
    ensures |Part(i)| == 8
  {
  }

  function CookieText(): (s: string) {
    Part(0) + Part(1) + Part(2) + Part(3) + Part(4) + Part(5) + Part(6)
  }

  lemma CookieParts()
    ensures |CookieText()| == 56
    ensures forall i :: 0 <= i < 7 ==> |Part(i)| == 8 && CookieText()[8 * i..8 * i + 8] == Part(i)
  {
    hide Part;
    PartsHaveEight(0);
    PartsHaveEight(1);
    PartsHaveEight(2);
    PartsHaveEight(3);
    PartsHaveEight(4);
    PartsHaveEight(5);
    PartsHaveEight(6);
  }

  /** The next character, given the part of the text it is in. */
  lemma NextIn(text: string, j: nat, i: nat, v: int, n: nat, c: char, l: nat, m: nat, w: nat) returns (v': int, n': nat)
    requires j < 7 && |text| == 56 && text[8 * j..8 * j + 8] == Part(j) && |Part(j)| == 8 && i < 8 && Part(j)[i] == c
    requires Coded(HPACK_CODE, text, 8 * j + i, v, n) && IsCode(c, l, m, w)
    ensures v' == m * v + w && n' == n + l && Coded(HPACK_CODE, text, 8 * j + i + 1, v', n')
  {
    hide *;
    assert text[8 * j..8 * j + 8][i] == text[8 * j + i];
    v', n' := Next(text, 8 * j + i, v, n, c, l, m, w);
  }

  lemma Cookie0(text: string)
    requires |text| == 56 && text[0..8] == Part(0)
    ensures Coded(HPACK_CODE, text, 8, 0x129cf043bafe5, 49)
  {
    hide *;
    Part0();
    Symbols1();
    Symbols3();
    Symbols4();
    Symbols6();
    Symbols7();
    var v, n := NoText(text);
    v, n := NextIn(text, 0, 0, v, n, 'f', 6, 64, 0x25);
    v, n := NextIn(text, 0, 1, v, n, 'o', 5, 32, 0x7);
    v, n := NextIn(text, 0, 2, v, n, 'o', 5, 32, 0x7);
    v, n := NextIn(text, 0, 3, v, n, '=', 6, 64, 0x20);
    v, n := NextIn(text, 0, 4, v, n, 'A', 6, 64, 0x21);
    v, n := NextIn(text, 0, 5, v, n, 'S', 7, 128, 0x6e);
    v, n := NextIn(text, 0, 6, v, n, 'D', 7, 128, 0x5f);
    v, n := NextIn(text, 0, 7, v, n, 'J', 7, 128, 0x65);
  }

  lemma Part0()
    ensures |Part(0)| == 8
    ensures Part(0)[0] == 'f' && Part(0)[1] == 'o' && Part(0)[2] == 'o' && Part(0)[3] == '='
    ensures Part(0)[4] == 'A' && Part(0)[5] == 'S' && Part(0)[6] == 'D' && Part(0)[7] == 'J'
  {
  }

  lemma Cookie1(text: string)
    requires |text| == 56 && text[8..16] == Part(1)
    requires Coded(HPACK_CODE, text, 8, 0x129cf043bafe5, 49)
    ensures Coded(HPACK_CODE, text, 16, 0x4a73c10eebf97363d99aefefe6a, 107)
  {
    hide *;
    Part1();
    Symbols6();
    Symbols7();
    Symbols9();
    var v, n := 0x129cf043bafe5, 49;
    v, n := NextIn(text, 1, 0, v, n, 'K', 7, 128, 0x66);
    v, n := NextIn(text, 1, 1, v, n, 'H', 7, 128, 0x63);
    v, n := NextIn(text, 1, 2, v, n, 'Q', 7, 128, 0x6c);
    v, n := NextIn(text, 1, 3, v, n, 'K', 7, 128, 0x66);
    v, n := NextIn(text, 1, 4, v, n, 'B', 7, 128, 0x5d);
    v, n := NextIn(text, 1, 5, v, n, 'Z', 8, 256, 0xfd);
    v, n := NextIn(text, 1, 6, v, n, 'X', 8, 256, 0xfc);
    v, n := NextIn(text, 1, 7, v, n, 'O', 7, 128, 0x6a);
  }

  lemma Part1()
    ensures |Part(1)| == 8
    ensures Part(1)[0] == 'K' && Part(1)[1] == 'H' && Part(1)[2] == 'Q' && Part(1)[3] == 'K'
    ensures Part(1)[4] == 'B' && Part(1)[5] == 'Z' && Part(1)[6] == 'X' && Part(1)[7] == 'O'
  {
  }

  lemma Cookie2(text: string)
    requires |text| == 56 && text[16..24] == Part(2)
    requires Coded(HPACK_CODE, text, 16, 0x4a73c10eebf97363d99aefefe6a, 107)
    ensures Coded(HPACK_CODE, text, 24, 0x2539e08775fcb9b1eccd77f7f356ce58356bc9c21, 162)
  {
    hide *;
    Part2();
    Symbols4();
    Symbols6();
    Symbols7();
    Symbols8();
    var v, n := 0x4a73c10eebf97363d99aefefe6a, 107;
    v, n := NextIn(text, 2, 0, v, n, 'Q', 7, 128, 0x6c);
    v, n := NextIn(text, 2, 1, v, n, 'W', 7, 128, 0x72);
    v, n := NextIn(text, 2, 2, v, n, 'E', 7, 128, 0x60);
    v, n := NextIn(text, 2, 3, v, n, 'O', 7, 128, 0x6a);
    v, n := NextIn(text, 2, 4, v, n, 'P', 7, 128, 0x6b);
    v, n := NextIn(text, 2, 5, v, n, 'I', 7, 128, 0x64);
    v, n := NextIn(text, 2, 6, v, n, 'U', 7, 128, 0x70);
    v, n := NextIn(text, 2, 7, v, n, 'A', 6, 64, 0x21);
  }

  lemma Part2()
    ensures |Part(2)| == 8
    ensures Part(2)[0] == 'Q' && Part(2)[1] == 'W' && Part(2)[2] == 'E' && Part(2)[3] == 'O'
    ensures Part(2)[4] == 'P' && Part(2)[5] == 'I' && Part(2)[6] == 'U' && Part(2)[7] == 'A'
  {
  }

  lemma Cookie3(text: string)
    requires |text| == 56 && text[24..32] == Part(3)
    requires Coded(HPACK_CODE, text, 24, 0x2539e08775fcb9b1eccd77f7f356ce58356bc9c21, 162)
    ensures Coded(HPACK_CODE, text, 32, 0x94e7821dd7f2e6c7b335dfdfcd5b3960d5af27087f3672c1ab270fb, 220)
  {
    hide *;
    Part3();
    Symbols6();
    Symbols7();
    Symbols8();
    Symbols9();
    var v, n := 0x2539e08775fcb9b1eccd77f7f356ce58356bc9c21, 162;
    v, n := NextIn(text, 3, 0, v, n, 'X', 8, 256, 0xfc);
    v, n := NextIn(text, 3, 1, v, n, 'Q', 7, 128, 0x6c);
    v, n := NextIn(text, 3, 2, v, n, 'W', 7, 128, 0x72);
    v, n := NextIn(text, 3, 3, v, n, 'E', 7, 128, 0x60);
    v, n := NextIn(text, 3, 4, v, n, 'O', 7, 128, 0x6a);
    v, n := NextIn(text, 3, 5, v, n, 'I', 7, 128, 0x64);
    v, n := NextIn(text, 3, 6, v, n, 'U', 7, 128, 0x70);
    v, n := NextIn(text, 3, 7, v, n, ';', 8, 256, 0xfb);
  }

  lemma Part3()
    ensures |Part(3)| == 8
    ensures Part(3)[0] == 'X' && Part(3)[1] == 'Q' && Part(3)[2] == 'W' && Part(3)[3] == 'E'
    ensures Part(3)[4] == 'O' && Part(3)[5] == 'I' && Part(3)[6] == 'U' && Part(3)[7] == ';'
  {
  }

  lemma Cookie4(text: string)
    requires |text| == 56 && text[32..40] == Part(4)
    requires Coded(HPACK_CODE, text, 32, 0x94e7821dd7f2e6c7b335dfdfcd5b3960d5af27087f3672c1ab270fb, 220)
    ensures Coded(HPACK_CODE, text, 40, 0x2539e08775fcb9b1eccd77f7f356ce58356bc9c21fcd9cb06ac9c3ed4a47e561cc5, 266)
  {
    hide *;
    Part4();
    Symbols1();
    Symbols3();
    Symbols4();
    Symbols8();
    var v, n := 0x94e7821dd7f2e6c7b335dfdfcd5b3960d5af27087f3672c1ab270fb, 220;
    v, n := NextIn(text, 4, 0, v, n, ' ', 6, 64, 0x14);
    v, n := NextIn(text, 4, 1, v, n, 'm', 6, 64, 0x29);
    v, n := NextIn(text, 4, 2, v, n, 'a', 5, 32, 0x3);
    v, n := NextIn(text, 4, 3, v, n, 'x', 7, 128, 0x79);
    v, n := NextIn(text, 4, 4, v, n, '-', 6, 64, 0x16);
    v, n := NextIn(text, 4, 5, v, n, 'a', 5, 32, 0x3);
    v, n := NextIn(text, 4, 6, v, n, 'g', 6, 64, 0x26);
    v, n := NextIn(text, 4, 7, v, n, 'e', 5, 32, 0x5);
  }

  lemma Part4()
    ensures |Part(4)| == 8
    ensures Part(4)[0] == ' ' && Part(4)[1] == 'm' && Part(4)[2] == 'a' && Part(4)[3] == 'x'
    ensures Part(4)[4] == '-' && Part(4)[5] == 'a' && Part(4)[6] == 'g' && Part(4)[7] == 'e'
  {
  }

  lemma Cookie5(text: string)
    requires |text| == 56 && text[40..48] == Part(5)
    requires Coded(HPACK_CODE, text, 40, 0x2539e08775fcb9b1eccd77f7f356ce58356bc9c21fcd9cb06ac9c3ed4a47e561cc5, 266)
    ensures Coded(HPACK_CODE, text, 48, 0x4a73c10eebf97363d99aefefe6ad9cb06ad793843f9b3960d59387da948fcac398b032e001f6a77, 315)
  {
    hide *;
    Part5();
    Symbols1();
    Symbols3();
    Symbols8();
    Symbols9();
    var v, n := 0x2539e08775fcb9b1eccd77f7f356ce58356bc9c21fcd9cb06ac9c3ed4a47e561cc5, 266;
    v, n := NextIn(text, 5, 0, v, n, '=', 6, 64, 0x20);
    v, n := NextIn(text, 5, 1, v, n, '3', 6, 64, 0x19);
    v, n := NextIn(text, 5, 2, v, n, '6', 6, 64, 0x1c);
    v, n := NextIn(text, 5, 3, v, n, '0', 5, 32, 0x0);
    v, n := NextIn(text, 5, 4, v, n, '0', 5, 32, 0x0);
    v, n := NextIn(text, 5, 5, v, n, ';', 8, 256, 0xfb);
    v, n := NextIn(text, 5, 6, v, n, ' ', 6, 64, 0x14);
    v, n := NextIn(text, 5, 7, v, n, 'v', 7, 128, 0x77);
  }

  lemma Part5()
    ensures |Part(5)| == 8
    ensures Part(5)[0] == '=' && Part(5)[1] == '3' && Part(5)[2] == '6' && Part(5)[3] == '0'
    ensures Part(5)[4] == '0' && Part(5)[5] == ';' && Part(5)[6] == ' ' && Part(5)[7] == 'v'
  {
  }

  lemma Cookie6(text: string)
    requires |text| == 56 && text[48..56] == Part(6)
    requires Coded(HPACK_CODE, text, 48, 0x4a73c10eebf97363d99aefefe6ad9cb06ad793843f9b3960d59387da948fcac398b032e001f6a77, 315)
    ensures Coded(HPACK_CODE, text, 56,
              0x2539e08775fcb9b1eccd77f7f356ce58356bc9c21fcd9cb06ac9c3ed4a47e561cc58197000fb53b96c418f5401, 358)
  {
    hide *;
    Part6();
    Symbols1();
    Symbols2();
    Symbols3();
    Symbols4();
    Symbols5();
    var v, n := 0x4a73c10eebf97363d99aefefe6ad9cb06ad793843f9b3960d59387da948fcac398b032e001f6a77, 315;
    v, n := NextIn(text, 6, 0, v, n, 'e', 5, 32, 0x5);
    v, n := NextIn(text, 6, 1, v, n, 'r', 6, 64, 0x2c);
    v, n := NextIn(text, 6, 2, v, n, 's', 5, 32, 0x8);
    v, n := NextIn(text, 6, 3, v, n, 'i', 5, 32, 0x6);
    v, n := NextIn(text, 6, 4, v, n, 'o', 5, 32, 0x7);
    v, n := NextIn(text, 6, 5, v, n, 'n', 6, 64, 0x2a);
    v, n := NextIn(text, 6, 6, v, n, '=', 6, 64, 0x20);
    v, n := NextIn(text, 6, 7, v, n, '1', 5, 32, 0x1);
  }

  lemma Part6()
    ensures |Part(6)| == 8
    ensures Part(6)[0] == 'e' && Part(6)[1] == 'r' && Part(6)[2] == 's' && Part(6)[3] == 'i'
    ensures Part(6)[4] == 'o' && Part(6)[5] == 'n' && Part(6)[6] == '=' && Part(6)[7] == '1'
  {
  }

  lemma Cookie()
    ensures Canonical(HPACK_CODE)
    ensures HuffmanBytes(HPACK_CODE, Ascii(CookieText())) ==
            Hex(45, 0x94e7821dd7f2e6c7b335dfdfcd5b3960d5af27087f3672c1ab270fb5291f9587316065c003ed4ee5b1063d5007)
  {
    hide *;
    var text := CookieText();
    CookieParts();
    Cookie0(text);
    Cookie1(text);
    Cookie2(text);
    Cookie3(text);
    Cookie4(text);
    Cookie5(text);
    Cookie6(text);
    Pow2Small();
    HexCoding(text, 0x2539e08775fcb9b1eccd77f7f356ce58356bc9c21fcd9cb06ac9c3ed4a47e561cc58197000fb53b96c418f5401, 358, 45,
      0x94e7821dd7f2e6c7b335dfdfcd5b3960d5af27087f3672c1ab270fb5291f9587316065c003ed4ee5b1063d5007, 2, 4);
  }
}
