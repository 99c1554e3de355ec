/** The example of appendix C.3 of FIPS 197: the key 00 01 02 .. 1f, its schedule, and the block 00 11 22 .. ff
    round by round. */
module AesExample {
  import opened AesField
  import opened AesCipher
  import opened Aes256

  ghost predicate ExampleKey(key: seq<bv8>) {
    && |key| == 32 && forall i: nat :: i < 8 ==> key[4 * i..4 * i + 4] == Bytes(FirstWord(i))
  }

  function FirstWord(i: nat): Column {
    match i
    case 0 => (0x00, 0x01, 0x02, 0x03)
    case 1 => (0x04, 0x05, 0x06, 0x07)
    case 2 => (0x08, 0x09, 0x0a, 0x0b)
    case 3 => (0x0c, 0x0d, 0x0e, 0x0f)
    case 4 => (0x10, 0x11, 0x12, 0x13)
    case 5 => (0x14, 0x15, 0x16, 0x17)
    case 6 => (0x18, 0x19, 0x1a, 0x1b)
    case _ => (0x1c, 0x1d, 0x1e, 0x1f)
  }

  /** What is added to the word eight before, from the last word. */
  function TempColumn(i: nat, last: Column): Column
    requires i >= 8
  {
    if i % 8 == 0 then (Xor(Sbox(last.1), PowerOfX(i / 8 - 1)), Sbox(last.2), Sbox(last.3), Sbox(last.0))
    else if i % 8 == 4 then LookedUp(last)
    else last
  }

  lemma {:induction false} TempColumnIs(i: nat, last: Column)
    requires 8 <= i < 60
    ensures Temp(Bytes(last), i) == Bytes(TempColumn(i, last))
  {
    var t := Temp(Bytes(last), i);
    TempByte(Bytes(last), i, 0);
    TempByte(Bytes(last), i, 1);
    TempByte(Bytes(last), i, 2);
    TempByte(Bytes(last), i, 3);
    if i % 8 == 0 {
      assert PowerOfX(i / 8 - 1) == Xor(PowerOfX(i / 8 - 1), 0);
    }
    assert t == [t[0], t[1], t[2], t[3]];
  }

  lemma XorWordsAdd(a: Column, b: Column)
    ensures XorWords(Bytes(a), Bytes(b)) == Bytes(Added(a, b))
  {
  }

  lemma {:induction false} NextColumnIs(key: seq<bv8>, i: nat, last: Column, before: Column)
    requires |key| == 32 && 8 <= i < 60 && Word(key, i - 1) == Bytes(last) && Word(key, i - 8) == Bytes(before)
    ensures Word(key, i) == Bytes(Added(before, TempColumn(i, last)))
  {
    NextWordIs(key, i, Bytes(last), Bytes(before));
    TempColumnIs(i, last);
    XorWordsAdd(before, TempColumn(i, last));
  }

  lemma {:induction false} FirstWordIs(key: seq<bv8>, i: nat)
    requires ExampleKey(key) && i < 8
    ensures Word(key, i) == Bytes(FirstWord(i))
  {
  }

  lemma {:induction false} FirstWords(key: seq<bv8>)
    requires ExampleKey(key)
    ensures Word(key, 0) == Bytes((0x00, 0x01, 0x02, 0x03))
    ensures Word(key, 1) == Bytes((0x04, 0x05, 0x06, 0x07))
    ensures Word(key, 2) == Bytes((0x08, 0x09, 0x0a, 0x0b))
    ensures Word(key, 3) == Bytes((0x0c, 0x0d, 0x0e, 0x0f))
    ensures Word(key, 4) == Bytes((0x10, 0x11, 0x12, 0x13))
    ensures Word(key, 5) == Bytes((0x14, 0x15, 0x16, 0x17))
    ensures Word(key, 6) == Bytes((0x18, 0x19, 0x1a, 0x1b))
    ensures Word(key, 7) == Bytes((0x1c, 0x1d, 0x1e, 0x1f))
  {
    FirstWordIs(key, 0);
    FirstWordIs(key, 1);
    FirstWordIs(key, 2);
    FirstWordIs(key, 3);
    FirstWordIs(key, 4);
    FirstWordIs(key, 5);
    FirstWordIs(key, 6);
    FirstWordIs(key, 7);
  }

  lemma Temp8()
    ensures TempColumn(8, (0x1c, 0x1d, 0x1e, 0x1f)) == (0xa5, 0x72, 0xc0, 0x9c)
  {
  }

  lemma {:induction false} Words8To11(key: seq<bv8>)
    requires ExampleKey(key)
    ensures Word(key, 8) == Bytes((0xa5, 0x73, 0xc2, 0x9f))
    ensures Word(key, 9) == Bytes((0xa1, 0x76, 0xc4, 0x98))
    ensures Word(key, 10) == Bytes((0xa9, 0x7f, 0xce, 0x93))
    ensures Word(key, 11) == Bytes((0xa5, 0x72, 0xc0, 0x9c))
  {
    FirstWords(key);
    Temp8();
    NextColumnIs(key, 8, (0x1c, 0x1d, 0x1e, 0x1f), (0x00, 0x01, 0x02, 0x03));
    NextColumnIs(key, 9, (0xa5, 0x73, 0xc2, 0x9f), (0x04, 0x05, 0x06, 0x07));
    NextColumnIs(key, 10, (0xa1, 0x76, 0xc4, 0x98), (0x08, 0x09, 0x0a, 0x0b));
    NextColumnIs(key, 11, (0xa9, 0x7f, 0xce, 0x93), (0x0c, 0x0d, 0x0e, 0x0f));
  }

  lemma Temp12()
    ensures TempColumn(12, (0xa5, 0x72, 0xc0, 0x9c)) == (0x06, 0x40, 0xba, 0xde)
  {
  }

  lemma {:induction false} Words12To15(key: seq<bv8>)
    requires ExampleKey(key)
    ensures Word(key, 12) == Bytes((0x16, 0x51, 0xa8, 0xcd))
    ensures Word(key, 13) == Bytes((0x02, 0x44, 0xbe, 0xda))
    ensures Word(key, 14) == Bytes((0x1a, 0x5d, 0xa4, 0xc1))
    ensures Word(key, 15) == Bytes((0x06, 0x40, 0xba, 0xde))
  {
    FirstWords(key);
    Words8To11(key);
    Temp12();
    NextColumnIs(key, 12, (0xa5, 0x72, 0xc0, 0x9c), (0x10, 0x11, 0x12, 0x13));
    NextColumnIs(key, 13, (0x16, 0x51, 0xa8, 0xcd), (0x14, 0x15, 0x16, 0x17));
    NextColumnIs(key, 14, (0x02, 0x44, 0xbe, 0xda), (0x18, 0x19, 0x1a, 0x1b));
    NextColumnIs(key, 15, (0x1a, 0x5d, 0xa4, 0xc1), (0x1c, 0x1d, 0x1e, 0x1f));
  }

  lemma Temp16()
    ensures TempColumn(16, (0x06, 0x40, 0xba, 0xde)) == (0x0b, 0xf4, 0x1d, 0x6f)
  {
  }

  lemma {:induction false} Words16To19(key: seq<bv8>)
    requires ExampleKey(key)
    ensures Word(key, 16) == Bytes((0xae, 0x87, 0xdf, 0xf0))
    ensures Word(key, 17) == Bytes((0x0f, 0xf1, 0x1b, 0x68))
    ensures Word(key, 18) == Bytes((0xa6, 0x8e, 0xd5, 0xfb))
    ensures Word(key, 19) == Bytes((0x03, 0xfc, 0x15, 0x67))
  {
    Words8To11(key);
    Words12To15(key);
    Temp16();
    NextColumnIs(key, 16, (0x06, 0x40, 0xba, 0xde), (0xa5, 0x73, 0xc2, 0x9f));
    NextColumnIs(key, 17, (0xae, 0x87, 0xdf, 0xf0), (0xa1, 0x76, 0xc4, 0x98));
    NextColumnIs(key, 18, (0x0f, 0xf1, 0x1b, 0x68), (0xa9, 0x7f, 0xce, 0x93));
    NextColumnIs(key, 19, (0xa6, 0x8e, 0xd5, 0xfb), (0xa5, 0x72, 0xc0, 0x9c));
  }

  lemma Temp20()
    ensures TempColumn(20, (0x03, 0xfc, 0x15, 0x67)) == (0x7b, 0xb0, 0x59, 0x85)
  {
  }

  lemma {:induction false} Words20To23(key: seq<bv8>)
    requires ExampleKey(key)
    ensures Word(key, 20) == Bytes((0x6d, 0xe1, 0xf1, 0x48))
    ensures Word(key, 21) == Bytes((0x6f, 0xa5, 0x4f, 0x92))
    ensures Word(key, 22) == Bytes((0x75, 0xf8, 0xeb, 0x53))
    ensures Word(key, 23) == Bytes((0x73, 0xb8, 0x51, 0x8d))
  {
    Words12To15(key);
    Words16To19(key);
    Temp20();
    NextColumnIs(key, 20, (0x03, 0xfc, 0x15, 0x67), (0x16, 0x51, 0xa8, 0xcd));
    NextColumnIs(key, 21, (0x6d, 0xe1, 0xf1, 0x48), (0x02, 0x44, 0xbe, 0xda));
    NextColumnIs(key, 22, (0x6f, 0xa5, 0x4f, 0x92), (0x1a, 0x5d, 0xa4, 0xc1));
    NextColumnIs(key, 23, (0x75, 0xf8, 0xeb, 0x53), (0x06, 0x40, 0xba, 0xde));
  }

  lemma Temp24()
    ensures TempColumn(24, (0x73, 0xb8, 0x51, 0x8d)) == (0x68, 0xd1, 0x5d, 0x8f)
  {
  }

  lemma {:induction false} Words24To27(key: seq<bv8>)
    requires ExampleKey(key)
    ensures Word(key, 24) == Bytes((0xc6, 0x56, 0x82, 0x7f))
    ensures Word(key, 25) == Bytes((0xc9, 0xa7, 0x99, 0x17))
    ensures Word(key, 26) == Bytes((0x6f, 0x29, 0x4c, 0xec))
    ensures Word(key, 27) == Bytes((0x6c, 0xd5, 0x59, 0x8b))
  {
    Words16To19(key);
    Words20To23(key);
    Temp24();
    NextColumnIs(key, 24, (0x73, 0xb8, 0x51, 0x8d), (0xae, 0x87, 0xdf, 0xf0));
    NextColumnIs(key, 25, (0xc6, 0x56, 0x82, 0x7f), (0x0f, 0xf1, 0x1b, 0x68));
    NextColumnIs(key, 26, (0xc9, 0xa7, 0x99, 0x17), (0xa6, 0x8e, 0xd5, 0xfb));
    NextColumnIs(key, 27, (0x6f, 0x29, 0x4c, 0xec), (0x03, 0xfc, 0x15, 0x67));
  }

  lemma Temp28()
    ensures TempColumn(28, (0x6c, 0xd5, 0x59, 0x8b)) == (0x50, 0x03, 0xcb, 0x3d)
  {
  }

  lemma {:induction false} Words28To31(key: seq<bv8>)
    requires ExampleKey(key)
    ensures Word(key, 28) == Bytes((0x3d, 0xe2, 0x3a, 0x75))
    ensures Word(key, 29) == Bytes((0x52, 0x47, 0x75, 0xe7))
    ensures Word(key, 30) == Bytes((0x27, 0xbf, 0x9e, 0xb4))
    ensures Word(key, 31) == Bytes((0x54, 0x07, 0xcf, 0x39))
  {
    Words20To23(key);
    Words24To27(key);
    Temp28();
    NextColumnIs(key, 28, (0x6c, 0xd5, 0x59, 0x8b), (0x6d, 0xe1, 0xf1, 0x48));
    NextColumnIs(key, 29, (0x3d, 0xe2, 0x3a, 0x75), (0x6f, 0xa5, 0x4f, 0x92));
    NextColumnIs(key, 30, (0x52, 0x47, 0x75, 0xe7), (0x75, 0xf8, 0xeb, 0x53));
    NextColumnIs(key, 31, (0x27, 0xbf, 0x9e, 0xb4), (0x73, 0xb8, 0x51, 0x8d));
  }

  lemma Temp32()
    ensures TempColumn(32, (0x54, 0x07, 0xcf, 0x39)) == (0xcd, 0x8a, 0x12, 0x20)
  {
  }

  lemma {:induction false} Words32To35(key: seq<bv8>)
    requires ExampleKey(key)
    ensures Word(key, 32) == Bytes((0x0b, 0xdc, 0x90, 0x5f))
    ensures Word(key, 33) == Bytes((0xc2, 0x7b, 0x09, 0x48))
    ensures Word(key, 34) == Bytes((0xad, 0x52, 0x45, 0xa4))
    ensures Word(key, 35) == Bytes((0xc1, 0x87, 0x1c, 0x2f))
  {
    Words24To27(key);
    Words28To31(key);
    Temp32();
    NextColumnIs(key, 32, (0x54, 0x07, 0xcf, 0x39), (0xc6, 0x56, 0x82, 0x7f));
    NextColumnIs(key, 33, (0x0b, 0xdc, 0x90, 0x5f), (0xc9, 0xa7, 0x99, 0x17));
    NextColumnIs(key, 34, (0xc2, 0x7b, 0x09, 0x48), (0x6f, 0x29, 0x4c, 0xec));
    NextColumnIs(key, 35, (0xad, 0x52, 0x45, 0xa4), (0x6c, 0xd5, 0x59, 0x8b));
  }

  lemma Temp36()
    ensures TempColumn(36, (0xc1, 0x87, 0x1c, 0x2f)) == (0x78, 0x17, 0x9c, 0x15)
  {
  }

  lemma {:induction false} Words36To39(key: seq<bv8>)
    requires ExampleKey(key)
    ensures Word(key, 36) == Bytes((0x45, 0xf5, 0xa6, 0x60))
    ensures Word(key, 37) == Bytes((0x17, 0xb2, 0xd3, 0x87))
    ensures Word(key, 38) == Bytes((0x30, 0x0d, 0x4d, 0x33))
    ensures Word(key, 39) == Bytes((0x64, 0x0a, 0x82, 0x0a))
  {
    Words28To31(key);
    Words32To35(key);
    Temp36();
    NextColumnIs(key, 36, (0xc1, 0x87, 0x1c, 0x2f), (0x3d, 0xe2, 0x3a, 0x75));
    NextColumnIs(key, 37, (0x45, 0xf5, 0xa6, 0x60), (0x52, 0x47, 0x75, 0xe7));
    NextColumnIs(key, 38, (0x17, 0xb2, 0xd3, 0x87), (0x27, 0xbf, 0x9e, 0xb4));
    NextColumnIs(key, 39, (0x30, 0x0d, 0x4d, 0x33), (0x54, 0x07, 0xcf, 0x39));
  }

  lemma Temp40()
    ensures TempColumn(40, (0x64, 0x0a, 0x82, 0x0a)) == (0x77, 0x13, 0x67, 0x43)
  {
  }

  lemma {:induction false} Words40To43(key: seq<bv8>)
    requires ExampleKey(key)
    ensures Word(key, 40) == Bytes((0x7c, 0xcf, 0xf7, 0x1c))
    ensures Word(key, 41) == Bytes((0xbe, 0xb4, 0xfe, 0x54))
    ensures Word(key, 42) == Bytes((0x13, 0xe6, 0xbb, 0xf0))
    ensures Word(key, 43) == Bytes((0xd2, 0x61, 0xa7, 0xdf))
  {
    Words32To35(key);
    Words36To39(key);
    Temp40();
    NextColumnIs(key, 40, (0x64, 0x0a, 0x82, 0x0a), (0x0b, 0xdc, 0x90, 0x5f));
    NextColumnIs(key, 41, (0x7c, 0xcf, 0xf7, 0x1c), (0xc2, 0x7b, 0x09, 0x48));
    NextColumnIs(key, 42, (0xbe, 0xb4, 0xfe, 0x54), (0xad, 0x52, 0x45, 0xa4));
    NextColumnIs(key, 43, (0x13, 0xe6, 0xbb, 0xf0), (0xc1, 0x87, 0x1c, 0x2f));
  }

  lemma Temp44()
    ensures TempColumn(44, (0xd2, 0x61, 0xa7, 0xdf)) == (0xb5, 0xef, 0x5c, 0x9e)
  {
  }

  lemma {:induction false} Words44To47(key: seq<bv8>)
    requires ExampleKey(key)
    ensures Word(key, 44) == Bytes((0xf0, 0x1a, 0xfa, 0xfe))
    ensures Word(key, 45) == Bytes((0xe7, 0xa8, 0x29, 0x79))
    ensures Word(key, 46) == Bytes((0xd7, 0xa5, 0x64, 0x4a))
    ensures Word(key, 47) == Bytes((0xb3, 0xaf, 0xe6, 0x40))
  {
    Words36To39(key);
    Words40To43(key);
    Temp44();
    NextColumnIs(key, 44, (0xd2, 0x61, 0xa7, 0xdf), (0x45, 0xf5, 0xa6, 0x60));
    NextColumnIs(key, 45, (0xf0, 0x1a, 0xfa, 0xfe), (0x17, 0xb2, 0xd3, 0x87));
    NextColumnIs(key, 46, (0xe7, 0xa8, 0x29, 0x79), (0x30, 0x0d, 0x4d, 0x33));
    NextColumnIs(key, 47, (0xd7, 0xa5, 0x64, 0x4a), (0x64, 0x0a, 0x82, 0x0a));
  }

  lemma Temp48()
    ensures TempColumn(48, (0xb3, 0xaf, 0xe6, 0x40)) == (0x59, 0x8e, 0x09, 0x6d)
  {
  }

  lemma {:induction false} Words48To51(key: seq<bv8>)
    requires ExampleKey(key)
    ensures Word(key, 48) == Bytes((0x25, 0x41, 0xfe, 0x71))
    ensures Word(key, 49) == Bytes((0x9b, 0xf5, 0x00, 0x25))
    ensures Word(key, 50) == Bytes((0x88, 0x13, 0xbb, 0xd5))
    ensures Word(key, 51) == Bytes((0x5a, 0x72, 0x1c, 0x0a))
  {
    Words40To43(key);
    Words44To47(key);
    Temp48();
    NextColumnIs(key, 48, (0xb3, 0xaf, 0xe6, 0x40), (0x7c, 0xcf, 0xf7, 0x1c));
    NextColumnIs(key, 49, (0x25, 0x41, 0xfe, 0x71), (0xbe, 0xb4, 0xfe, 0x54));
    NextColumnIs(key, 50, (0x9b, 0xf5, 0x00, 0x25), (0x13, 0xe6, 0xbb, 0xf0));
    NextColumnIs(key, 51, (0x88, 0x13, 0xbb, 0xd5), (0xd2, 0x61, 0xa7, 0xdf));
  }

  lemma Temp52()
    ensures TempColumn(52, (0x5a, 0x72, 0x1c, 0x0a)) == (0xbe, 0x40, 0x9c, 0x67)
  {
  }

  lemma {:induction false} Words52To55(key: seq<bv8>)
    requires ExampleKey(key)
    ensures Word(key, 52) == Bytes((0x4e, 0x5a, 0x66, 0x99))
    ensures Word(key, 53) == Bytes((0xa9, 0xf2, 0x4f, 0xe0))
    ensures Word(key, 54) == Bytes((0x7e, 0x57, 0x2b, 0xaa))
    ensures Word(key, 55) == Bytes((0xcd, 0xf8, 0xcd, 0xea))
  {
    Words44To47(key);
    Words48To51(key);
    Temp52();
    NextColumnIs(key, 52, (0x5a, 0x72, 0x1c, 0x0a), (0xf0, 0x1a, 0xfa, 0xfe));
    NextColumnIs(key, 53, (0x4e, 0x5a, 0x66, 0x99), (0xe7, 0xa8, 0x29, 0x79));
    NextColumnIs(key, 54, (0xa9, 0xf2, 0x4f, 0xe0), (0xd7, 0xa5, 0x64, 0x4a));
    NextColumnIs(key, 55, (0x7e, 0x57, 0x2b, 0xaa), (0xb3, 0xaf, 0xe6, 0x40));
  }

  lemma Temp56()
    ensures TempColumn(56, (0xcd, 0xf8, 0xcd, 0xea)) == (0x01, 0xbd, 0x87, 0xbd)
  {
  }

  lemma {:induction false} Words56To59(key: seq<bv8>)
    requires ExampleKey(key)
    ensures Word(key, 56) == Bytes((0x24, 0xfc, 0x79, 0xcc))
    ensures Word(key, 57) == Bytes((0xbf, 0x09, 0x79, 0xe9))
    ensures Word(key, 58) == Bytes((0x37, 0x1a, 0xc2, 0x3c))
    ensures Word(key, 59) == Bytes((0x6d, 0x68, 0xde, 0x36))
  {
    Words48To51(key);
    Words52To55(key);
    Temp56();
    NextColumnIs(key, 56, (0xcd, 0xf8, 0xcd, 0xea), (0x25, 0x41, 0xfe, 0x71));
    NextColumnIs(key, 57, (0x24, 0xfc, 0x79, 0xcc), (0x9b, 0xf5, 0x00, 0x25));
    NextColumnIs(key, 58, (0xbf, 0x09, 0x79, 0xe9), (0x88, 0x13, 0xbb, 0xd5));
    NextColumnIs(key, 59, (0x37, 0x1a, 0xc2, 0x3c), (0x5a, 0x72, 0x1c, 0x0a));
  }

  lemma {:induction false} KeyOfRound(key: seq<bv8>, w: Schedule, n: nat, k0: Column, k1: Column, k2: Column,
                                      k3: Column)
    requires |key| == 32 && ExpandedTo(key, w, 60) && n <= 14
    requires Word(key, 4 * n) == Bytes(k0) && Word(key, 4 * n + 1) == Bytes(k1)
    requires Word(key, 4 * n + 2) == Bytes(k2) && Word(key, 4 * n + 3) == Bytes(k3)
    ensures RoundKey(w, n) == BlockOf(k0, k1, k2, k3)
  {
    KeyColumn(key, w, n, 0, k0);
    KeyColumn(key, w, n, 1, k1);
    KeyColumn(key, w, n, 2, k2);
    KeyColumn(key, w, n, 3, k3);
    BlockIs(RoundKey(w, n), k0, k1, k2, k3);
  }

  lemma {:induction false} KeyColumn(key: seq<bv8>, w: Schedule, n: nat, c: nat, k: Column)
    requires |key| == 32 && ExpandedTo(key, w, 60) && n <= 14 && c < 4 && Word(key, 4 * n + c) == Bytes(k)
    ensures ColumnOf(RoundKey(w, n), c) == k
  {
    var i := 4 * n + c;
    WordByte(key, w, i, 0);
    WordByte(key, w, i, 1);
    WordByte(key, w, i, 2);
    WordByte(key, w, i, 3);
  }

  /** The state after each round. */
  lemma {:induction false} LookedUp1()
    ensures LookedUp((0x00, 0x10, 0x20, 0x30)) == (0x63, 0xca, 0xb7, 0x04)
    ensures LookedUp((0x40, 0x50, 0x60, 0x70)) == (0x09, 0x53, 0xd0, 0x51)
    ensures LookedUp((0x80, 0x90, 0xa0, 0xb0)) == (0xcd, 0x60, 0xe0, 0xe7)
    ensures LookedUp((0xc0, 0xd0, 0xe0, 0xf0)) == (0xba, 0x70, 0xe1, 0x8c)
  {
  }

  lemma {:induction false} Round1(key: seq<bv8>, w: Schedule)
    requires ExampleKey(key) && ExpandedTo(key, w, 60)
    ensures MixedRound(w, BlockOf((0x00, 0x10, 0x20, 0x30), (0x40, 0x50, 0x60, 0x70),
                                  (0x80, 0x90, 0xa0, 0xb0), (0xc0, 0xd0, 0xe0, 0xf0)), 1)
         == BlockOf((0x4f, 0x63, 0x76, 0x06), (0x43, 0xe0, 0xaa, 0x85),
                    (0xef, 0xa7, 0x21, 0x32), (0x01, 0xa4, 0xe7, 0x05))
  {
    FirstWords(key);
    KeyOfRound(key, w, 1, (0x10, 0x11, 0x12, 0x13), (0x14, 0x15, 0x16, 0x17),
                          (0x18, 0x19, 0x1a, 0x1b), (0x1c, 0x1d, 0x1e, 0x1f));
    LookedUp1();
    RoundIs(w, 1, (0x00, 0x10, 0x20, 0x30), (0x40, 0x50, 0x60, 0x70),
                  (0x80, 0x90, 0xa0, 0xb0), (0xc0, 0xd0, 0xe0, 0xf0),
                  (0x10, 0x11, 0x12, 0x13), (0x14, 0x15, 0x16, 0x17),
                  (0x18, 0x19, 0x1a, 0x1b), (0x1c, 0x1d, 0x1e, 0x1f));
  }

  lemma {:induction false} LookedUp2()
    ensures LookedUp((0x4f, 0x63, 0x76, 0x06)) == (0x84, 0xfb, 0x38, 0x6f)
    ensures LookedUp((0x43, 0xe0, 0xaa, 0x85)) == (0x1a, 0xe1, 0xac, 0x97)
    ensures LookedUp((0xef, 0xa7, 0x21, 0x32)) == (0xdf, 0x5c, 0xfd, 0x23)
    ensures LookedUp((0x01, 0xa4, 0xe7, 0x05)) == (0x7c, 0x49, 0x94, 0x6b)
  {
  }

  lemma {:induction false} Round2(key: seq<bv8>, w: Schedule)
    requires ExampleKey(key) && ExpandedTo(key, w, 60)
    ensures MixedRound(w, BlockOf((0x4f, 0x63, 0x76, 0x06), (0x43, 0xe0, 0xaa, 0x85),
                                  (0xef, 0xa7, 0x21, 0x32), (0x01, 0xa4, 0xe7, 0x05)), 2)
         == BlockOf((0x18, 0x59, 0xfb, 0xc2), (0x8a, 0x1c, 0x00, 0xa0),
                    (0x78, 0xed, 0x8a, 0xad), (0xc4, 0x2f, 0x61, 0x09))
  {
    Words8To11(key);
    KeyOfRound(key, w, 2, (0xa5, 0x73, 0xc2, 0x9f), (0xa1, 0x76, 0xc4, 0x98),
                          (0xa9, 0x7f, 0xce, 0x93), (0xa5, 0x72, 0xc0, 0x9c));
    LookedUp2();
    RoundIs(w, 2, (0x4f, 0x63, 0x76, 0x06), (0x43, 0xe0, 0xaa, 0x85),
                  (0xef, 0xa7, 0x21, 0x32), (0x01, 0xa4, 0xe7, 0x05),
                  (0xa5, 0x73, 0xc2, 0x9f), (0xa1, 0x76, 0xc4, 0x98),
                  (0xa9, 0x7f, 0xce, 0x93), (0xa5, 0x72, 0xc0, 0x9c));
  }

  lemma {:induction false} LookedUp3()
    ensures LookedUp((0x18, 0x59, 0xfb, 0xc2)) == (0xad, 0xcb, 0x0f, 0x25)
    ensures LookedUp((0x8a, 0x1c, 0x00, 0xa0)) == (0x7e, 0x9c, 0x63, 0xe0)
    ensures LookedUp((0x78, 0xed, 0x8a, 0xad)) == (0xbc, 0x55, 0x7e, 0x95)
    ensures LookedUp((0xc4, 0x2f, 0x61, 0x09)) == (0x1c, 0x15, 0xef, 0x01)
  {
  }

  lemma {:induction false} Round3(key: seq<bv8>, w: Schedule)
    requires ExampleKey(key) && ExpandedTo(key, w, 60)
    ensures MixedRound(w, BlockOf((0x18, 0x59, 0xfb, 0xc2), (0x8a, 0x1c, 0x00, 0xa0),
                                  (0x78, 0xed, 0x8a, 0xad), (0xc4, 0x2f, 0x61, 0x09)), 3)
         == BlockOf((0x97, 0x5c, 0x66, 0xc1), (0xcb, 0x9f, 0x3f, 0xa8),
                    (0xa9, 0x3a, 0x28, 0xdf), (0x8e, 0xe1, 0x0f, 0x63))
  {
    Words12To15(key);
    KeyOfRound(key, w, 3, (0x16, 0x51, 0xa8, 0xcd), (0x02, 0x44, 0xbe, 0xda),
                          (0x1a, 0x5d, 0xa4, 0xc1), (0x06, 0x40, 0xba, 0xde));
    LookedUp3();
    RoundIs(w, 3, (0x18, 0x59, 0xfb, 0xc2), (0x8a, 0x1c, 0x00, 0xa0),
                  (0x78, 0xed, 0x8a, 0xad), (0xc4, 0x2f, 0x61, 0x09),
                  (0x16, 0x51, 0xa8, 0xcd), (0x02, 0x44, 0xbe, 0xda),
                  (0x1a, 0x5d, 0xa4, 0xc1), (0x06, 0x40, 0xba, 0xde));
  }

  lemma {:induction false} LookedUp4()
    ensures LookedUp((0x97, 0x5c, 0x66, 0xc1)) == (0x88, 0x4a, 0x33, 0x78)
    ensures LookedUp((0xcb, 0x9f, 0x3f, 0xa8)) == (0x1f, 0xdb, 0x75, 0xc2)
    ensures LookedUp((0xa9, 0x3a, 0x28, 0xdf)) == (0xd3, 0x80, 0x34, 0x9e)
    ensures LookedUp((0x8e, 0xe1, 0x0f, 0x63)) == (0x19, 0xf8, 0x76, 0xfb)
  {
  }

  lemma {:induction false} Round4(key: seq<bv8>, w: Schedule)
    requires ExampleKey(key) && ExpandedTo(key, w, 60)
    ensures MixedRound(w, BlockOf((0x97, 0x5c, 0x66, 0xc1), (0xcb, 0x9f, 0x3f, 0xa8),
                                  (0xa9, 0x3a, 0x28, 0xdf), (0x8e, 0xe1, 0x0f, 0x63)), 4)
         == BlockOf((0x1c, 0x05, 0xf2, 0x71), (0xa4, 0x17, 0xe0, 0x4f),
                    (0xf9, 0x21, 0xc5, 0xc1), (0x04, 0x70, 0x15, 0x54))
  {
    Words16To19(key);
    KeyOfRound(key, w, 4, (0xae, 0x87, 0xdf, 0xf0), (0x0f, 0xf1, 0x1b, 0x68),
                          (0xa6, 0x8e, 0xd5, 0xfb), (0x03, 0xfc, 0x15, 0x67));
    LookedUp4();
    RoundIs(w, 4, (0x97, 0x5c, 0x66, 0xc1), (0xcb, 0x9f, 0x3f, 0xa8),
                  (0xa9, 0x3a, 0x28, 0xdf), (0x8e, 0xe1, 0x0f, 0x63),
                  (0xae, 0x87, 0xdf, 0xf0), (0x0f, 0xf1, 0x1b, 0x68),
                  (0xa6, 0x8e, 0xd5, 0xfb), (0x03, 0xfc, 0x15, 0x67));
  }

  lemma {:induction false} LookedUp5()
    ensures LookedUp((0x1c, 0x05, 0xf2, 0x71)) == (0x9c, 0x6b, 0x89, 0xa3)
    ensures LookedUp((0xa4, 0x17, 0xe0, 0x4f)) == (0x49, 0xf0, 0xe1, 0x84)
    ensures LookedUp((0xf9, 0x21, 0xc5, 0xc1)) == (0x99, 0xfd, 0xa6, 0x78)
    ensures LookedUp((0x04, 0x70, 0x15, 0x54)) == (0xf2, 0x51, 0x59, 0x20)
  {
  }

  lemma {:induction false} Round5(key: seq<bv8>, w: Schedule)
    requires ExampleKey(key) && ExpandedTo(key, w, 60)
    ensures MixedRound(w, BlockOf((0x1c, 0x05, 0xf2, 0x71), (0xa4, 0x17, 0xe0, 0x4f),
                                  (0xf9, 0x21, 0xc5, 0xc1), (0x04, 0x70, 0x15, 0x54)), 5)
         == BlockOf((0xc3, 0x57, 0xaa, 0xe1), (0x1b, 0x45, 0xb7, 0xb0),
                    (0xa2, 0xc7, 0xbd, 0x28), (0xa8, 0xdc, 0x99, 0xfa))
  {
    Words20To23(key);
    KeyOfRound(key, w, 5, (0x6d, 0xe1, 0xf1, 0x48), (0x6f, 0xa5, 0x4f, 0x92),
                          (0x75, 0xf8, 0xeb, 0x53), (0x73, 0xb8, 0x51, 0x8d));
    LookedUp5();
    RoundIs(w, 5, (0x1c, 0x05, 0xf2, 0x71), (0xa4, 0x17, 0xe0, 0x4f),
                  (0xf9, 0x21, 0xc5, 0xc1), (0x04, 0x70, 0x15, 0x54),
                  (0x6d, 0xe1, 0xf1, 0x48), (0x6f, 0xa5, 0x4f, 0x92),
                  (0x75, 0xf8, 0xeb, 0x53), (0x73, 0xb8, 0x51, 0x8d));
  }

  lemma {:induction false} LookedUp6()
    ensures LookedUp((0xc3, 0x57, 0xaa, 0xe1)) == (0x2e, 0x5b, 0xac, 0xf8)
    ensures LookedUp((0x1b, 0x45, 0xb7, 0xb0)) == (0xaf, 0x6e, 0xa9, 0xe7)
    ensures LookedUp((0xa2, 0xc7, 0xbd, 0x28)) == (0x3a, 0xc6, 0x7a, 0x34)
    ensures LookedUp((0xa8, 0xdc, 0x99, 0xfa)) == (0xc2, 0x86, 0xee, 0x2d)
  {
  }

  lemma {:induction false} Round6(key: seq<bv8>, w: Schedule)
    requires ExampleKey(key) && ExpandedTo(key, w, 60)
    ensures MixedRound(w, BlockOf((0xc3, 0x57, 0xaa, 0xe1), (0x1b, 0x45, 0xb7, 0xb0),
                                  (0xa2, 0xc7, 0xbd, 0x28), (0xa8, 0xdc, 0x99, 0xfa)), 6)
         == BlockOf((0x7f, 0x07, 0x41, 0x43), (0xcb, 0x4e, 0x24, 0x3e),
                    (0xc1, 0x0c, 0x81, 0x5d), (0x83, 0x75, 0xd5, 0x4c))
  {
    Words24To27(key);
    KeyOfRound(key, w, 6, (0xc6, 0x56, 0x82, 0x7f), (0xc9, 0xa7, 0x99, 0x17),
                          (0x6f, 0x29, 0x4c, 0xec), (0x6c, 0xd5, 0x59, 0x8b));
    LookedUp6();
    RoundIs(w, 6, (0xc3, 0x57, 0xaa, 0xe1), (0x1b, 0x45, 0xb7, 0xb0),
                  (0xa2, 0xc7, 0xbd, 0x28), (0xa8, 0xdc, 0x99, 0xfa),
                  (0xc6, 0x56, 0x82, 0x7f), (0xc9, 0xa7, 0x99, 0x17),
                  (0x6f, 0x29, 0x4c, 0xec), (0x6c, 0xd5, 0x59, 0x8b));
  }

  lemma {:induction false} LookedUp7()
    ensures LookedUp((0x7f, 0x07, 0x41, 0x43)) == (0xd2, 0xc5, 0x83, 0x1a)
    ensures LookedUp((0xcb, 0x4e, 0x24, 0x3e)) == (0x1f, 0x2f, 0x36, 0xb2)
    ensures LookedUp((0xc1, 0x0c, 0x81, 0x5d)) == (0x78, 0xfe, 0x0c, 0x4c)
    ensures LookedUp((0x83, 0x75, 0xd5, 0x4c)) == (0xec, 0x9d, 0x03, 0x29)
  {
  }

  lemma {:induction false} Round7(key: seq<bv8>, w: Schedule)
    requires ExampleKey(key) && ExpandedTo(key, w, 60)
    ensures MixedRound(w, BlockOf((0x7f, 0x07, 0x41, 0x43), (0xcb, 0x4e, 0x24, 0x3e),
                                  (0xc1, 0x0c, 0x81, 0x5d), (0x83, 0x75, 0xd5, 0x4c)), 7)
         == BlockOf((0xd6, 0x53, 0xa4, 0x69), (0x6c, 0xa0, 0xbc, 0x0f),
                    (0x5a, 0xca, 0xab, 0x5d), (0xb9, 0x6c, 0x5e, 0x7d))
  {
    Words28To31(key);
    KeyOfRound(key, w, 7, (0x3d, 0xe2, 0x3a, 0x75), (0x52, 0x47, 0x75, 0xe7),
                          (0x27, 0xbf, 0x9e, 0xb4), (0x54, 0x07, 0xcf, 0x39));
    LookedUp7();
    RoundIs(w, 7, (0x7f, 0x07, 0x41, 0x43), (0xcb, 0x4e, 0x24, 0x3e),
                  (0xc1, 0x0c, 0x81, 0x5d), (0x83, 0x75, 0xd5, 0x4c),
                  (0x3d, 0xe2, 0x3a, 0x75), (0x52, 0x47, 0x75, 0xe7),
                  (0x27, 0xbf, 0x9e, 0xb4), (0x54, 0x07, 0xcf, 0x39));
  }

  lemma {:induction false} LookedUp8()
    ensures LookedUp((0xd6, 0x53, 0xa4, 0x69)) == (0xf6, 0xed, 0x49, 0xf9)
    ensures LookedUp((0x6c, 0xa0, 0xbc, 0x0f)) == (0x50, 0xe0, 0x65, 0x76)
    ensures LookedUp((0x5a, 0xca, 0xab, 0x5d)) == (0xbe, 0x74, 0x62, 0x4c)
    ensures LookedUp((0xb9, 0x6c, 0x5e, 0x7d)) == (0x56, 0x50, 0x58, 0xff)
  {
  }

  lemma {:induction false} Round8(key: seq<bv8>, w: Schedule)
    requires ExampleKey(key) && ExpandedTo(key, w, 60)
    ensures MixedRound(w, BlockOf((0xd6, 0x53, 0xa4, 0x69), (0x6c, 0xa0, 0xbc, 0x0f),
                                  (0x5a, 0xca, 0xab, 0x5d), (0xb9, 0x6c, 0x5e, 0x7d)), 8)
         == BlockOf((0x5a, 0xa8, 0x58, 0x39), (0x5f, 0xd2, 0x8d, 0x7d),
                    (0x05, 0xe1, 0xa3, 0x88), (0x68, 0xf3, 0xb9, 0xc5))
  {
    Words32To35(key);
    KeyOfRound(key, w, 8, (0x0b, 0xdc, 0x90, 0x5f), (0xc2, 0x7b, 0x09, 0x48),
                          (0xad, 0x52, 0x45, 0xa4), (0xc1, 0x87, 0x1c, 0x2f));
    LookedUp8();
    RoundIs(w, 8, (0xd6, 0x53, 0xa4, 0x69), (0x6c, 0xa0, 0xbc, 0x0f),
                  (0x5a, 0xca, 0xab, 0x5d), (0xb9, 0x6c, 0x5e, 0x7d),
                  (0x0b, 0xdc, 0x90, 0x5f), (0xc2, 0x7b, 0x09, 0x48),
                  (0xad, 0x52, 0x45, 0xa4), (0xc1, 0x87, 0x1c, 0x2f));
  }

  lemma {:induction false} LookedUp9()
    ensures LookedUp((0x5a, 0xa8, 0x58, 0x39)) == (0xbe, 0xc2, 0x6a, 0x12)
    ensures LookedUp((0x5f, 0xd2, 0x8d, 0x7d)) == (0xcf, 0xb5, 0x5d, 0xff)
    ensures LookedUp((0x05, 0xe1, 0xa3, 0x88)) == (0x6b, 0xf8, 0x0a, 0xc4)
    ensures LookedUp((0x68, 0xf3, 0xb9, 0xc5)) == (0x45, 0x0d, 0x56, 0xa6)
  {
  }

  lemma {:induction false} Round9(key: seq<bv8>, w: Schedule)
    requires ExampleKey(key) && ExpandedTo(key, w, 60)
    ensures MixedRound(w, BlockOf((0x5a, 0xa8, 0x58, 0x39), (0x5f, 0xd2, 0x8d, 0x7d),
                                  (0x05, 0xe1, 0xa3, 0x88), (0x68, 0xf3, 0xb9, 0xc5)), 9)
         == BlockOf((0x4a, 0x82, 0x48, 0x51), (0xc5, 0x7e, 0x7e, 0x47),
                    (0x64, 0x3d, 0xe5, 0x0c), (0x2a, 0xf3, 0xe8, 0xc9))
  {
    Words36To39(key);
    KeyOfRound(key, w, 9, (0x45, 0xf5, 0xa6, 0x60), (0x17, 0xb2, 0xd3, 0x87),
                          (0x30, 0x0d, 0x4d, 0x33), (0x64, 0x0a, 0x82, 0x0a));
    LookedUp9();
    RoundIs(w, 9, (0x5a, 0xa8, 0x58, 0x39), (0x5f, 0xd2, 0x8d, 0x7d),
                  (0x05, 0xe1, 0xa3, 0x88), (0x68, 0xf3, 0xb9, 0xc5),
                  (0x45, 0xf5, 0xa6, 0x60), (0x17, 0xb2, 0xd3, 0x87),
                  (0x30, 0x0d, 0x4d, 0x33), (0x64, 0x0a, 0x82, 0x0a));
  }

  lemma {:induction false} LookedUp10()
    ensures LookedUp((0x4a, 0x82, 0x48, 0x51)) == (0xd6, 0x13, 0x52, 0xd1)
    ensures LookedUp((0xc5, 0x7e, 0x7e, 0x47)) == (0xa6, 0xf3, 0xf3, 0xa0)
    ensures LookedUp((0x64, 0x3d, 0xe5, 0x0c)) == (0x43, 0x27, 0xd9, 0xfe)
    ensures LookedUp((0x2a, 0xf3, 0xe8, 0xc9)) == (0xe5, 0x0d, 0x9b, 0xdd)
  {
  }

  lemma {:induction false} Round10(key: seq<bv8>, w: Schedule)
    requires ExampleKey(key) && ExpandedTo(key, w, 60)
    ensures MixedRound(w, BlockOf((0x4a, 0x82, 0x48, 0x51), (0xc5, 0x7e, 0x7e, 0x47),
                                  (0x64, 0x3d, 0xe5, 0x0c), (0x2a, 0xf3, 0xe8, 0xc9)), 10)
         == BlockOf((0xc1, 0x49, 0x07, 0xf6), (0xca, 0x3b, 0x3a, 0xa0),
                    (0x70, 0xe9, 0xaa, 0x31), (0x3b, 0x52, 0xb5, 0xec))
  {
    Words40To43(key);
    KeyOfRound(key, w, 10, (0x7c, 0xcf, 0xf7, 0x1c), (0xbe, 0xb4, 0xfe, 0x54),
                           (0x13, 0xe6, 0xbb, 0xf0), (0xd2, 0x61, 0xa7, 0xdf));
    LookedUp10();
    RoundIs(w, 10, (0x4a, 0x82, 0x48, 0x51), (0xc5, 0x7e, 0x7e, 0x47),
                   (0x64, 0x3d, 0xe5, 0x0c), (0x2a, 0xf3, 0xe8, 0xc9),
                   (0x7c, 0xcf, 0xf7, 0x1c), (0xbe, 0xb4, 0xfe, 0x54),
                   (0x13, 0xe6, 0xbb, 0xf0), (0xd2, 0x61, 0xa7, 0xdf));
  }

  lemma {:induction false} LookedUp11()
    ensures LookedUp((0xc1, 0x49, 0x07, 0xf6)) == (0x78, 0x3b, 0xc5, 0x42)
    ensures LookedUp((0xca, 0x3b, 0x3a, 0xa0)) == (0x74, 0xe2, 0x80, 0xe0)
    ensures LookedUp((0x70, 0xe9, 0xaa, 0x31)) == (0x51, 0x1e, 0xac, 0xc7)
    ensures LookedUp((0x3b, 0x52, 0xb5, 0xec)) == (0xe2, 0x00, 0xd5, 0xce)
  {
  }

  lemma {:induction false} Round11(key: seq<bv8>, w: Schedule)
    requires ExampleKey(key) && ExpandedTo(key, w, 60)
    ensures MixedRound(w, BlockOf((0xc1, 0x49, 0x07, 0xf6), (0xca, 0x3b, 0x3a, 0xa0),
                                  (0x70, 0xe9, 0xaa, 0x31), (0x3b, 0x52, 0xb5, 0xec)), 11)
         == BlockOf((0x5f, 0x9c, 0x6a, 0xbf), (0xba, 0xc6, 0x34, 0xaa),
                    (0x50, 0x40, 0x9f, 0xa7), (0x66, 0x67, 0x76, 0x53))
  {
    Words44To47(key);
    KeyOfRound(key, w, 11, (0xf0, 0x1a, 0xfa, 0xfe), (0xe7, 0xa8, 0x29, 0x79),
                           (0xd7, 0xa5, 0x64, 0x4a), (0xb3, 0xaf, 0xe6, 0x40));
    LookedUp11();
    RoundIs(w, 11, (0xc1, 0x49, 0x07, 0xf6), (0xca, 0x3b, 0x3a, 0xa0),
                   (0x70, 0xe9, 0xaa, 0x31), (0x3b, 0x52, 0xb5, 0xec),
                   (0xf0, 0x1a, 0xfa, 0xfe), (0xe7, 0xa8, 0x29, 0x79),
                   (0xd7, 0xa5, 0x64, 0x4a), (0xb3, 0xaf, 0xe6, 0x40));
  }

  lemma {:induction false} LookedUp12()
    ensures LookedUp((0x5f, 0x9c, 0x6a, 0xbf)) == (0xcf, 0xde, 0x02, 0x08)
    ensures LookedUp((0xba, 0xc6, 0x34, 0xaa)) == (0xf4, 0xb4, 0x18, 0xac)
    ensures LookedUp((0x50, 0x40, 0x9f, 0xa7)) == (0x53, 0x09, 0xdb, 0x5c)
    ensures LookedUp((0x66, 0x67, 0x76, 0x53)) == (0x33, 0x85, 0x38, 0xed)
  {
  }

  lemma {:induction false} Round12(key: seq<bv8>, w: Schedule)
    requires ExampleKey(key) && ExpandedTo(key, w, 60)
    ensures MixedRound(w, BlockOf((0x5f, 0x9c, 0x6a, 0xbf), (0xba, 0xc6, 0x34, 0xaa),
                                  (0x50, 0x40, 0x9f, 0xa7), (0x66, 0x67, 0x76, 0x53)), 12)
         == BlockOf((0x51, 0x66, 0x04, 0x95), (0x43, 0x53, 0x95, 0x03),
                    (0x14, 0xfb, 0x86, 0xe4), (0x01, 0x92, 0x25, 0x21))
  {
    Words48To51(key);
    KeyOfRound(key, w, 12, (0x25, 0x41, 0xfe, 0x71), (0x9b, 0xf5, 0x00, 0x25),
                           (0x88, 0x13, 0xbb, 0xd5), (0x5a, 0x72, 0x1c, 0x0a));
    LookedUp12();
    RoundIs(w, 12, (0x5f, 0x9c, 0x6a, 0xbf), (0xba, 0xc6, 0x34, 0xaa),
                   (0x50, 0x40, 0x9f, 0xa7), (0x66, 0x67, 0x76, 0x53),
                   (0x25, 0x41, 0xfe, 0x71), (0x9b, 0xf5, 0x00, 0x25),
                   (0x88, 0x13, 0xbb, 0xd5), (0x5a, 0x72, 0x1c, 0x0a));
  }

  lemma {:induction false} LookedUp13()
    ensures LookedUp((0x51, 0x66, 0x04, 0x95)) == (0xd1, 0x33, 0xf2, 0x2a)
    ensures LookedUp((0x43, 0x53, 0x95, 0x03)) == (0x1a, 0xed, 0x2a, 0x7b)
    ensures LookedUp((0x14, 0xfb, 0x86, 0xe4)) == (0xfa, 0x0f, 0x44, 0x69)
    ensures LookedUp((0x01, 0x92, 0x25, 0x21)) == (0x7c, 0x4f, 0x3f, 0xfd)
  {
  }

  lemma {:induction false} Round13(key: seq<bv8>, w: Schedule)
    requires ExampleKey(key) && ExpandedTo(key, w, 60)
    ensures MixedRound(w, BlockOf((0x51, 0x66, 0x04, 0x95), (0x43, 0x53, 0x95, 0x03),
                                  (0x14, 0xfb, 0x86, 0xe4), (0x01, 0x92, 0x25, 0x21)), 13)
         == BlockOf((0x62, 0x7b, 0xce, 0xb9), (0x99, 0x9d, 0x5a, 0xaa),
                    (0xc9, 0x45, 0xec, 0xf4), (0x23, 0xf5, 0x6d, 0xa5))
  {
    Words52To55(key);
    KeyOfRound(key, w, 13, (0x4e, 0x5a, 0x66, 0x99), (0xa9, 0xf2, 0x4f, 0xe0),
                           (0x7e, 0x57, 0x2b, 0xaa), (0xcd, 0xf8, 0xcd, 0xea));
    LookedUp13();
    RoundIs(w, 13, (0x51, 0x66, 0x04, 0x95), (0x43, 0x53, 0x95, 0x03),
                   (0x14, 0xfb, 0x86, 0xe4), (0x01, 0x92, 0x25, 0x21),
                   (0x4e, 0x5a, 0x66, 0x99), (0xa9, 0xf2, 0x4f, 0xe0),
                   (0x7e, 0x57, 0x2b, 0xaa), (0xcd, 0xf8, 0xcd, 0xea));
  }

  lemma {:induction false} Last(key: seq<bv8>, w: Schedule)
    requires ExampleKey(key) && ExpandedTo(key, w, 60)
    ensures LastRound(w, BlockOf((0x62, 0x7b, 0xce, 0xb9), (0x99, 0x9d, 0x5a, 0xaa),
                                 (0xc9, 0x45, 0xec, 0xf4), (0x23, 0xf5, 0x6d, 0xa5)))
         == BlockOf((0x8e, 0xa2, 0xb7, 0xca), (0x51, 0x67, 0x45, 0xbf),
                    (0xea, 0xfc, 0x49, 0x90), (0x4b, 0x49, 0x60, 0x89))
  {
    Words56To59(key);
    KeyOfRound(key, w, 14, (0x24, 0xfc, 0x79, 0xcc), (0xbf, 0x09, 0x79, 0xe9),
                           (0x37, 0x1a, 0xc2, 0x3c), (0x6d, 0x68, 0xde, 0x36));
    LastRoundIs(w, (0x62, 0x7b, 0xce, 0xb9), (0x99, 0x9d, 0x5a, 0xaa),
                   (0xc9, 0x45, 0xec, 0xf4), (0x23, 0xf5, 0x6d, 0xa5),
                   (0x24, 0xfc, 0x79, 0xcc), (0xbf, 0x09, 0x79, 0xe9),
                   (0x37, 0x1a, 0xc2, 0x3c), (0x6d, 0x68, 0xde, 0x36));
  }

  lemma {:induction false} Before1(key: seq<bv8>, w: Schedule, s: Block)
    requires ExampleKey(key) && ExpandedTo(key, w, 60)
    requires s == BlockOf((0x00, 0x11, 0x22, 0x33), (0x44, 0x55, 0x66, 0x77),
                          (0x88, 0x99, 0xaa, 0xbb), (0xcc, 0xdd, 0xee, 0xff))
    ensures Rounds(w, s, 1) == BlockOf((0x00, 0x10, 0x20, 0x30), (0x40, 0x50, 0x60, 0x70),
                                       (0x80, 0x90, 0xa0, 0xb0), (0xc0, 0xd0, 0xe0, 0xf0))
  {
    FirstWords(key);
    KeyOfRound(key, w, 0, (0x00, 0x01, 0x02, 0x03), (0x04, 0x05, 0x06, 0x07),
                          (0x08, 0x09, 0x0a, 0x0b), (0x0c, 0x0d, 0x0e, 0x0f));
    AddedColumns(s, w, 0, (0x00, 0x01, 0x02, 0x03), (0x04, 0x05, 0x06, 0x07),
                          (0x08, 0x09, 0x0a, 0x0b), (0x0c, 0x0d, 0x0e, 0x0f));
    RoundsStart(w, s);
  }

  lemma {:induction false} StateBefore(key: seq<bv8>, w: Schedule, s: Block, n: nat) returns (t: Block)
    requires ExampleKey(key) && ExpandedTo(key, w, 60) && 0 < n <= 14
    requires s == BlockOf((0x00, 0x11, 0x22, 0x33), (0x44, 0x55, 0x66, 0x77),
                          (0x88, 0x99, 0xaa, 0xbb), (0xcc, 0xdd, 0xee, 0xff))
    ensures t == Rounds(w, s, n) == StateOf(n)
  {
    if n == 1 {
      Before1(key, w, s);
    } else {
      t := StateBefore(key, w, s, n - 1);
      RoundsStep(w, s, t, n - 1);
      NextState(key, w, n - 1);
    }
    t := StateOf(n);
  }

  /** The state before round `n`. */
  function StateOf(n: nat): Block {
    match n
    case 1 => BlockOf((0x00, 0x10, 0x20, 0x30), (0x40, 0x50, 0x60, 0x70),
                      (0x80, 0x90, 0xa0, 0xb0), (0xc0, 0xd0, 0xe0, 0xf0))
    case 2 => BlockOf((0x4f, 0x63, 0x76, 0x06), (0x43, 0xe0, 0xaa, 0x85),
                      (0xef, 0xa7, 0x21, 0x32), (0x01, 0xa4, 0xe7, 0x05))
    case 3 => BlockOf((0x18, 0x59, 0xfb, 0xc2), (0x8a, 0x1c, 0x00, 0xa0),
                      (0x78, 0xed, 0x8a, 0xad), (0xc4, 0x2f, 0x61, 0x09))
    case 4 => BlockOf((0x97, 0x5c, 0x66, 0xc1), (0xcb, 0x9f, 0x3f, 0xa8),
                      (0xa9, 0x3a, 0x28, 0xdf), (0x8e, 0xe1, 0x0f, 0x63))
    case 5 => BlockOf((0x1c, 0x05, 0xf2, 0x71), (0xa4, 0x17, 0xe0, 0x4f),
                      (0xf9, 0x21, 0xc5, 0xc1), (0x04, 0x70, 0x15, 0x54))
    case 6 => BlockOf((0xc3, 0x57, 0xaa, 0xe1), (0x1b, 0x45, 0xb7, 0xb0),
                      (0xa2, 0xc7, 0xbd, 0x28), (0xa8, 0xdc, 0x99, 0xfa))
    case 7 => BlockOf((0x7f, 0x07, 0x41, 0x43), (0xcb, 0x4e, 0x24, 0x3e),
                      (0xc1, 0x0c, 0x81, 0x5d), (0x83, 0x75, 0xd5, 0x4c))
    case 8 => BlockOf((0xd6, 0x53, 0xa4, 0x69), (0x6c, 0xa0, 0xbc, 0x0f),
                      (0x5a, 0xca, 0xab, 0x5d), (0xb9, 0x6c, 0x5e, 0x7d))
    case 9 => BlockOf((0x5a, 0xa8, 0x58, 0x39), (0x5f, 0xd2, 0x8d, 0x7d),
                      (0x05, 0xe1, 0xa3, 0x88), (0x68, 0xf3, 0xb9, 0xc5))
    case 10 => BlockOf((0x4a, 0x82, 0x48, 0x51), (0xc5, 0x7e, 0x7e, 0x47),
                       (0x64, 0x3d, 0xe5, 0x0c), (0x2a, 0xf3, 0xe8, 0xc9))
    case 11 => BlockOf((0xc1, 0x49, 0x07, 0xf6), (0xca, 0x3b, 0x3a, 0xa0),
                       (0x70, 0xe9, 0xaa, 0x31), (0x3b, 0x52, 0xb5, 0xec))
    case 12 => BlockOf((0x5f, 0x9c, 0x6a, 0xbf), (0xba, 0xc6, 0x34, 0xaa),
                       (0x50, 0x40, 0x9f, 0xa7), (0x66, 0x67, 0x76, 0x53))
    case 13 => BlockOf((0x51, 0x66, 0x04, 0x95), (0x43, 0x53, 0x95, 0x03),
                       (0x14, 0xfb, 0x86, 0xe4), (0x01, 0x92, 0x25, 0x21))
    case _ => BlockOf((0x62, 0x7b, 0xce, 0xb9), (0x99, 0x9d, 0x5a, 0xaa),
                      (0xc9, 0x45, 0xec, 0xf4), (0x23, 0xf5, 0x6d, 0xa5))
  }

  lemma {:induction false} NextState(key: seq<bv8>, w: Schedule, n: nat)
    requires ExampleKey(key) && ExpandedTo(key, w, 60) && 0 < n < 14
    ensures MixedRound(w, StateOf(n), n) == StateOf(n + 1)
  {
    match n
    case 1 => Round1(key, w);
    case 2 => Round2(key, w);
    case 3 => Round3(key, w);
    case 4 => Round4(key, w);
    case 5 => Round5(key, w);
    case 6 => Round6(key, w);
    case 7 => Round7(key, w);
    case 8 => Round8(key, w);
    case 9 => Round9(key, w);
    case 10 => Round10(key, w);
    case 11 => Round11(key, w);
    case 12 => Round12(key, w);
    case _ => Round13(key, w);
  }

  /** The block is enciphered as the standard says, and deciphered again. */
  lemma {:induction false} Example(key: seq<bv8>, w: Schedule, s: Block, c: Block)
    requires ExampleKey(key) && ExpandedTo(key, w, 60)
    requires s == BlockOf((0x00, 0x11, 0x22, 0x33), (0x44, 0x55, 0x66, 0x77),
                          (0x88, 0x99, 0xaa, 0xbb), (0xcc, 0xdd, 0xee, 0xff))
    requires c == BlockOf((0x8e, 0xa2, 0xb7, 0xca), (0x51, 0x67, 0x45, 0xbf),
                          (0xea, 0xfc, 0x49, 0x90), (0x4b, 0x49, 0x60, 0x89))
    ensures Cipher(w, s) == c && InvCipher(w, c) == s
  {
    var t := StateBefore(key, w, s, 14);
    Enciphered(key, w, s, t, c, 14);
    CipherUndone(w, s);
  }

  lemma {:induction false} Enciphered(key: seq<bv8>, w: Schedule, s: Block, t: Block, c: Block, n: nat)
    requires ExampleKey(key) && ExpandedTo(key, w, 60) && n == 14 && t == Rounds(w, s, n) == StateOf(n)
    requires c == BlockOf((0x8e, 0xa2, 0xb7, 0xca), (0x51, 0x67, 0x45, 0xbf),
                          (0xea, 0xfc, 0x49, 0x90), (0x4b, 0x49, 0x60, 0x89))
    ensures Cipher(w, s) == c
  {
    CipherIsLast(w, s, t, n);
    LastState(key, w, c, n);
  }

  lemma {:induction false} LastState(key: seq<bv8>, w: Schedule, c: Block, n: nat)
    requires ExampleKey(key) && ExpandedTo(key, w, 60) && n == 14
    requires c == BlockOf((0x8e, 0xa2, 0xb7, 0xca), (0x51, 0x67, 0x45, 0xbf),
                          (0xea, 0xfc, 0x49, 0x90), (0x4b, 0x49, 0x60, 0x89))
    ensures LastRound(w, StateOf(n)) == c
  {
    Last(key, w);
  }
}
