/**
 * The block function on the test vector of RFC 8439, section 2.3.2: key bytes 0 to 31, counter 1,
 * nonce 00 00 00 09 00 00 00 4a 00 00 00 00. The rounds are followed one by one.
 */
module ChachaVector {
  import opened Bytes
  import opened Chacha

  /** The state as a square of words: a quarter round on each column. */
  function ColumnRound(x: Words): Words {
    var q0 := QuarterRound(Quad(x[0], x[4], x[8], x[12]));
    var q1 := QuarterRound(Quad(x[1], x[5], x[9], x[13]));
    var q2 := QuarterRound(Quad(x[2], x[6], x[10], x[14]));
    var q3 := QuarterRound(Quad(x[3], x[7], x[11], x[15]));
    [q0.a, q1.a, q2.a, q3.a, q0.b, q1.b, q2.b, q3.b, q0.c, q1.c, q2.c, q3.c, q0.d, q1.d, q2.d, q3.d]
  }

  /** A quarter round on each diagonal. */
  function DiagonalRound(x: Words): Words {
    var q0 := QuarterRound(Quad(x[0], x[5], x[10], x[15]));
    var q1 := QuarterRound(Quad(x[1], x[6], x[11], x[12]));
    var q2 := QuarterRound(Quad(x[2], x[7], x[8], x[13]));
    var q3 := QuarterRound(Quad(x[3], x[4], x[9], x[14]));
    [q0.a, q1.a, q2.a, q3.a, q3.b, q0.b, q1.b, q2.b, q2.c, q3.c, q0.c, q1.c, q1.d, q2.d, q3.d, q0.d]
  }

  lemma Column0(x: Words)
    ensures var q := QuarterRound(Quad(x[0], x[4], x[8], x[12]));
            Quarter(x, 0, 4, 8, 12)
            == [q.a, x[1], x[2], x[3], q.b, x[5], x[6], x[7],
                q.c, x[9], x[10], x[11], q.d, x[13], x[14], x[15]]
  {
    hide QuarterRound;
  }

  lemma Column1(x: Words)
    ensures var q := QuarterRound(Quad(x[1], x[5], x[9], x[13]));
            Quarter(x, 1, 5, 9, 13)
            == [x[0], q.a, x[2], x[3], x[4], q.b, x[6], x[7],
                x[8], q.c, x[10], x[11], x[12], q.d, x[14], x[15]]
  {
    hide QuarterRound;
  }

  lemma Column2(x: Words)
    ensures var q := QuarterRound(Quad(x[2], x[6], x[10], x[14]));
            Quarter(x, 2, 6, 10, 14)
            == [x[0], x[1], q.a, x[3], x[4], x[5], q.b, x[7],
                x[8], x[9], q.c, x[11], x[12], x[13], q.d, x[15]]
  {
    hide QuarterRound;
  }

  lemma Column3(x: Words)
    ensures var q := QuarterRound(Quad(x[3], x[7], x[11], x[15]));
            Quarter(x, 3, 7, 11, 15)
            == [x[0], x[1], x[2], q.a, x[4], x[5], x[6], q.b,
                x[8], x[9], x[10], q.c, x[12], x[13], x[14], q.d]
  {
    hide QuarterRound;
  }

  lemma Diagonal0(x: Words)
    ensures var q := QuarterRound(Quad(x[0], x[5], x[10], x[15]));
            Quarter(x, 0, 5, 10, 15)
            == [q.a, x[1], x[2], x[3], x[4], q.b, x[6], x[7],
                x[8], x[9], q.c, x[11], x[12], x[13], x[14], q.d]
  {
    hide QuarterRound;
  }

  lemma Diagonal1(x: Words)
    ensures var q := QuarterRound(Quad(x[1], x[6], x[11], x[12]));
            Quarter(x, 1, 6, 11, 12)
            == [x[0], q.a, x[2], x[3], x[4], x[5], q.b, x[7],
                x[8], x[9], x[10], q.c, q.d, x[13], x[14], x[15]]
  {
    hide QuarterRound;
  }

  lemma Diagonal2(x: Words)
    ensures var q := QuarterRound(Quad(x[2], x[7], x[8], x[13]));
            Quarter(x, 2, 7, 8, 13)
            == [x[0], x[1], q.a, x[3], x[4], x[5], x[6], q.b,
                q.c, x[9], x[10], x[11], x[12], q.d, x[14], x[15]]
  {
    hide QuarterRound;
  }

  lemma Diagonal3(x: Words)
    ensures var q := QuarterRound(Quad(x[3], x[4], x[9], x[14]));
            Quarter(x, 3, 4, 9, 14)
            == [x[0], x[1], x[2], q.a, q.b, x[5], x[6], x[7],
                x[8], q.c, x[10], x[11], x[12], x[13], q.d, x[15]]
  {
    hide QuarterRound;
  }

  lemma ColumnsInTurn(x: Words)
    ensures Quarter(Quarter(Quarter(Quarter(x, 0, 4, 8, 12), 1, 5, 9, 13), 2, 6, 10, 14), 3, 7, 11, 15)
         == ColumnRound(x)
  {
    hide QuarterRound, Quarter;
    Column0(x);
    var x1 := Quarter(x, 0, 4, 8, 12);
    Column1(x1);
    var x2 := Quarter(x1, 1, 5, 9, 13);
    Column2(x2);
    var x3 := Quarter(x2, 2, 6, 10, 14);
    Column3(x3);
  }

  lemma DiagonalsInTurn(x: Words)
    ensures Quarter(Quarter(Quarter(Quarter(x, 0, 5, 10, 15), 1, 6, 11, 12), 2, 7, 8, 13), 3, 4, 9, 14)
         == DiagonalRound(x)
  {
    hide QuarterRound, Quarter;
    Diagonal0(x);
    var x1 := Quarter(x, 0, 5, 10, 15);
    Diagonal1(x1);
    var x2 := Quarter(x1, 1, 6, 11, 12);
    Diagonal2(x2);
    var x3 := Quarter(x2, 2, 7, 8, 13);
    Diagonal3(x3);
  }

  /** Section 2.3: a column round, then a diagonal round. */
  lemma DoubleRoundIsBoth(x: Words)
    ensures DoubleRound(x) == DiagonalRound(ColumnRound(x))
  {
    hide Quarter, ColumnRound, DiagonalRound;
    ColumnsInTurn(x);
    DiagonalsInTurn(ColumnRound(x));
  }

  const AFTER0: Words :=
    [0x61707865, 0x3320646e, 0x79622d32, 0x6b206574, 0x03020100, 0x07060504, 0x0b0a0908, 0x0f0e0d0c,
     0x13121110, 0x17161514, 0x1b1a1918, 0x1f1e1d1c, 0x00000001, 0x09000000, 0x4a000000, 0x00000000]
  const AFTER1: Words :=
    [0xabbaa25c, 0x1efa51ea, 0x7354fbdf, 0x83d2dc69, 0x3a465196, 0x1c7e64f6, 0xb12fb628, 0xf05b6976,
     0x6b3ca454, 0x08eb14b1, 0xbf8a9ac9, 0xe444df3b, 0xdec62ed2, 0x8862cc77, 0x6e35b345, 0x52a647f1]
  const AFTER2: Words :=
    [0xcd52e917, 0x85ab03b4, 0xb3457395, 0xf96de7dd, 0xc4b7cd22, 0x5c2e187a, 0xc95eb461, 0x316c801a,
     0x7bf7d740, 0x7eddd644, 0xf1a1bdf5, 0x761246ca, 0x6b0d58a3, 0x6798471a, 0xd737f167, 0xf173888d]
  const AFTER3: Words :=
    [0xe3e1111b, 0xa6291491, 0x5a82b80c, 0x4500fd45, 0xd65b5b5b, 0xf56af099, 0x4ccc8103, 0xc94d29e2,
     0xe67aec54, 0xf7a52d82, 0xdb470914, 0xdfb40f1d, 0x7be81c0d, 0x1d92d0fd, 0x13139f8c, 0x7a26ecaa]
  const AFTER4: Words :=
    [0xcf1a7584, 0x048927ec, 0x54051fda, 0xc244ff28, 0x901d2f40, 0x7974b81c, 0x378dcfb4, 0xcd47fd0e,
     0x2dafb216, 0x27c89cd6, 0xcd3c9aa0, 0x79fc89c7, 0x10aef18d, 0x16218765, 0x68f76705, 0x04d6ee22]
  const AFTER5: Words :=
    [0xa22695f2, 0xa908cf6c, 0xe6ae05b2, 0xfe0ff04b, 0x1ece4458, 0xe82b726f, 0x5a21ab90, 0x87698c64,
     0xf2d36da6, 0xf4dab980, 0x7baf5573, 0xa78c270d, 0x6fda6bf7, 0x65a4b0ce, 0x25e6d76e, 0x1b7b11ec]
  const AFTER6: Words :=
    [0x03a14032, 0x66b15927, 0x9d6b6b42, 0xb84c4109, 0xa7143ae0, 0xa09b33dd, 0xa5daaf88, 0x2fd91a73,
     0xc90c6b18, 0x5a202413, 0xc20e01b6, 0x72cd6b74, 0xba35d777, 0xb360f1bf, 0x8178315b, 0x2cd11b1a]
  const AFTER7: Words :=
    [0xfecd0838, 0x160ab468, 0x9a0ddf4e, 0xbac7154a, 0xcedf6624, 0xb11de6c4, 0xbd7810ef, 0xd22b5643,
     0x1d8a33ea, 0x87dc1ca9, 0x89bd34a5, 0x5505ef62, 0xa818b852, 0xb100446a, 0x9c1d70b1, 0xa1d1befa]
  const AFTER8: Words :=
    [0x9a2d3589, 0x0b23fc4e, 0x40af3b6b, 0xceea8144, 0x0a1bffc6, 0x5e5993f7, 0x9904c2e7, 0x0d334718,
     0xe46c6354, 0xc9503229, 0x04fef5aa, 0xf8933f72, 0x2687d476, 0x54e65231, 0x3594ffc5, 0x2b3bb2ca]
  const AFTER9: Words :=
    [0x85e7824a, 0x4940cd9e, 0xfbe7684b, 0x7335d03d, 0x1c133ea1, 0xbba40b0f, 0x9413992a, 0xa4ab2040,
     0xa3a66a86, 0xc0b4754f, 0x771b4ecb, 0x165151a1, 0xde008464, 0x34f0058b, 0x70846cfa, 0xa3271b09]
  const AFTER10: Words :=
    [0xc53318c5, 0xca325d96, 0x7e7d11cb, 0x3404e2ca, 0x26d7cf73, 0x6088d379, 0xc0f0e9bd, 0xe310cdb9,
     0xae2ca8db, 0x42f67c72, 0x71669aca, 0x975c171d, 0x9e5ec228, 0x7d85a9f3, 0x201d0756, 0x63fa6953]
  const AFTER11: Words :=
    [0x9950b826, 0xcac7ccc6, 0x84a67673, 0xdb3109a6, 0x2121065a, 0xc12bdadb, 0xcae3acd1, 0x594616cb,
     0x19078de2, 0x178ecc02, 0xe6adbdb2, 0x52a9d50e, 0x40ca72b3, 0x3b9bf852, 0x78690378, 0xe17d4902]
  const AFTER12: Words :=
    [0x04a3131a, 0x66176309, 0x0415bab1, 0x61b880a2, 0x36cc86c7, 0xbf8a4465, 0xf77dd720, 0xfc0bdc90,
     0x07d13aca, 0xeb0be9af, 0x61599491, 0x918512dc, 0x33b6686d, 0x795cc671, 0xc0049972, 0xa0a81bde]
  const AFTER13: Words :=
    [0x57c5e6da, 0x35ce46a8, 0x0c041bb9, 0xfa91df79, 0x8e85d82f, 0xb4819d06, 0xb63be200, 0xacd221e4,
     0x434b4749, 0x1d459c00, 0x111cfe2c, 0x55942604, 0x49ee03a6, 0xd11a5554, 0xa7202e04, 0x7d2215bc]
  const AFTER14: Words :=
    [0x9b70f51f, 0x7ea8ac11, 0x21e54da9, 0xca393b2f, 0x93b08686, 0x6a4c50ae, 0x19212a5a, 0x9b032958,
     0xd839165e, 0x4c06e28a, 0xd3fde99e, 0x26acc13d, 0xa609f555, 0x2c246549, 0x95151853, 0x2c847a0d]
  const AFTER15: Words :=
    [0xc0b18aee, 0x087445ba, 0x36e52ad9, 0xa777426a, 0xdeb54e9c, 0x802c883b, 0x06e86889, 0x3c002680,
     0xa82d65d4, 0x687f11eb, 0xe9d36207, 0x4242ddae, 0x4103c64e, 0x82816a91, 0xb584ca56, 0xfd0bd2b9]
  const AFTER16: Words :=
    [0xca5c85dd, 0x93a4f90e, 0xd9f0df58, 0x26dd82dd, 0x982563f8, 0x712aa9ff, 0x279a61e8, 0x970f72bd,
     0x1c25931a, 0x5180bb10, 0x779c27e7, 0x54077e08, 0xa9b751fb, 0x382f3ce2, 0x8db1757d, 0xcc38080b]
  const AFTER17: Words :=
    [0x765c6e9c, 0x5ab09b11, 0x3ee7da04, 0x37c31203, 0x9046ecaa, 0x7b88d882, 0xb9b577dd, 0x156de7ed,
     0x46fa091e, 0x5117e9b5, 0x862ff22b, 0xa3fcc7a6, 0x72a5aace, 0x5fa7f1c5, 0xda563e0a, 0x5263d7ca]
  const AFTER18: Words :=
    [0xb6b87de6, 0x9a016148, 0x93859815, 0x4915e6cc, 0xdc33c122, 0x98e18fa3, 0x5ffbe8fc, 0xf7154b8b,
     0x28c1fcb3, 0xc4b38f9d, 0x83e2f5d7, 0x7d24b98b, 0x21078b22, 0xb193e7a3, 0xb2f49389, 0x6cde6026]
  const AFTER19: Words :=
    [0x8a07ff15, 0x0cadc51c, 0x017c8da9, 0x4afbe5df, 0x913768fe, 0x442a0c0c, 0x598fe3bb, 0x47d18828,
     0x0a39aedc, 0xc1428029, 0x7b48135f, 0x5a5f1098, 0x2d4cfe3e, 0xe5466d1b, 0xe4ccdc13, 0x8ac92a18]
  const AFTER20: Words :=
    [0x837778ab, 0xe238d763, 0xa67ae21e, 0x5950bb2f, 0xc4f2d0c7, 0xfc62bb2f, 0x8fa018fc, 0x3f5ec7b7,
     0x335271c2, 0xf29489f3, 0xeabda8fc, 0x82e46ebd, 0xd19c12b4, 0xb04e16de, 0x9e83d0cb, 0x4e3c50a2]

  lemma Round1()
    ensures ColumnRound(AFTER0) == AFTER1
  {
  }

  lemma Round2()
    ensures DiagonalRound(AFTER1) == AFTER2
  {
  }

  lemma Round3()
    ensures ColumnRound(AFTER2) == AFTER3
  {
  }

  lemma Round4()
    ensures DiagonalRound(AFTER3) == AFTER4
  {
  }

  lemma Round5()
    ensures ColumnRound(AFTER4) == AFTER5
  {
  }

  lemma Round6()
    ensures DiagonalRound(AFTER5) == AFTER6
  {
  }

  lemma Round7()
    ensures ColumnRound(AFTER6) == AFTER7
  {
  }

  lemma Round8()
    ensures DiagonalRound(AFTER7) == AFTER8
  {
  }

  lemma Round9()
    ensures ColumnRound(AFTER8) == AFTER9
  {
  }

  lemma Round10()
    ensures DiagonalRound(AFTER9) == AFTER10
  {
  }

  lemma Round11()
    ensures ColumnRound(AFTER10) == AFTER11
  {
  }

  lemma Round12()
    ensures DiagonalRound(AFTER11) == AFTER12
  {
  }

  lemma Round13()
    ensures ColumnRound(AFTER12) == AFTER13
  {
  }

  lemma Round14()
    ensures DiagonalRound(AFTER13) == AFTER14
  {
  }

  lemma Round15()
    ensures ColumnRound(AFTER14) == AFTER15
  {
  }

  lemma Round16()
    ensures DiagonalRound(AFTER15) == AFTER16
  {
  }

  lemma Round17()
    ensures ColumnRound(AFTER16) == AFTER17
  {
  }

  lemma Round18()
    ensures DiagonalRound(AFTER17) == AFTER18
  {
  }

  lemma Round19()
    ensures ColumnRound(AFTER18) == AFTER19
  {
  }

  lemma Round20()
    ensures DiagonalRound(AFTER19) == AFTER20
  {
  }

  lemma TwentyRounds()
    ensures Rounds(AFTER0, DOUBLE_ROUNDS) == AFTER20
  {
    hide DoubleRound, ColumnRound, DiagonalRound;
    Round1();
    Round2();
    DoubleRoundIsBoth(AFTER0);
    assert Rounds(AFTER0, 1) == DoubleRound(Rounds(AFTER0, 0));
    Round3();
    Round4();
    DoubleRoundIsBoth(AFTER2);
    assert Rounds(AFTER0, 2) == DoubleRound(Rounds(AFTER0, 1));
    Round5();
    Round6();
    DoubleRoundIsBoth(AFTER4);
    assert Rounds(AFTER0, 3) == DoubleRound(Rounds(AFTER0, 2));
    Round7();
    Round8();
    DoubleRoundIsBoth(AFTER6);
    assert Rounds(AFTER0, 4) == DoubleRound(Rounds(AFTER0, 3));
    Round9();
    Round10();
    DoubleRoundIsBoth(AFTER8);
    assert Rounds(AFTER0, 5) == DoubleRound(Rounds(AFTER0, 4));
    Round11();
    Round12();
    DoubleRoundIsBoth(AFTER10);
    assert Rounds(AFTER0, 6) == DoubleRound(Rounds(AFTER0, 5));
    Round13();
    Round14();
    DoubleRoundIsBoth(AFTER12);
    assert Rounds(AFTER0, 7) == DoubleRound(Rounds(AFTER0, 6));
    Round15();
    Round16();
    DoubleRoundIsBoth(AFTER14);
    assert Rounds(AFTER0, 8) == DoubleRound(Rounds(AFTER0, 7));
    Round17();
    Round18();
    DoubleRoundIsBoth(AFTER16);
    assert Rounds(AFTER0, 9) == DoubleRound(Rounds(AFTER0, 8));
    Round19();
    Round20();
    DoubleRoundIsBoth(AFTER18);
    assert Rounds(AFTER0, 10) == DoubleRound(Rounds(AFTER0, 9));
  }

  /** Key bytes 0 to 31, then the nonce. */
  const KEY_NONCE: Octets := seq(32, i requires 0 <= i < 32 => i as bv8) + NONCE
  const NONCE: Octets := [0x00, 0x00, 0x00, 0x09, 0x00, 0x00, 0x00, 0x4a, 0x00, 0x00, 0x00, 0x00]

  lemma FourBytes(d: Octets, at: nat, b0: bv8, b1: bv8, b2: bv8, b3: bv8)
    requires at + 4 <= |d| && d[at] == b0 && d[at + 1] == b1 && d[at + 2] == b2 && d[at + 3] == b3
    ensures ReadLe(d, at) == (b0 as bv32) | ((b1 as bv32) << 8) | ((b2 as bv32) << 16) | ((b3 as bv32) << 24)
  {
  }

  lemma KeyLow()
    ensures ReadLe(KEY_NONCE, 0) == 0x03020100
    ensures ReadLe(KEY_NONCE, 4) == 0x07060504
    ensures ReadLe(KEY_NONCE, 8) == 0x0b0a0908
    ensures ReadLe(KEY_NONCE, 12) == 0x0f0e0d0c
  {
    hide ReadLe;
    FourBytes(KEY_NONCE, 0, 0x00, 0x01, 0x02, 0x03);
    FourBytes(KEY_NONCE, 4, 0x04, 0x05, 0x06, 0x07);
    FourBytes(KEY_NONCE, 8, 0x08, 0x09, 0x0a, 0x0b);
    FourBytes(KEY_NONCE, 12, 0x0c, 0x0d, 0x0e, 0x0f);
  }

  lemma KeyHigh()
    ensures ReadLe(KEY_NONCE, 16) == 0x13121110
    ensures ReadLe(KEY_NONCE, 20) == 0x17161514
    ensures ReadLe(KEY_NONCE, 24) == 0x1b1a1918
    ensures ReadLe(KEY_NONCE, 28) == 0x1f1e1d1c
  {
    hide ReadLe;
    FourBytes(KEY_NONCE, 16, 0x10, 0x11, 0x12, 0x13);
    FourBytes(KEY_NONCE, 20, 0x14, 0x15, 0x16, 0x17);
    FourBytes(KEY_NONCE, 24, 0x18, 0x19, 0x1a, 0x1b);
    FourBytes(KEY_NONCE, 28, 0x1c, 0x1d, 0x1e, 0x1f);
  }

  lemma NonceWords()
    ensures ReadLe(KEY_NONCE, 32) == 0x09000000
    ensures ReadLe(KEY_NONCE, 36) == 0x4a000000
    ensures ReadLe(KEY_NONCE, 40) == 0x00000000
  {
    hide ReadLe;
    FourBytes(KEY_NONCE, 32, 0x00, 0x00, 0x00, 0x09);
    FourBytes(KEY_NONCE, 36, 0x00, 0x00, 0x00, 0x4a);
    FourBytes(KEY_NONCE, 40, 0x00, 0x00, 0x00, 0x00);
  }

  lemma FirstState()
    ensures Bumped(InitState(KEY_NONCE)) == AFTER0
  {
    hide ReadLe, KEY_NONCE;
    KeyLow();
    KeyHigh();
    NonceWords();
    assert |KEY_NONCE| == 44 by {
      KeyLength();
    }
    var st := InitState(KEY_NONCE);
    assert st[12] == 0 && Add(0, 1) == 1;
    assert forall i :: 0 <= i < 4 ==> st[i] == AFTER0[i];
    assert forall i :: 4 <= i < 8 ==> st[i] == ReadLe(KEY_NONCE, 4 * (i - 4)) == AFTER0[i];
    assert forall i :: 8 <= i < 12 ==> st[i] == ReadLe(KEY_NONCE, 4 * (i - 4)) == AFTER0[i];
    assert forall i :: 13 <= i < 16 ==> st[i] == ReadLe(KEY_NONCE, 32 + 4 * (i - 13)) == AFTER0[i];
  }

  lemma SerializedNext(x: seq<bv32>, k: nat)
    requires k < |x|
    ensures Serialized(x[..k + 1]) == Serialized(x[..k]) + LeBytes(x[k])
  {
    hide LeBytes;
    assert x[..k + 1][..k] == x[..k];
  }

  /** The serialized block, as section 2.3.2 prints it. */
  const BLOCK: Octets := LINE0 + LINE1 + LINE2 + LINE3

  const LINE0: Octets :=
    [0x10, 0xf1, 0xe7, 0xe4] + [0xd1, 0x3b, 0x59, 0x15] + [0x50, 0x0f, 0xdd, 0x1f] + [0xa3, 0x20, 0x71, 0xc4]
  const LINE1: Octets :=
    [0xc7, 0xd1, 0xf4, 0xc7] + [0x33, 0xc0, 0x68, 0x03] + [0x04, 0x22, 0xaa, 0x9a] + [0xc3, 0xd4, 0x6c, 0x4e]
  const LINE2: Octets :=
    [0xd2, 0x82, 0x64, 0x46] + [0x07, 0x9f, 0xaa, 0x09] + [0x14, 0xc2, 0xd7, 0x05] + [0xd9, 0x8b, 0x02, 0xa2]
  const LINE3: Octets :=
    [0xb5, 0x12, 0x9c, 0xd1] + [0xde, 0x16, 0x4e, 0xb9] + [0xcb, 0xd0, 0x83, 0xe8] + [0xa2, 0x50, 0x3c, 0x4e]

  /** The sum of the first state and of what the rounds make of it. */
  const SUM: Words :=
    [0xe4e7f110, 0x15593bd1, 0x1fdd0f50, 0xc47120a3, 0xc7f4d1c7, 0x0368c033, 0x9aaa2204, 0x4e6cd4c3,
     0x466482d2, 0x09aa9f07, 0x05d7c214, 0xa2028bd9, 0xd19c12b5, 0xb94e16de, 0xe883d0cb, 0x4e3c50a2]

  lemma Sum0()
    ensures Add(0x837778ab, 0x61707865) == 0xe4e7f110 && LeBytes(0xe4e7f110) == [0x10, 0xf1, 0xe7, 0xe4]
    ensures Add(0xe238d763, 0x3320646e) == 0x15593bd1 && LeBytes(0x15593bd1) == [0xd1, 0x3b, 0x59, 0x15]
    ensures Add(0xa67ae21e, 0x79622d32) == 0x1fdd0f50 && LeBytes(0x1fdd0f50) == [0x50, 0x0f, 0xdd, 0x1f]
    ensures Add(0x5950bb2f, 0x6b206574) == 0xc47120a3 && LeBytes(0xc47120a3) == [0xa3, 0x20, 0x71, 0xc4]
  {
  }

  lemma Sum1()
    ensures Add(0xc4f2d0c7, 0x03020100) == 0xc7f4d1c7 && LeBytes(0xc7f4d1c7) == [0xc7, 0xd1, 0xf4, 0xc7]
    ensures Add(0xfc62bb2f, 0x07060504) == 0x0368c033 && LeBytes(0x0368c033) == [0x33, 0xc0, 0x68, 0x03]
    ensures Add(0x8fa018fc, 0x0b0a0908) == 0x9aaa2204 && LeBytes(0x9aaa2204) == [0x04, 0x22, 0xaa, 0x9a]
    ensures Add(0x3f5ec7b7, 0x0f0e0d0c) == 0x4e6cd4c3 && LeBytes(0x4e6cd4c3) == [0xc3, 0xd4, 0x6c, 0x4e]
  {
  }

  lemma Sum2()
    ensures Add(0x335271c2, 0x13121110) == 0x466482d2 && LeBytes(0x466482d2) == [0xd2, 0x82, 0x64, 0x46]
    ensures Add(0xf29489f3, 0x17161514) == 0x09aa9f07 && LeBytes(0x09aa9f07) == [0x07, 0x9f, 0xaa, 0x09]
    ensures Add(0xeabda8fc, 0x1b1a1918) == 0x05d7c214 && LeBytes(0x05d7c214) == [0x14, 0xc2, 0xd7, 0x05]
    ensures Add(0x82e46ebd, 0x1f1e1d1c) == 0xa2028bd9 && LeBytes(0xa2028bd9) == [0xd9, 0x8b, 0x02, 0xa2]
  {
  }

  lemma Sum3()
    ensures Add(0xd19c12b4, 0x00000001) == 0xd19c12b5 && LeBytes(0xd19c12b5) == [0xb5, 0x12, 0x9c, 0xd1]
    ensures Add(0xb04e16de, 0x09000000) == 0xb94e16de && LeBytes(0xb94e16de) == [0xde, 0x16, 0x4e, 0xb9]
    ensures Add(0x9e83d0cb, 0x4a000000) == 0xe883d0cb && LeBytes(0xe883d0cb) == [0xcb, 0xd0, 0x83, 0xe8]
    ensures Add(0x4e3c50a2, 0x00000000) == 0x4e3c50a2 && LeBytes(0x4e3c50a2) == [0xa2, 0x50, 0x3c, 0x4e]
  {
  }

  lemma SameWords(y: Words, z: Words)
    requires y[0] == z[0] && y[1] == z[1] && y[2] == z[2] && y[3] == z[3]
    requires y[4] == z[4] && y[5] == z[5] && y[6] == z[6] && y[7] == z[7]
    requires y[8] == z[8] && y[9] == z[9] && y[10] == z[10] && y[11] == z[11]
    requires y[12] == z[12] && y[13] == z[13] && y[14] == z[14] && y[15] == z[15]
    ensures y == z
  {
  }

  lemma FeedForward()
    ensures Sums(AFTER20, AFTER0) == SUM
  {
    hide Add;
    Sum0();
    Sum1();
    Sum2();
    Sum3();
    var s := Sums(AFTER20, AFTER0);
    assert s[0] == SUM[0] && s[1] == SUM[1] && s[2] == SUM[2] && s[3] == SUM[3];
    assert s[4] == SUM[4] && s[5] == SUM[5] && s[6] == SUM[6] && s[7] == SUM[7];
    assert s[8] == SUM[8] && s[9] == SUM[9] && s[10] == SUM[10] && s[11] == SUM[11];
    assert s[12] == SUM[12] && s[13] == SUM[13] && s[14] == SUM[14] && s[15] == SUM[15];
    SameWords(s, SUM);
  }

  lemma SerializedLine0()
    ensures Serialized(SUM[..4]) == Serialized(SUM[..0]) + LINE0
  {
    hide Serialized, LeBytes, Add;
    Sum0();
    SerializedNext(SUM, 0);
    SerializedNext(SUM, 1);
    SerializedNext(SUM, 2);
    SerializedNext(SUM, 3);
  }

  lemma SerializedLine1()
    ensures Serialized(SUM[..8]) == Serialized(SUM[..4]) + LINE1
  {
    hide Serialized, LeBytes, Add;
    Sum1();
    SerializedNext(SUM, 4);
    SerializedNext(SUM, 5);
    SerializedNext(SUM, 6);
    SerializedNext(SUM, 7);
  }

  lemma SerializedLine2()
    ensures Serialized(SUM[..12]) == Serialized(SUM[..8]) + LINE2
  {
    hide Serialized, LeBytes, Add;
    Sum2();
    SerializedNext(SUM, 8);
    SerializedNext(SUM, 9);
    SerializedNext(SUM, 10);
    SerializedNext(SUM, 11);
  }

  lemma SerializedLine3()
    ensures Serialized(SUM[..16]) == Serialized(SUM[..12]) + LINE3
  {
    hide Serialized, LeBytes, Add;
    Sum3();
    SerializedNext(SUM, 12);
    SerializedNext(SUM, 13);
    SerializedNext(SUM, 14);
    SerializedNext(SUM, 15);
  }

  lemma AllSerialized()
    ensures Serialized(SUM) == BLOCK
  {
    hide Serialized, LINE0, LINE1, LINE2, LINE3;
    NoWords();
    assert SUM[..0] == [] && SUM[..16] == SUM;
    SerializedLine0();
    SerializedLine1();
    SerializedLine2();
    SerializedLine3();
  }

  lemma NoWords()
    ensures Serialized([]) == []
  {
  }

  lemma KeyLength()
    ensures |KEY_NONCE| == 44
  {
  }

  /** The whole block of section 2.3.2, from the bytes of the key and of the nonce. */
  lemma BlockVector()
    ensures |KEY_NONCE| == KEY_NONCE_SIZE && Block(Bumped(InitState(KEY_NONCE))) == BLOCK
  {
    hide InitState, Bumped, Rounds, Sums, Serialized, AFTER0, AFTER20, SUM, BLOCK;
    KeyLength();
    FirstState();
    TwentyRounds();
    FeedForward();
    AllSerialized();
  }
}
