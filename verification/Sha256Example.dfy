/** The one-block example of FIPS 180-4: the digest of "abc", worked out step by step. */
module Sha256Example {
  import opened Bytes
  import opened Sha256Compress
  import opened Sha256

  const ABC: seq<Byte> := [0x61, 0x62, 0x63]

  /** The padded message is this block. */
  const BLOCK: seq<Byte> := [0x61, 0x62, 0x63, 0x80] + Zeros(52) + [0, 0, 0, 0, 0, 0, 0, 0x18]

  /** Its message schedule. */
  const W: Constants :=
    [0x61626380, 0x00000000, 0x00000000, 0x00000000, 0x00000000, 0x00000000, 0x00000000, 0x00000000]
    + [0x00000000, 0x00000000, 0x00000000, 0x00000000, 0x00000000, 0x00000000, 0x00000000, 0x00000018]
    + [0x61626380, 0x000f0000, 0x7da86405, 0x600003c6, 0x3e9d7b78, 0x0183fc00, 0x12dcbfdb, 0xe2e2c38e]
    + [0xc8215c1a, 0xb73679a2, 0xe5bc3909, 0x32663c5b, 0x9d209d67, 0xec8726cb, 0x702138a4, 0xd3b7973b]
    + [0x93f5997f, 0x3b68ba73, 0xaff4ffc1, 0xf10a5c62, 0x0a8b3996, 0x72af830a, 0x9409e33e, 0x24641522]
    + [0x9f47bf94, 0xf0a64f5a, 0x3e246a79, 0x27333ba3, 0x0c4763f2, 0x840abf27, 0x7a290d5d, 0x065c43da]
    + [0xfb3e89cb, 0xcc7617db, 0xb9e66c34, 0xa9993667, 0x84badedd, 0xc21462bc, 0x1487472c, 0xb20f7a99]
    + [0xef57b9cd, 0xebe6b238, 0x9fe3095e, 0x78bc8d4b, 0xa43fcf15, 0x668b2ff8, 0xeeaba2cc, 0x12b1edeb]

  // The schedule and the round constants, eight at a time.

  lemma Words1()
    ensures W[0] == 0x61626380 && W[1] == 0x00000000 && W[2] == 0x00000000 && W[3] == 0x00000000
    ensures W[4] == 0x00000000 && W[5] == 0x00000000 && W[6] == 0x00000000 && W[7] == 0x00000000
    ensures K[0] == 0x428a2f98 && K[1] == 0x71374491 && K[2] == 0xb5c0fbcf && K[3] == 0xe9b5dba5
    ensures K[4] == 0x3956c25b && K[5] == 0x59f111f1 && K[6] == 0x923f82a4 && K[7] == 0xab1c5ed5
  {
  }

  lemma Words2()
    ensures W[8] == 0x00000000 && W[9] == 0x00000000 && W[10] == 0x00000000 && W[11] == 0x00000000
    ensures W[12] == 0x00000000 && W[13] == 0x00000000 && W[14] == 0x00000000 && W[15] == 0x00000018
    ensures K[8] == 0xd807aa98 && K[9] == 0x12835b01 && K[10] == 0x243185be && K[11] == 0x550c7dc3
    ensures K[12] == 0x72be5d74 && K[13] == 0x80deb1fe && K[14] == 0x9bdc06a7 && K[15] == 0xc19bf174
  {
  }

  lemma Words3()
    ensures W[16] == 0x61626380 && W[17] == 0x000f0000 && W[18] == 0x7da86405 && W[19] == 0x600003c6
    ensures W[20] == 0x3e9d7b78 && W[21] == 0x0183fc00 && W[22] == 0x12dcbfdb && W[23] == 0xe2e2c38e
    ensures K[16] == 0xe49b69c1 && K[17] == 0xefbe4786 && K[18] == 0x0fc19dc6 && K[19] == 0x240ca1cc
    ensures K[20] == 0x2de92c6f && K[21] == 0x4a7484aa && K[22] == 0x5cb0a9dc && K[23] == 0x76f988da
  {
  }

  lemma Words4()
    ensures W[24] == 0xc8215c1a && W[25] == 0xb73679a2 && W[26] == 0xe5bc3909 && W[27] == 0x32663c5b
    ensures W[28] == 0x9d209d67 && W[29] == 0xec8726cb && W[30] == 0x702138a4 && W[31] == 0xd3b7973b
    ensures K[24] == 0x983e5152 && K[25] == 0xa831c66d && K[26] == 0xb00327c8 && K[27] == 0xbf597fc7
    ensures K[28] == 0xc6e00bf3 && K[29] == 0xd5a79147 && K[30] == 0x06ca6351 && K[31] == 0x14292967
  {
  }

  lemma Words5()
    ensures W[32] == 0x93f5997f && W[33] == 0x3b68ba73 && W[34] == 0xaff4ffc1 && W[35] == 0xf10a5c62
    ensures W[36] == 0x0a8b3996 && W[37] == 0x72af830a && W[38] == 0x9409e33e && W[39] == 0x24641522
    ensures K[32] == 0x27b70a85 && K[33] == 0x2e1b2138 && K[34] == 0x4d2c6dfc && K[35] == 0x53380d13
    ensures K[36] == 0x650a7354 && K[37] == 0x766a0abb && K[38] == 0x81c2c92e && K[39] == 0x92722c85
  {
  }

  lemma Words6()
    ensures W[40] == 0x9f47bf94 && W[41] == 0xf0a64f5a && W[42] == 0x3e246a79 && W[43] == 0x27333ba3
    ensures W[44] == 0x0c4763f2 && W[45] == 0x840abf27 && W[46] == 0x7a290d5d && W[47] == 0x065c43da
    ensures K[40] == 0xa2bfe8a1 && K[41] == 0xa81a664b && K[42] == 0xc24b8b70 && K[43] == 0xc76c51a3
    ensures K[44] == 0xd192e819 && K[45] == 0xd6990624 && K[46] == 0xf40e3585 && K[47] == 0x106aa070
  {
  }

  lemma Words7()
    ensures W[48] == 0xfb3e89cb && W[49] == 0xcc7617db && W[50] == 0xb9e66c34 && W[51] == 0xa9993667
    ensures W[52] == 0x84badedd && W[53] == 0xc21462bc && W[54] == 0x1487472c && W[55] == 0xb20f7a99
    ensures K[48] == 0x19a4c116 && K[49] == 0x1e376c08 && K[50] == 0x2748774c && K[51] == 0x34b0bcb5
    ensures K[52] == 0x391c0cb3 && K[53] == 0x4ed8aa4a && K[54] == 0x5b9cca4f && K[55] == 0x682e6ff3
  {
  }

  lemma Words8()
    ensures W[56] == 0xef57b9cd && W[57] == 0xebe6b238 && W[58] == 0x9fe3095e && W[59] == 0x78bc8d4b
    ensures W[60] == 0xa43fcf15 && W[61] == 0x668b2ff8 && W[62] == 0xeeaba2cc && W[63] == 0x12b1edeb
    ensures K[56] == 0x748f82ee && K[57] == 0x78a5636f && K[58] == 0x84c87814 && K[59] == 0x8cc70208
    ensures K[60] == 0x90befffa && K[61] == 0xa4506ceb && K[62] == 0xbef9a3f7 && K[63] == 0xc67178f2
  {
  }

  // The registers after the first and every second round.

  lemma Rounds1()
    ensures Rounds(INITIAL, W, 8) ==
            [0x85a07b5f, 0xe5030380, 0x2b4209f5, 0x04409a6a, 0x0c657a79, 0x9b27a401, 0x714260ad, 0x43ada245]
  {
    hide W, K;
    Words1();
    assert Rounds(INITIAL, W, 1) ==
           [0x5d6aebcd, 0x6a09e667, 0xbb67ae85, 0x3c6ef372, 0xfa2a4622, 0x510e527f, 0x9b05688c, 0x1f83d9ab];
    assert Rounds(INITIAL, W, 2) ==
           [0x5a6ad9ad, 0x5d6aebcd, 0x6a09e667, 0xbb67ae85, 0x78ce7989, 0xfa2a4622, 0x510e527f, 0x9b05688c];
    assert Rounds(INITIAL, W, 4) ==
           [0xd550f666, 0xc8c347a7, 0x5a6ad9ad, 0x5d6aebcd, 0x24e00850, 0xf92939eb, 0x78ce7989, 0xfa2a4622];
    assert Rounds(INITIAL, W, 6) ==
           [0x2b4209f5, 0x04409a6a, 0xd550f666, 0xc8c347a7, 0x714260ad, 0x43ada245, 0x24e00850, 0xf92939eb];
  }

  lemma Rounds2()
    ensures Rounds(INITIAL, W, 16) ==
            [0xb0fa238e, 0xc0645fde, 0xd932eb16, 0x87912990, 0x07590dcd, 0x0b92f20c, 0x745a48de, 0x1e578218]
  {
    hide W, K, INITIAL;
    Words2();
    Rounds1();
    assert Rounds(INITIAL, W, 10) ==
           [0x8c87346b, 0x8e04ecb9, 0x85a07b5f, 0xe5030380, 0x1cc92596, 0x32ca2d8c, 0x0c657a79, 0x9b27a401];
    assert Rounds(INITIAL, W, 12) ==
           [0xf71fc5a9, 0x4798a3f4, 0x8c87346b, 0x8e04ecb9, 0x816fd6e9, 0x436b23e8, 0x1cc92596, 0x32ca2d8c];
    assert Rounds(INITIAL, W, 14) ==
           [0xd932eb16, 0x87912990, 0xf71fc5a9, 0x4798a3f4, 0x745a48de, 0x1e578218, 0x816fd6e9, 0x436b23e8];
  }

  lemma Rounds3()
    ensures Rounds(INITIAL, W, 24) ==
            [0xc5d53d8d, 0xa7a3623f, 0xc2606d6d, 0x9dc68b63, 0xaa47c347, 0x49f5114a, 0xe1257970, 0x8ada8930]
  {
    hide W, K, INITIAL;
    Words3();
    Rounds2();
    assert Rounds(INITIAL, W, 18) ==
           [0xc2fbd9d1, 0x21da9a9b, 0xb0fa238e, 0xc0645fde, 0x846ee454, 0x8034229c, 0x07590dcd, 0x0b92f20c];
    assert Rounds(INITIAL, W, 20) ==
           [0xe1f20c33, 0xfe777bbf, 0xc2fbd9d1, 0x21da9a9b, 0xb0638179, 0xcc899961, 0x846ee454, 0x8034229c];
    assert Rounds(INITIAL, W, 22) ==
           [0xc2606d6d, 0x9dc68b63, 0xe1f20c33, 0xfe777bbf, 0xe1257970, 0x8ada8930, 0xb0638179, 0xcc899961];
  }

  lemma Rounds4()
    ensures Rounds(INITIAL, W, 32) ==
            [0x73b33bf5, 0xea992a22, 0xa0060b30, 0x363482c9, 0xba591112, 0x0109ab3a, 0xade79437, 0x6112a3b7]
  {
    hide W, K, INITIAL;
    Words4();
    Rounds3();
    assert Rounds(INITIAL, W, 26) ==
           [0xcde8037d, 0x1c2c2838, 0xc5d53d8d, 0xa7a3623f, 0x14383d8e, 0x2823ef91, 0xaa47c347, 0x49f5114a];
    assert Rounds(INITIAL, W, 28) ==
           [0x77d37528, 0xb62ec4bc, 0xcde8037d, 0x1c2c2838, 0xedffbff8, 0xc74c6516, 0x14383d8e, 0x2823ef91];
    assert Rounds(INITIAL, W, 30) ==
           [0xa0060b30, 0x363482c9, 0x77d37528, 0xb62ec4bc, 0xade79437, 0x6112a3b7, 0xedffbff8, 0xc74c6516];
  }

  lemma Rounds5()
    ensures Rounds(INITIAL, W, 40) ==
            [0x79ea687a, 0x6dc57a8a, 0x34df1604, 0x41a65cb1, 0x1efbc0a0, 0xf0781bc8, 0xa507a53d, 0x0772a26b]
  {
    hide W, K, INITIAL;
    Words5();
    Rounds4();
    assert Rounds(INITIAL, W, 34) ==
           [0xfe604df5, 0x98e12507, 0x73b33bf5, 0xea992a22, 0x59249dd3, 0x9cd9f5f6, 0xba591112, 0x0109ab3a];
    assert Rounds(INITIAL, W, 36) ==
           [0x65a0cfe4, 0xa9a7738c, 0xfe604df5, 0x98e12507, 0xf4b002d6, 0x085f3833, 0x59249dd3, 0x9cd9f5f6];
    assert Rounds(INITIAL, W, 38) ==
           [0x34df1604, 0x41a65cb1, 0x65a0cfe4, 0xa9a7738c, 0xa507a53d, 0x0772a26b, 0xf4b002d6, 0x085f3833];
  }

  lemma Rounds6()
    ensures Rounds(INITIAL, W, 48) ==
            [0x4172328d, 0xa14c14b0, 0x72ab4b91, 0x26628815, 0xfecf0bc6, 0xd57b94a9, 0xb7755da1, 0xa80f11f0]
  {
    hide W, K, INITIAL;
    Words6();
    Rounds5();
    assert Rounds(INITIAL, W, 42) ==
           [0xdf46652f, 0xd6670766, 0x79ea687a, 0x6dc57a8a, 0x838b2711, 0x26352d63, 0x1efbc0a0, 0xf0781bc8];
    assert Rounds(INITIAL, W, 44) ==
           [0x9d4baf93, 0x17aa0dfe, 0xdf46652f, 0xd6670766, 0xfda24c2e, 0xdecd4715, 0x838b2711, 0x26352d63];
    assert Rounds(INITIAL, W, 46) ==
           [0x72ab4b91, 0x26628815, 0x9d4baf93, 0x17aa0dfe, 0xb7755da1, 0xa80f11f0, 0xfda24c2e, 0xdecd4715];
  }

  lemma Rounds7()
    ensures Rounds(INITIAL, W, 56) ==
            [0x38cc9913, 0x3ec45cdb, 0xf5702fdb, 0x101fd28f, 0x54cb266b, 0xe50e1b4f, 0x9f4787c3, 0x529e7d00]
  {
    hide W, K, INITIAL;
    Words7();
    Rounds6();
    assert Rounds(INITIAL, W, 50) ==
           [0xf11bfaa8, 0x05757ceb, 0x4172328d, 0xa14c14b0, 0x6e5c390c, 0xbd714038, 0xfecf0bc6, 0xd57b94a9];
    assert Rounds(INITIAL, W, 52) ==
           [0x886e7a22, 0x7a0508a1, 0xf11bfaa8, 0x05757ceb, 0x49231c1e, 0x52f1ccf7, 0x6e5c390c, 0xbd714038];
    assert Rounds(INITIAL, W, 54) ==
           [0xf5702fdb, 0x101fd28f, 0x886e7a22, 0x7a0508a1, 0x9f4787c3, 0x529e7d00, 0x49231c1e, 0x52f1ccf7];
  }

  lemma Rounds8()
    ensures Rounds(INITIAL, W, 64) ==
            [0x506e3058, 0xd39a2165, 0x04d24d6c, 0xb85e2ce9, 0x5ef50f24, 0xfb121210, 0x948d25b6, 0x961f4894]
  {
    hide W, K, INITIAL;
    Words8();
    Rounds7();
    assert Rounds(INITIAL, W, 58) ==
           [0xc062d46f, 0xfcd1887b, 0x38cc9913, 0x3ec45cdb, 0x7e44008e, 0x9b5e906c, 0x54cb266b, 0xe50e1b4f];
    assert Rounds(INITIAL, W, 60) ==
           [0xb6ae8fff, 0xffb70472, 0xc062d46f, 0xfcd1887b, 0xb21bad3d, 0x6d83bfc6, 0x7e44008e, 0x9b5e906c];
    assert Rounds(INITIAL, W, 62) ==
           [0x04d24d6c, 0xb85e2ce9, 0xb6ae8fff, 0xffb70472, 0x948d25b6, 0x961f4894, 0xb21bad3d, 0x6d83bfc6];
  }

  // The padding and the schedule.

  lemma PaddedIsBlock()
    ensures |BLOCK| == 64 && Pad(ABC) == BLOCK
  {
    hide Store64, BitLength;
    LengthField();
    assert |ABC| == 3;
    Marked(ABC, Zeros(52), Store64(BitLength(3)));
  }

  lemma Marked(m: seq<Byte>, z: seq<Byte>, l: seq<Byte>)
    requires m == [0x61, 0x62, 0x63]
    ensures m + [0x80] + z + l == [0x61, 0x62, 0x63, 0x80] + z + l
  {
    assert m + [0x80] == [0x61, 0x62, 0x63, 0x80];
  }

  lemma LengthField()
    ensures Store64(BitLength(3)) == [0, 0, 0, 0, 0, 0, 0, 0x18]
  {
    hide StoreWord;
    StoreExamples();
    var z: seq<Byte>, l: seq<Byte> := [0, 0, 0, 0], [0, 0, 0, 0x18];
    assert z + l == [0, 0, 0, 0, 0, 0, 0, 0x18];
  }

  lemma StoreExamples()
    ensures StoreWord(0) == [0, 0, 0, 0] && StoreWord(24) == [0, 0, 0, 0x18]
  {
  }

  lemma Loaded(t: nat)
    requires t < 16
    ensures |BLOCK| == 64 && W[t] == Load32(BLOCK[4 * t..4 * t + 4])
  {
    hide W, K, Load32;
    Words1();
    Words2();
    LoadExamples();
    BlockWords(t);
  }

  lemma BlockWords(t: nat)
    requires t < 16
    ensures |BLOCK| == 64
    ensures BLOCK[4 * t..4 * t + 4] ==
            if t == 0 then [0x61, 0x62, 0x63, 0x80] else if t == 15 then [0, 0, 0, 0x18] else [0, 0, 0, 0]
  {
  }

  lemma LoadExamples()
    ensures Load32([0x61, 0x62, 0x63, 0x80]) == 0x61626380 && Load32([0, 0, 0, 0]) == 0
    ensures Load32([0, 0, 0, 0x18]) == 0x18
  {
  }

  lemma Expanded3(t: nat)
    requires 16 <= t < 24
    ensures W[t] == Expand(W, t)
  {
    hide W, K;
    Words1();
    Words2();
    Words3();
  }

  lemma Expanded4(t: nat)
    requires 24 <= t < 32
    ensures W[t] == Expand(W, t)
  {
    hide W, K;
    Words2();
    Words3();
    Words4();
  }

  lemma Expanded5(t: nat)
    requires 32 <= t < 40
    ensures W[t] == Expand(W, t)
  {
    hide W, K;
    Words3();
    Words4();
    Words5();
  }

  lemma Expanded6(t: nat)
    requires 40 <= t < 48
    ensures W[t] == Expand(W, t)
  {
    hide W, K;
    Words4();
    Words5();
    Words6();
  }

  lemma Expanded7(t: nat)
    requires 48 <= t < 56
    ensures W[t] == Expand(W, t)
  {
    hide W, K;
    Words5();
    Words6();
    Words7();
  }

  lemma Expanded8(t: nat)
    requires 56 <= t < 64
    ensures W[t] == Expand(W, t)
  {
    hide W, K;
    Words6();
    Words7();
    Words8();
  }

  lemma ScheduleOfBlock()
    ensures |BLOCK| == 64 && Schedule(BLOCK, 64) == W
  {
    hide *;
    Loaded(0);
    forall t: nat | t < 16 ensures W[t] == Load32(BLOCK[4 * t..4 * t + 4]) {
      Loaded(t);
    }
    forall t: nat | 16 <= t < 64 ensures W[t] == Expand(W, t) {
      if t < 24 {
        Expanded3(t);
      } else if t < 32 {
        Expanded4(t);
      } else if t < 40 {
        Expanded5(t);
      } else if t < 48 {
        Expanded6(t);
      } else if t < 56 {
        Expanded7(t);
      } else {
        Expanded8(t);
      }
    }
    IsScheduleIf(BLOCK, W);
    ScheduleIsUnique(BLOCK, W);
  }

  lemma IsScheduleIf(block: seq<Byte>, w: Constants)
    requires |block| == 64
    requires forall t: nat | t < 16 :: w[t] == Load32(block[4 * t..4 * t + 4])
    requires forall t: nat | 16 <= t < 64 :: w[t] == Expand(w, t)
    ensures IsSchedule(block, w)
  {
    hide Load32, Expand;
  }

  lemma Added()
    ensures AddWords(
              INITIAL,
              [0x506e3058, 0xd39a2165, 0x04d24d6c, 0xb85e2ce9, 0x5ef50f24, 0xfb121210, 0x948d25b6, 0x961f4894]
            ) == [0xba7816bf, 0x8f01cfea, 0x414140de, 0x5dae2223, 0xb00361a3, 0x96177a9c, 0xb410ff61, 0xf20015ad]
  {
  }

  /** ba7816bf 8f01cfea 414140de 5dae2223 b00361a3 96177a9c b410ff61 f20015ad */
  lemma DigestOfAbc()
    ensures Hash(ABC) == [
              0xba, 0x78, 0x16, 0xbf, 0x8f, 0x01, 0xcf, 0xea, 0x41, 0x41, 0x40, 0xde, 0x5d, 0xae, 0x22, 0x23,
              0xb0, 0x03, 0x61, 0xa3, 0x96, 0x17, 0x7a, 0x9c, 0xb4, 0x10, 0xff, 0x61, 0xf2, 0x00, 0x15, 0xad
            ]
  {
    hide *;
    PaddedIsBlock();
    ScheduleOfBlock();
    Rounds8();
    Added();
    OneBlock(BLOCK);
    Stored();
    HashIs(ABC);
  }

  lemma HashIs(m: seq<Byte>)
    ensures Hash(m) == Digest(Fold(INITIAL, Pad(m)))
  {
    hide Fold, Pad, Digest;
  }

  lemma OneBlock(b: seq<Byte>)
    requires |b| == 64
    ensures Fold(INITIAL, b) == AddWords(INITIAL, Rounds(INITIAL, Schedule(b, 64), 64))
  {
    hide Rounds, Schedule, AddWords, INITIAL;
    FoldOneMore(INITIAL, [], b);
    assert [] + b == b;
  }

  lemma Stored()
    ensures Digest([0xba7816bf, 0x8f01cfea, 0x414140de, 0x5dae2223,
                    0xb00361a3, 0x96177a9c, 0xb410ff61, 0xf20015ad]) == [
              0xba, 0x78, 0x16, 0xbf, 0x8f, 0x01, 0xcf, 0xea, 0x41, 0x41, 0x40, 0xde, 0x5d, 0xae, 0x22, 0x23,
              0xb0, 0x03, 0x61, 0xa3, 0x96, 0x17, 0x7a, 0x9c, 0xb4, 0x10, 0xff, 0x61, 0xf2, 0x00, 0x15, 0xad
            ]
  {
    hide Store32;
    StoredWords();
  }

  lemma StoredWords()
    ensures Store32(0xba7816bf) == [0xba, 0x78, 0x16, 0xbf]
    ensures Store32(0x8f01cfea) == [0x8f, 0x01, 0xcf, 0xea]
    ensures Store32(0x414140de) == [0x41, 0x41, 0x40, 0xde]
    ensures Store32(0x5dae2223) == [0x5d, 0xae, 0x22, 0x23]
    ensures Store32(0xb00361a3) == [0xb0, 0x03, 0x61, 0xa3]
    ensures Store32(0x96177a9c) == [0x96, 0x17, 0x7a, 0x9c]
    ensures Store32(0xb410ff61) == [0xb4, 0x10, 0xff, 0x61]
    ensures Store32(0xf20015ad) == [0xf2, 0x00, 0x15, 0xad]
  {
  }
}
