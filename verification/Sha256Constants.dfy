/** Where the constants of src/common/sha256.c come from: sections 4.2.2 and 5.3.3 of FIPS 180-4. */
module Sha256Constants {
  import opened Bytes
  import opened Division
  import opened Primes
  import opened Sha256Compress
  import opened Sha256
  import opened Sha256Words

  /** n is the cube root of p with 32 binary places, cut off. */
  predicate CubeRoot(n: nat, p: nat) {
    n * n * n <= p * (WORD * WORD * WORD) < (n + 1) * (n + 1) * (n + 1)
  }

  /** n is the square root of p with 32 binary places, cut off. */
  predicate SquareRoot(n: nat, p: nat) {
    n * n <= p * (WORD * WORD) < (n + 1) * (n + 1)
  }

  lemma Rises(m: nat, n: nat)
    ensures m <= n ==> m * m <= n * n && m * m * m <= n * n * n
  {
    if m <= n {
      MulMonotone(m, n, m);
      MulMonotone(m, n, n);
      MulMonotone(m * m, n * n, m);
      MulMonotone(m, n, n * n);
    }
  }

  /** There is only one such root. */
  lemma RootIsUnique(m: nat, n: nat, p: nat)
    ensures CubeRoot(m, p) && CubeRoot(n, p) ==> m == n
    ensures SquareRoot(m, p) && SquareRoot(n, p) ==> m == n
  {
    Rises(m + 1, n);
    Rises(n + 1, m);
  }

  /** k has the first 32 bits of the fractional part of the cube root of p. */
  ghost predicate CubeRootBits(p: nat, k: Word) {
    exists n: nat :: CubeRoot(n, p) && n % WORD == Unsigned(k)
  }

  ghost predicate SquareRootBits(p: nat, k: Word) {
    exists n: nat :: SquareRoot(n, p) && n % WORD == Unsigned(k)
  }

  /** Round constant i comes from the cube root of prime number i, and nothing else does. */
  lemma RoundConstants(i: nat, k: Word)
    requires i < 64
    ensures |FIRST| == 64 && (CubeRootBits(FIRST[i], k) <==> k == K[i])
  {
    hide *;
    FirstLength();
    RoundConstant(i);
    CubeRootBitsAre(FIRST[i], k, K[i]);
  }

  lemma CubeRootBitsAre(p: nat, k: Word, l: Word)
    ensures CubeRootBits(p, k) && CubeRootBits(p, l) ==> k == l
  {
    if CubeRootBits(p, k) && CubeRootBits(p, l) {
      var m: nat :| CubeRoot(m, p) && m % WORD == Unsigned(k);
      var n: nat :| CubeRoot(n, p) && n % WORD == Unsigned(l);
      RootIsUnique(m, n, p);
      UnsignedIsInjective(k, l);
    }
  }

  lemma SquareRootBitsAre(p: nat, k: Word, l: Word)
    ensures SquareRootBits(p, k) && SquareRootBits(p, l) ==> k == l
  {
    if SquareRootBits(p, k) && SquareRootBits(p, l) {
      var m: nat :| SquareRoot(m, p) && m % WORD == Unsigned(k);
      var n: nat :| SquareRoot(n, p) && n % WORD == Unsigned(l);
      RootIsUnique(m, n, p);
      UnsignedIsInjective(k, l);
    }
  }

  /** The words of the initial hash value come from the square roots of the first eight primes. */
  lemma InitialWords(i: nat, k: Word)
    requires i < 8
    ensures |FIRST| == 64 && (SquareRootBits(FIRST[i], k) <==> k == INITIAL[i])
  {
    hide SquareRootBits, Unsigned;
    FirstLength();
    InitialRoots();
    SquareRootBitsAre(FIRST[i], k, INITIAL[i]);
  }

  lemma InitialRoots()
    ensures SquareRootBits(2, 0x6a09e667)
    ensures SquareRootBits(3, 0xbb67ae85)
    ensures SquareRootBits(5, 0x3c6ef372)
    ensures SquareRootBits(7, 0xa54ff53a)
    ensures SquareRootBits(11, 0x510e527f)
    ensures SquareRootBits(13, 0x9b05688c)
    ensures SquareRootBits(17, 0x1f83d9ab)
    ensures SquareRootBits(19, 0x5be0cd19)
  {
    assert SquareRoot(0x16a09e667, 2) && Unsigned(0x6a09e667) == 0x6a09e667;
    assert SquareRoot(0x1bb67ae85, 3) && Unsigned(0xbb67ae85) == 0xbb67ae85;
    assert SquareRoot(0x23c6ef372, 5) && Unsigned(0x3c6ef372) == 0x3c6ef372;
    assert SquareRoot(0x2a54ff53a, 7) && Unsigned(0xa54ff53a) == 0xa54ff53a;
    assert SquareRoot(0x3510e527f, 11) && Unsigned(0x510e527f) == 0x510e527f;
    assert SquareRoot(0x39b05688c, 13) && Unsigned(0x9b05688c) == 0x9b05688c;
    assert SquareRoot(0x41f83d9ab, 17) && Unsigned(0x1f83d9ab) == 0x1f83d9ab;
    assert SquareRoot(0x45be0cd19, 19) && Unsigned(0x5be0cd19) == 0x5be0cd19;
  }

  lemma RoundConstant(i: nat)
    requires i < 64
    ensures |FIRST| == 64 && CubeRootBits(FIRST[i], K[i])
  {
    hide *;
    if i < 8 {
      Row1(i);
    } else if i < 16 {
      Row2(i);
    } else if i < 24 {
      Row3(i);
    } else if i < 32 {
      Row4(i);
    } else if i < 40 {
      Row5(i);
    } else if i < 48 {
      Row6(i);
    } else if i < 56 {
      Row7(i);
    } else {
      Row8(i);
    }
  }

  lemma Row1(i: nat)
    requires i < 8
    ensures |FIRST| == 64 && CubeRootBits(FIRST[i], K[i])
  {
    hide CubeRootBits, Unsigned;
    FirstLength();
    Roots1();
  }

  lemma Roots1()
    ensures CubeRootBits(2, 0x428a2f98)
    ensures CubeRootBits(3, 0x71374491)
    ensures CubeRootBits(5, 0xb5c0fbcf)
    ensures CubeRootBits(7, 0xe9b5dba5)
    ensures CubeRootBits(11, 0x3956c25b)
    ensures CubeRootBits(13, 0x59f111f1)
    ensures CubeRootBits(17, 0x923f82a4)
    ensures CubeRootBits(19, 0xab1c5ed5)
  {
    assert CubeRoot(0x1428a2f98, 2) && Unsigned(0x428a2f98) == 0x428a2f98;
    assert CubeRoot(0x171374491, 3) && Unsigned(0x71374491) == 0x71374491;
    assert CubeRoot(0x1b5c0fbcf, 5) && Unsigned(0xb5c0fbcf) == 0xb5c0fbcf;
    assert CubeRoot(0x1e9b5dba5, 7) && Unsigned(0xe9b5dba5) == 0xe9b5dba5;
    assert CubeRoot(0x23956c25b, 11) && Unsigned(0x3956c25b) == 0x3956c25b;
    assert CubeRoot(0x259f111f1, 13) && Unsigned(0x59f111f1) == 0x59f111f1;
    assert CubeRoot(0x2923f82a4, 17) && Unsigned(0x923f82a4) == 0x923f82a4;
    assert CubeRoot(0x2ab1c5ed5, 19) && Unsigned(0xab1c5ed5) == 0xab1c5ed5;
  }

  lemma Row2(i: nat)
    requires 8 <= i < 16
    ensures |FIRST| == 64 && CubeRootBits(FIRST[i], K[i])
  {
    hide CubeRootBits, Unsigned;
    FirstLength();
    Roots2();
  }

  lemma Roots2()
    ensures CubeRootBits(23, 0xd807aa98)
    ensures CubeRootBits(29, 0x12835b01)
    ensures CubeRootBits(31, 0x243185be)
    ensures CubeRootBits(37, 0x550c7dc3)
    ensures CubeRootBits(41, 0x72be5d74)
    ensures CubeRootBits(43, 0x80deb1fe)
    ensures CubeRootBits(47, 0x9bdc06a7)
    ensures CubeRootBits(53, 0xc19bf174)
  {
    assert CubeRoot(0x2d807aa98, 23) && Unsigned(0xd807aa98) == 0xd807aa98;
    assert CubeRoot(0x312835b01, 29) && Unsigned(0x12835b01) == 0x12835b01;
    assert CubeRoot(0x3243185be, 31) && Unsigned(0x243185be) == 0x243185be;
    assert CubeRoot(0x3550c7dc3, 37) && Unsigned(0x550c7dc3) == 0x550c7dc3;
    assert CubeRoot(0x372be5d74, 41) && Unsigned(0x72be5d74) == 0x72be5d74;
    assert CubeRoot(0x380deb1fe, 43) && Unsigned(0x80deb1fe) == 0x80deb1fe;
    assert CubeRoot(0x39bdc06a7, 47) && Unsigned(0x9bdc06a7) == 0x9bdc06a7;
    assert CubeRoot(0x3c19bf174, 53) && Unsigned(0xc19bf174) == 0xc19bf174;
  }

  lemma Row3(i: nat)
    requires 16 <= i < 24
    ensures |FIRST| == 64 && CubeRootBits(FIRST[i], K[i])
  {
    hide CubeRootBits, Unsigned;
    FirstLength();
    Roots3();
  }

  lemma Roots3()
    ensures CubeRootBits(59, 0xe49b69c1)
    ensures CubeRootBits(61, 0xefbe4786)
    ensures CubeRootBits(67, 0x0fc19dc6)
    ensures CubeRootBits(71, 0x240ca1cc)
    ensures CubeRootBits(73, 0x2de92c6f)
    ensures CubeRootBits(79, 0x4a7484aa)
    ensures CubeRootBits(83, 0x5cb0a9dc)
    ensures CubeRootBits(89, 0x76f988da)
  {
    assert CubeRoot(0x3e49b69c1, 59) && Unsigned(0xe49b69c1) == 0xe49b69c1;
    assert CubeRoot(0x3efbe4786, 61) && Unsigned(0xefbe4786) == 0xefbe4786;
    assert CubeRoot(0x40fc19dc6, 67) && Unsigned(0x0fc19dc6) == 0x0fc19dc6;
    assert CubeRoot(0x4240ca1cc, 71) && Unsigned(0x240ca1cc) == 0x240ca1cc;
    assert CubeRoot(0x42de92c6f, 73) && Unsigned(0x2de92c6f) == 0x2de92c6f;
    assert CubeRoot(0x44a7484aa, 79) && Unsigned(0x4a7484aa) == 0x4a7484aa;
    assert CubeRoot(0x45cb0a9dc, 83) && Unsigned(0x5cb0a9dc) == 0x5cb0a9dc;
    assert CubeRoot(0x476f988da, 89) && Unsigned(0x76f988da) == 0x76f988da;
  }

  lemma Row4(i: nat)
    requires 24 <= i < 32
    ensures |FIRST| == 64 && CubeRootBits(FIRST[i], K[i])
  {
    hide CubeRootBits, Unsigned;
    FirstLength();
    Roots4();
  }

  lemma Roots4()
    ensures CubeRootBits(97, 0x983e5152)
    ensures CubeRootBits(101, 0xa831c66d)
    ensures CubeRootBits(103, 0xb00327c8)
    ensures CubeRootBits(107, 0xbf597fc7)
    ensures CubeRootBits(109, 0xc6e00bf3)
    ensures CubeRootBits(113, 0xd5a79147)
    ensures CubeRootBits(127, 0x06ca6351)
    ensures CubeRootBits(131, 0x14292967)
  {
    assert CubeRoot(0x4983e5152, 97) && Unsigned(0x983e5152) == 0x983e5152;
    assert CubeRoot(0x4a831c66d, 101) && Unsigned(0xa831c66d) == 0xa831c66d;
    assert CubeRoot(0x4b00327c8, 103) && Unsigned(0xb00327c8) == 0xb00327c8;
    assert CubeRoot(0x4bf597fc7, 107) && Unsigned(0xbf597fc7) == 0xbf597fc7;
    assert CubeRoot(0x4c6e00bf3, 109) && Unsigned(0xc6e00bf3) == 0xc6e00bf3;
    assert CubeRoot(0x4d5a79147, 113) && Unsigned(0xd5a79147) == 0xd5a79147;
    assert CubeRoot(0x506ca6351, 127) && Unsigned(0x06ca6351) == 0x06ca6351;
    assert CubeRoot(0x514292967, 131) && Unsigned(0x14292967) == 0x14292967;
  }

  lemma Row5(i: nat)
    requires 32 <= i < 40
    ensures |FIRST| == 64 && CubeRootBits(FIRST[i], K[i])
  {
    hide CubeRootBits, Unsigned;
    FirstLength();
    Roots5();
  }

  lemma Roots5()
    ensures CubeRootBits(137, 0x27b70a85)
    ensures CubeRootBits(139, 0x2e1b2138)
    ensures CubeRootBits(149, 0x4d2c6dfc)
    ensures CubeRootBits(151, 0x53380d13)
    ensures CubeRootBits(157, 0x650a7354)
    ensures CubeRootBits(163, 0x766a0abb)
    ensures CubeRootBits(167, 0x81c2c92e)
    ensures CubeRootBits(173, 0x92722c85)
  {
    assert CubeRoot(0x527b70a85, 137) && Unsigned(0x27b70a85) == 0x27b70a85;
    assert CubeRoot(0x52e1b2138, 139) && Unsigned(0x2e1b2138) == 0x2e1b2138;
    assert CubeRoot(0x54d2c6dfc, 149) && Unsigned(0x4d2c6dfc) == 0x4d2c6dfc;
    assert CubeRoot(0x553380d13, 151) && Unsigned(0x53380d13) == 0x53380d13;
    assert CubeRoot(0x5650a7354, 157) && Unsigned(0x650a7354) == 0x650a7354;
    assert CubeRoot(0x5766a0abb, 163) && Unsigned(0x766a0abb) == 0x766a0abb;
    assert CubeRoot(0x581c2c92e, 167) && Unsigned(0x81c2c92e) == 0x81c2c92e;
    assert CubeRoot(0x592722c85, 173) && Unsigned(0x92722c85) == 0x92722c85;
  }

  lemma Row6(i: nat)
    requires 40 <= i < 48
    ensures |FIRST| == 64 && CubeRootBits(FIRST[i], K[i])
  {
    hide CubeRootBits, Unsigned;
    FirstLength();
    Roots6();
  }

  lemma Roots6()
    ensures CubeRootBits(179, 0xa2bfe8a1)
    ensures CubeRootBits(181, 0xa81a664b)
    ensures CubeRootBits(191, 0xc24b8b70)
    ensures CubeRootBits(193, 0xc76c51a3)
    ensures CubeRootBits(197, 0xd192e819)
    ensures CubeRootBits(199, 0xd6990624)
    ensures CubeRootBits(211, 0xf40e3585)
    ensures CubeRootBits(223, 0x106aa070)
  {
    assert CubeRoot(0x5a2bfe8a1, 179) && Unsigned(0xa2bfe8a1) == 0xa2bfe8a1;
    assert CubeRoot(0x5a81a664b, 181) && Unsigned(0xa81a664b) == 0xa81a664b;
    assert CubeRoot(0x5c24b8b70, 191) && Unsigned(0xc24b8b70) == 0xc24b8b70;
    assert CubeRoot(0x5c76c51a3, 193) && Unsigned(0xc76c51a3) == 0xc76c51a3;
    assert CubeRoot(0x5d192e819, 197) && Unsigned(0xd192e819) == 0xd192e819;
    assert CubeRoot(0x5d6990624, 199) && Unsigned(0xd6990624) == 0xd6990624;
    assert CubeRoot(0x5f40e3585, 211) && Unsigned(0xf40e3585) == 0xf40e3585;
    assert CubeRoot(0x6106aa070, 223) && Unsigned(0x106aa070) == 0x106aa070;
  }

  lemma Row7(i: nat)
    requires 48 <= i < 56
    ensures |FIRST| == 64 && CubeRootBits(FIRST[i], K[i])
  {
    hide CubeRootBits, Unsigned;
    FirstLength();
    Roots7();
  }

  lemma Roots7()
    ensures CubeRootBits(227, 0x19a4c116)
    ensures CubeRootBits(229, 0x1e376c08)
    ensures CubeRootBits(233, 0x2748774c)
    ensures CubeRootBits(239, 0x34b0bcb5)
    ensures CubeRootBits(241, 0x391c0cb3)
    ensures CubeRootBits(251, 0x4ed8aa4a)
    ensures CubeRootBits(257, 0x5b9cca4f)
    ensures CubeRootBits(263, 0x682e6ff3)
  {
    assert CubeRoot(0x619a4c116, 227) && Unsigned(0x19a4c116) == 0x19a4c116;
    assert CubeRoot(0x61e376c08, 229) && Unsigned(0x1e376c08) == 0x1e376c08;
    assert CubeRoot(0x62748774c, 233) && Unsigned(0x2748774c) == 0x2748774c;
    assert CubeRoot(0x634b0bcb5, 239) && Unsigned(0x34b0bcb5) == 0x34b0bcb5;
    assert CubeRoot(0x6391c0cb3, 241) && Unsigned(0x391c0cb3) == 0x391c0cb3;
    assert CubeRoot(0x64ed8aa4a, 251) && Unsigned(0x4ed8aa4a) == 0x4ed8aa4a;
    assert CubeRoot(0x65b9cca4f, 257) && Unsigned(0x5b9cca4f) == 0x5b9cca4f;
    assert CubeRoot(0x6682e6ff3, 263) && Unsigned(0x682e6ff3) == 0x682e6ff3;
  }

  lemma Row8(i: nat)
    requires 56 <= i < 64
    ensures |FIRST| == 64 && CubeRootBits(FIRST[i], K[i])
  {
    hide CubeRootBits, Unsigned;
    FirstLength();
    Roots8();
  }

  lemma Roots8()
    ensures CubeRootBits(269, 0x748f82ee)
    ensures CubeRootBits(271, 0x78a5636f)
    ensures CubeRootBits(277, 0x84c87814)
    ensures CubeRootBits(281, 0x8cc70208)
    ensures CubeRootBits(283, 0x90befffa)
    ensures CubeRootBits(293, 0xa4506ceb)
    ensures CubeRootBits(307, 0xbef9a3f7)
    ensures CubeRootBits(311, 0xc67178f2)
  {
    assert CubeRoot(0x6748f82ee, 269) && Unsigned(0x748f82ee) == 0x748f82ee;
    assert CubeRoot(0x678a5636f, 271) && Unsigned(0x78a5636f) == 0x78a5636f;
    assert CubeRoot(0x684c87814, 277) && Unsigned(0x84c87814) == 0x84c87814;
    assert CubeRoot(0x68cc70208, 281) && Unsigned(0x8cc70208) == 0x8cc70208;
    assert CubeRoot(0x690befffa, 283) && Unsigned(0x90befffa) == 0x90befffa;
    assert CubeRoot(0x6a4506ceb, 293) && Unsigned(0xa4506ceb) == 0xa4506ceb;
    assert CubeRoot(0x6bef9a3f7, 307) && Unsigned(0xbef9a3f7) == 0xbef9a3f7;
    assert CubeRoot(0x6c67178f2, 311) && Unsigned(0xc67178f2) == 0xc67178f2;
  }
}
