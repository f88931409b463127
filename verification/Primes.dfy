/** The first 64 prime numbers, from which section 4.2.2 and section 5.3.3 of FIPS 180-4 take their
    constants. */
module Primes {
  import opened Division

  ghost predicate Prime(n: nat) {
    n >= 2 && forall d: nat | 2 <= d < n :: n % d != 0
  }

  const FIRST: seq<nat> :=
    [2, 3, 5, 7, 11, 13, 17, 19, 23, 29, 31, 37, 41, 43, 47, 53]
    + [59, 61, 67, 71, 73, 79, 83, 89, 97, 101, 103, 107, 109, 113, 127, 131]
    + [137, 139, 149, 151, 157, 163, 167, 173, 179, 181, 191, 193, 197, 199, 211, 223]
    + [227, 229, 233, 239, 241, 251, 257, 263, 269, 271, 277, 281, 283, 293, 307, 311]

  /** FIRST has the primes up to 311, all of them and in order. */
  lemma FirstPrimes()
    ensures |FIRST| == 64 && forall i, j | 0 <= i < j < 64 :: FIRST[i] < FIRST[j]
    ensures forall n: nat | n < 312 :: Prime(n) <==> n in FIRST
  {
    hide *;
    FirstLength();
    forall i, j | 0 <= i < j < 64 ensures FIRST[i] < FIRST[j] {
      Rising(i, j);
    }
    forall n: nat | n < 312 ensures Prime(n) <==> n in FIRST {
      SieveTells(n);
      FirstNumbers(n);
    }
  }

  lemma FirstLength()
    ensures |FIRST| == 64 && FIRST[0] == 2
  {
  }

  /** Not a multiple of a prime below 19, or that prime itself. */
  predicate Sieved(n: nat) {
    && n >= 2 && (n % 2 != 0 || n == 2) && (n % 3 != 0 || n == 3) && (n % 5 != 0 || n == 5) && (n % 7 != 0 || n == 7)
    && (n % 11 != 0 || n == 11) && (n % 13 != 0 || n == 13) && (n % 17 != 0 || n == 17)
  }

  /** Below 19 * 19 nothing else has to be tried. */
  lemma SieveTells(n: nat)
    requires n < 361
    ensures Sieved(n) <==> Prime(n)
  {
    if Sieved(n) {
      forall d: nat | 2 <= d < n ensures n % d != 0 {
        SmallFactor(n, d);
      }
    }
  }

  lemma SmallFactor(n: nat, d: nat)
    requires Sieved(n) && 2 <= d < n < 361
    ensures n % d != 0
  {
    if d < 19 {
      TinyFactor(n, d);
    } else {
      Cofactor(n, 19, d);
      if n % d == 0 {
        TinyFactor(n, n / d);
      }
    }
  }

  lemma TinyFactor(n: nat, d: nat)
    requires Sieved(n) && 2 <= d < n && d < 19
    ensures n % d != 0
  {
    if d in {2, 4, 6, 8, 10, 12, 14, 16, 18} {
      MultipleOf(n, 2, d / 2);
    } else if d in {3, 9, 15} {
      MultipleOf(n, 3, d / 3);
    } else {
      assert d in {5, 7, 11, 13, 17};
    }
  }

  lemma MultipleOf(n: nat, q: nat, k: nat)
    requires q > 0 && k > 0 && n % q != 0
    ensures n % (q * k) != 0
  {
    if n % (q * k) == 0 {
      var m := n / (q * k);
      assert n == m * (q * k);
      Reassociate(m, k, q);
      QuotientIs(n, q, m * k, 0);
    }
  }

  /** Of a factor and its cofactor one is no greater than the square root. */
  lemma Cofactor(n: nat, c: nat, d: nat)
    requires 2 <= c <= d < n < c * c
    ensures n % d == 0 ==> 2 <= n / d < c && n % (n / d) == 0
  {
    if n % d == 0 {
      var e := n / d;
      assert n == d * e;
      if e <= 1 {
        MulMonotone(e, 1, d);
      }
      if e >= c {
        MulMonotone(c, e, d);
        MulMonotone(c, d, c);
      }
      QuotientIs(n, e, d, 0);
    }
  }

  /** p stays in the sieve, and nothing does between p and q. */
  predicate Stretch(p: nat, q: nat)
    requires p < q
  {
    Sieved(p) && Emptied(p + 1, q)
  }

  predicate Emptied(n: nat, q: nat)
    requires n <= q
    decreases q - n
  {
    n == q || (!Sieved(n) && Emptied(n + 1, q))
  }

  lemma EmptiedAt(n: nat, q: nat, m: nat)
    requires n <= m < q && Emptied(n, q)
    ensures !Sieved(m)
    decreases q - n
  {
    if n < m {
      EmptiedAt(n + 1, q, m);
    }
  }

  /** The entry behind entry i, or the end of the list. */
  function Follower(i: nat): nat
    requires i < 64
  {
    FirstLength();
    if i < 63 then FIRST[i + 1] else 312
  }

  lemma {:induction false} Rising(i: nat, j: nat)
    requires i < j < 64
    ensures |FIRST| == 64 && FIRST[i] < FIRST[j]
  {
    FirstLength();
    StretchAt(j - 1);
    hide Stretch, FIRST;
    if i < j - 1 {
      Rising(i, j - 1);
    }
  }

  /** Every number from 2 on lies in one of the stretches. */
  lemma {:induction false} Located(n: nat, j: nat) returns (i: nat)
    requires 2 <= n && 0 < j <= 64 && n < Follower(j - 1)
    ensures |FIRST| == 64 && i < 64 && FIRST[i] <= n < Follower(i)
  {
    hide FIRST;
    FirstLength();
    if n < FIRST[j - 1] {
      i := Located(n, j - 1);
    } else {
      i := j - 1;
    }
  }

  lemma FirstNumbers(n: nat)
    requires n < 312
    ensures Sieved(n) <==> n in FIRST
  {
    hide FIRST;
    FirstLength();
    if n >= 2 {
      var i := Located(n, 64);
      StretchAt(i);
      hide Sieved, Follower;
      if FIRST[i] < n {
        EmptiedAt(FIRST[i] + 1, Follower(i), n);
      }
    }
    forall i | 0 <= i < 64 && FIRST[i] == n ensures Sieved(n) {
      StretchAt(i);
    }
  }

  lemma StretchAt(i: nat)
    requires i < 64
    ensures |FIRST| == 64 && FIRST[i] < Follower(i) && Stretch(FIRST[i], Follower(i))
  {
    hide *;
    FirstLength();
    if i < 16 {
      FirstRow(i);
    } else if i < 32 {
      SecondRow(i);
    } else if i < 48 {
      ThirdRow(i);
    } else {
      FourthRow(i);
    }
  }

  lemma FirstRow(i: nat)
    requires i < 16
    ensures |FIRST| == 64 && FIRST[i] < Follower(i) && Stretch(FIRST[i], Follower(i))
  {
    hide Stretch;
    FirstLength();
    Stretches1();
    Stretches2();
  }

  lemma SecondRow(i: nat)
    requires 16 <= i < 32
    ensures |FIRST| == 64 && FIRST[i] < Follower(i) && Stretch(FIRST[i], Follower(i))
  {
    hide Stretch;
    FirstLength();
    Stretches3();
    Stretches4();
  }

  lemma ThirdRow(i: nat)
    requires 32 <= i < 48
    ensures |FIRST| == 64 && FIRST[i] < Follower(i) && Stretch(FIRST[i], Follower(i))
  {
    hide Stretch;
    FirstLength();
    Stretches5();
    Stretches6();
  }

  lemma FourthRow(i: nat)
    requires 48 <= i < 64
    ensures |FIRST| == 64 && FIRST[i] < Follower(i) && Stretch(FIRST[i], Follower(i))
  {
    hide Stretch;
    FirstLength();
    Stretches7();
    Stretches8();
  }

  lemma Stretches1()
    ensures Stretch(2, 3) && Stretch(3, 5) && Stretch(5, 7) && Stretch(7, 11)
    ensures Stretch(11, 13) && Stretch(13, 17) && Stretch(17, 19) && Stretch(19, 23)
  {
  }

  lemma Stretches2()
    ensures Stretch(23, 29) && Stretch(29, 31) && Stretch(31, 37) && Stretch(37, 41)
    ensures Stretch(41, 43) && Stretch(43, 47) && Stretch(47, 53) && Stretch(53, 59)
  {
  }

  lemma Stretches3()
    ensures Stretch(59, 61) && Stretch(61, 67) && Stretch(67, 71) && Stretch(71, 73)
    ensures Stretch(73, 79) && Stretch(79, 83) && Stretch(83, 89) && Stretch(89, 97)
  {
  }

  lemma Stretches4()
    ensures Stretch(97, 101) && Stretch(101, 103) && Stretch(103, 107) && Stretch(107, 109)
    ensures Stretch(109, 113) && Stretch(113, 127) && Stretch(127, 131) && Stretch(131, 137)
  {
  }

  lemma Stretches5()
    ensures Stretch(137, 139) && Stretch(139, 149) && Stretch(149, 151) && Stretch(151, 157)
    ensures Stretch(157, 163) && Stretch(163, 167) && Stretch(167, 173) && Stretch(173, 179)
  {
  }

  lemma Stretches6()
    ensures Stretch(179, 181) && Stretch(181, 191) && Stretch(191, 193) && Stretch(193, 197)
    ensures Stretch(197, 199) && Stretch(199, 211) && Stretch(211, 223) && Stretch(223, 227)
  {
  }

  lemma Stretches7()
    ensures Stretch(227, 229) && Stretch(229, 233) && Stretch(233, 239) && Stretch(239, 241)
    ensures Stretch(241, 251) && Stretch(251, 257) && Stretch(257, 263) && Stretch(263, 269)
  {
  }

  lemma Stretches8()
    ensures Stretch(269, 271) && Stretch(271, 277) && Stretch(277, 281) && Stretch(281, 283)
    ensures Stretch(283, 293) && Stretch(293, 307) && Stretch(307, 311) && Stretch(311, 312)
  {
  }
}
