/**
 Where the constants of FIPS 180-4 come from: the first 32 bits of the
 fractional parts of the roots of the first primes (sections 4.2.2 and 5.3.3).
 */
module Sha256Constants {
  import opened Sha256

  const PRIMES: seq<nat> :=
    [2, 3, 5, 7, 11, 13, 17, 19] +
    [23, 29, 31, 37, 41, 43, 47, 53] +
    [59, 61, 67, 71, 73, 79, 83, 89] +
    [97, 101, 103, 107, 109, 113, 127, 131] +
    [137, 139, 149, 151, 157, 163, 167, 173] +
    [179, 181, 191, 193, 197, 199, 211, 223] +
    [227, 229, 233, 239, 241, 251, 257, 263] +
    [269, 271, 277, 281, 283, 293, 307, 311]

  // ----- primes

  predicate Factors(d: nat, e: nat, n: nat) {
    d >= 2 && e >= 2 && d * e == n
  }

  /** Not a product of two smaller numbers. */
  ghost predicate IsPrime(n: nat) {
    n >= 2 && forall d: nat, e: nat :: !Factors(d, e, n)
  }

  /** Not a multiple of a prime below 19, unless it is that prime. */
  predicate Sifted(n: nat) {
    && n >= 2
    && (n == 2 || n % 2 != 0) && (n == 3 || n % 3 != 0) && (n == 5 || n % 5 != 0) && (n == 7 || n % 7 != 0)
    && (n == 11 || n % 11 != 0) && (n == 13 || n % 13 != 0) && (n == 17 || n % 17 != 0)
  }

  lemma LargeProduct(d: nat, e: nat)
    requires d >= 19 && e >= 19
    ensures d * e >= 361
  {
    assert d * e == (d - 19) * e + 19 * (e - 19) + 361;
    assert (d - 19) * e >= 0;
  }

  lemma EvenProduct(m: nat, k: nat)
    requires m % 2 == 0
    ensures (m * k) % 2 == 0
  {
    var h := m / 2;
    assert m * k == 2 * (h * k);
  }

  lemma SmallFactorIsSifted(n: nat, m: nat, k: nat)
    requires Factors(m, k, n) && m <= 18
    ensures !Sifted(n)
  {
    assert n >= 2 * m by {
      assert m * k == m * (k - 2) + 2 * m && m * (k - 2) >= 0;
    }
    if m % 2 == 0 {
      EvenProduct(m, k);
    } else {
      OddProduct(m, k);
    }
  }

  lemma Times3(k: nat)
    requires k >= 2
    ensures !Sifted(3 * k)
  {
    var n := 3 * k;
    assert n % 3 == 0;
  }

  lemma Times5(k: nat)
    requires k >= 2
    ensures !Sifted(5 * k)
  {
    var n := 5 * k;
    assert n % 5 == 0;
  }

  lemma Times7(k: nat)
    requires k >= 2
    ensures !Sifted(7 * k)
  {
    var n := 7 * k;
    assert n % 7 == 0;
  }

  lemma Times11(k: nat)
    requires k >= 2
    ensures !Sifted(11 * k)
  {
    var n := 11 * k;
    assert n % 11 == 0;
  }

  lemma Times13(k: nat)
    requires k >= 2
    ensures !Sifted(13 * k)
  {
    var n := 13 * k;
    assert n % 13 == 0;
  }

  lemma Times17(k: nat)
    requires k >= 2
    ensures !Sifted(17 * k)
  {
    var n := 17 * k;
    assert n % 17 == 0;
  }

  lemma OddProduct(m: nat, k: nat)
    requires m % 2 == 1 && 3 <= m <= 17 && k >= 2
    ensures !Sifted(m * k)
  {
    if m == 3 {
      Times3(k);
    } else if m == 5 {
      Times5(k);
    } else if m == 7 {
      Times7(k);
    } else if m == 9 {
      Times3(3 * k);
    } else if m == 11 {
      Times11(k);
    } else if m == 13 {
      Times13(k);
    } else if m == 15 {
      Times3(5 * k);
    } else {
      Times17(k);
    }
  }

  lemma MultipleIsNoPrime(n: nat, q: nat)
    requires q in {2, 3, 5, 7, 11, 13, 17} && n >= 2 && n != q && n % q == 0
    ensures !IsPrime(n)
  {
    var e := n / q;
    assert n == q * e;
    assert e >= 2 by {
      assert e != 0 && e != 1;
    }
    assert Factors(q, e, n);
  }

  /** Up to 361, the square of 19, sifting leaves exactly the primes. */
  lemma SiftedArePrime(n: nat)
    requires n < 361
    ensures IsPrime(n) <==> Sifted(n)
  {
    if d: nat, e: nat :| Factors(d, e, n) {
      if d >= 19 && e >= 19 {
        LargeProduct(d, e);
      }
      if d <= 18 {
        SmallFactorIsSifted(n, d, e);
      } else {
        SmallFactorIsSifted(n, e, d);
      }
    } else if n >= 2 && !Sifted(n) {
      var q :| q in {2, 3, 5, 7, 11, 13, 17} && n != q && n % q == 0;
      MultipleIsNoPrime(n, q);
    }
  }

  // ----- these are the first primes

  /** The next prime after `p` is `q`. */
  ghost predicate NextPrime(p: nat, q: nat) {
    p < q && IsPrime(q) && forall n :: p < n < q ==> !IsPrime(n)
  }

  /** A number between `p` and `q`, if it is one, has been sifted out. */
  predicate SiftedBetween(p: nat, q: nat, n: nat) {
    p < n < q ==> !Sifted(n)
  }

  lemma EvenIsSifted(n: nat)
    requires n > 2 && n % 2 == 0
    ensures !Sifted(n)
  {
  }

  lemma OddBetween(p: nat, q: nat, n: nat)
    requires p < n < q <= p + 14 && p % 2 == n % 2 == 1
    ensures n in {p + 2, p + 4, p + 6, p + 8, p + 10, p + 12}
  {
    assert (n - p) % 2 == 0;
  }

  /** Only the odd numbers between need to be looked at. */
  lemma NextIs(p: nat, q: nat)
    requires 3 <= p < q <= p + 14 && p % 2 == 1 && q < 361 && Sifted(q)
    requires SiftedBetween(p, q, p + 2) && SiftedBetween(p, q, p + 4) && SiftedBetween(p, q, p + 6)
    requires SiftedBetween(p, q, p + 8) && SiftedBetween(p, q, p + 10) && SiftedBetween(p, q, p + 12)
    ensures NextPrime(p, q)
  {
    SiftedArePrime(q);
    forall n | p < n < q ensures !IsPrime(n) {
      SiftedArePrime(n);
      NoneBetween(p, q, n);
    }
  }

  lemma NoneBetween(p: nat, q: nat, n: nat)
    requires 3 <= p < n < q <= p + 14 && p % 2 == 1
    requires SiftedBetween(p, q, p + 2) && SiftedBetween(p, q, p + 4) && SiftedBetween(p, q, p + 6)
    requires SiftedBetween(p, q, p + 8) && SiftedBetween(p, q, p + 10) && SiftedBetween(p, q, p + 12)
    ensures !Sifted(n)
  {
    if n % 2 == 0 {
      EvenIsSifted(n);
    } else {
      OddBetween(p, q, n);
      assert SiftedBetween(p, q, n);
    }
  }

  lemma FirstTwo()
    ensures NextPrime(0, 2) && NextPrime(2, 3)
  {
    SiftedArePrime(1);
    SiftedArePrime(2);
    SiftedArePrime(3);
  }

  lemma NextPrimes0()
    ensures forall i :: 0 <= i < 8 ==> NextPrime(PRIMES[i], PRIMES[i + 1])
  {
    FirstTwo();
    NextIs(3, 5);
    NextIs(5, 7);
    NextIs(7, 11);
    NextIs(11, 13);
    NextIs(13, 17);
    NextIs(17, 19);
    NextIs(19, 23);
  }

  lemma NextPrimes1()
    ensures forall i :: 8 <= i < 16 ==> NextPrime(PRIMES[i], PRIMES[i + 1])
  {
    NextIs(23, 29);
    NextIs(29, 31);
    NextIs(31, 37);
    NextIs(37, 41);
    NextIs(41, 43);
    NextIs(43, 47);
    NextIs(47, 53);
    NextIs(53, 59);
  }

  lemma NextPrimes2()
    ensures forall i :: 16 <= i < 24 ==> NextPrime(PRIMES[i], PRIMES[i + 1])
  {
    NextIs(59, 61);
    NextIs(61, 67);
    NextIs(67, 71);
    NextIs(71, 73);
    NextIs(73, 79);
    NextIs(79, 83);
    NextIs(83, 89);
    NextIs(89, 97);
  }

  lemma NextPrimes3()
    ensures forall i :: 24 <= i < 32 ==> NextPrime(PRIMES[i], PRIMES[i + 1])
  {
    NextIs(97, 101);
    NextIs(101, 103);
    NextIs(103, 107);
    NextIs(107, 109);
    NextIs(109, 113);
    NextIs(113, 127);
    NextIs(127, 131);
    NextIs(131, 137);
  }

  lemma NextPrimes4()
    ensures forall i :: 32 <= i < 40 ==> NextPrime(PRIMES[i], PRIMES[i + 1])
  {
    NextIs(137, 139);
    NextIs(139, 149);
    NextIs(149, 151);
    NextIs(151, 157);
    NextIs(157, 163);
    NextIs(163, 167);
    NextIs(167, 173);
    NextIs(173, 179);
  }

  lemma NextPrimes5()
    ensures forall i :: 40 <= i < 48 ==> NextPrime(PRIMES[i], PRIMES[i + 1])
  {
    NextIs(179, 181);
    NextIs(181, 191);
    NextIs(191, 193);
    NextIs(193, 197);
    NextIs(197, 199);
    NextIs(199, 211);
    NextIs(211, 223);
    NextIs(223, 227);
  }

  lemma NextPrimes6()
    ensures forall i :: 48 <= i < 56 ==> NextPrime(PRIMES[i], PRIMES[i + 1])
  {
    NextIs(227, 229);
    NextIs(229, 233);
    NextIs(233, 239);
    NextIs(239, 241);
    NextIs(241, 251);
    NextIs(251, 257);
    NextIs(257, 263);
    NextIs(263, 269);
  }

  lemma NextPrimes7()
    ensures forall i :: 56 <= i < 63 ==> NextPrime(PRIMES[i], PRIMES[i + 1])
  {
    NextIs(269, 271);
    NextIs(271, 277);
    NextIs(277, 281);
    NextIs(281, 283);
    NextIs(283, 293);
    NextIs(293, 307);
    NextIs(307, 311);
  }

  /** The list holds the first 64 primes in order. */
  lemma FirstPrimes()
    ensures |PRIMES| == 64 && NextPrime(0, PRIMES[0])
    ensures forall i :: 0 <= i < 63 ==> NextPrime(PRIMES[i], PRIMES[i + 1])
  {
    FirstTwo();
    NextPrimes0();
    NextPrimes1();
    NextPrimes2();
    NextPrimes3();
    NextPrimes4();
    NextPrimes5();
    NextPrimes6();
    NextPrimes7();
  }

  // ----- their roots

  /** `n` is the cube root of `p`, shifted up by 32 bits and rounded down. */
  predicate IsCubeRoot(n: nat, p: nat) {
    n * n * n <= p * 0x1_00000000_00000000_00000000 < (n + 1) * (n + 1) * (n + 1)
  }

  predicate IsSquareRoot(n: nat, p: nat) {
    n * n <= p * 0x1_00000000_00000000 < (n + 1) * (n + 1)
  }

  /** `k` holds the first 32 bits of the fractional part of the cube root of `p`. */
  ghost predicate CubeRootBits(k: word, p: nat) {
    exists n: nat :: IsCubeRoot(n, p) && n % 0x1_0000_0000 == k as int
  }

  ghost predicate SquareRootBits(k: word, p: nat) {
    exists n: nat :: IsSquareRoot(n, p) && n % 0x1_0000_0000 == k as int
  }

  lemma CubeRoot(n: nat, k: word, p: nat)
    requires IsCubeRoot(n, p) && n % 0x1_0000_0000 == k as int
    ensures CubeRootBits(k, p)
  {
  }

  lemma SquareRoot(n: nat, k: word, p: nat)
    requires IsSquareRoot(n, p) && n % 0x1_0000_0000 == k as int
    ensures SquareRootBits(k, p)
  {
  }

  lemma Roots0()
    ensures forall i :: 0 <= i < 8 ==> CubeRootBits(ROUND_CONSTANTS[i], PRIMES[i])
  {
    CubeRoot(0x1_428a2f98, 0x428a2f98, 2);
    CubeRoot(0x1_71374491, 0x71374491, 3);
    CubeRoot(0x1_b5c0fbcf, 0xb5c0fbcf, 5);
    CubeRoot(0x1_e9b5dba5, 0xe9b5dba5, 7);
    CubeRoot(0x2_3956c25b, 0x3956c25b, 11);
    CubeRoot(0x2_59f111f1, 0x59f111f1, 13);
    CubeRoot(0x2_923f82a4, 0x923f82a4, 17);
    CubeRoot(0x2_ab1c5ed5, 0xab1c5ed5, 19);
  }

  lemma Roots1()
    ensures forall i :: 8 <= i < 16 ==> CubeRootBits(ROUND_CONSTANTS[i], PRIMES[i])
  {
    CubeRoot(0x2_d807aa98, 0xd807aa98, 23);
    CubeRoot(0x3_12835b01, 0x12835b01, 29);
    CubeRoot(0x3_243185be, 0x243185be, 31);
    CubeRoot(0x3_550c7dc3, 0x550c7dc3, 37);
    CubeRoot(0x3_72be5d74, 0x72be5d74, 41);
    CubeRoot(0x3_80deb1fe, 0x80deb1fe, 43);
    CubeRoot(0x3_9bdc06a7, 0x9bdc06a7, 47);
    CubeRoot(0x3_c19bf174, 0xc19bf174, 53);
  }

  lemma Roots2()
    ensures forall i :: 16 <= i < 24 ==> CubeRootBits(ROUND_CONSTANTS[i], PRIMES[i])
  {
    CubeRoot(0x3_e49b69c1, 0xe49b69c1, 59);
    CubeRoot(0x3_efbe4786, 0xefbe4786, 61);
    CubeRoot(0x4_0fc19dc6, 0x0fc19dc6, 67);
    CubeRoot(0x4_240ca1cc, 0x240ca1cc, 71);
    CubeRoot(0x4_2de92c6f, 0x2de92c6f, 73);
    CubeRoot(0x4_4a7484aa, 0x4a7484aa, 79);
    CubeRoot(0x4_5cb0a9dc, 0x5cb0a9dc, 83);
    CubeRoot(0x4_76f988da, 0x76f988da, 89);
  }

  lemma Roots3()
    ensures forall i :: 24 <= i < 32 ==> CubeRootBits(ROUND_CONSTANTS[i], PRIMES[i])
  {
    CubeRoot(0x4_983e5152, 0x983e5152, 97);
    CubeRoot(0x4_a831c66d, 0xa831c66d, 101);
    CubeRoot(0x4_b00327c8, 0xb00327c8, 103);
    CubeRoot(0x4_bf597fc7, 0xbf597fc7, 107);
    CubeRoot(0x4_c6e00bf3, 0xc6e00bf3, 109);
    CubeRoot(0x4_d5a79147, 0xd5a79147, 113);
    CubeRoot(0x5_06ca6351, 0x06ca6351, 127);
    CubeRoot(0x5_14292967, 0x14292967, 131);
  }

  lemma Roots4()
    ensures forall i :: 32 <= i < 40 ==> CubeRootBits(ROUND_CONSTANTS[i], PRIMES[i])
  {
    CubeRoot(0x5_27b70a85, 0x27b70a85, 137);
    CubeRoot(0x5_2e1b2138, 0x2e1b2138, 139);
    CubeRoot(0x5_4d2c6dfc, 0x4d2c6dfc, 149);
    CubeRoot(0x5_53380d13, 0x53380d13, 151);
    CubeRoot(0x5_650a7354, 0x650a7354, 157);
    CubeRoot(0x5_766a0abb, 0x766a0abb, 163);
    CubeRoot(0x5_81c2c92e, 0x81c2c92e, 167);
    CubeRoot(0x5_92722c85, 0x92722c85, 173);
  }

  lemma Roots5()
    ensures forall i :: 40 <= i < 48 ==> CubeRootBits(ROUND_CONSTANTS[i], PRIMES[i])
  {
    CubeRoot(0x5_a2bfe8a1, 0xa2bfe8a1, 179);
    CubeRoot(0x5_a81a664b, 0xa81a664b, 181);
    CubeRoot(0x5_c24b8b70, 0xc24b8b70, 191);
    CubeRoot(0x5_c76c51a3, 0xc76c51a3, 193);
    CubeRoot(0x5_d192e819, 0xd192e819, 197);
    CubeRoot(0x5_d6990624, 0xd6990624, 199);
    CubeRoot(0x5_f40e3585, 0xf40e3585, 211);
    CubeRoot(0x6_106aa070, 0x106aa070, 223);
  }

  lemma Roots6()
    ensures forall i :: 48 <= i < 56 ==> CubeRootBits(ROUND_CONSTANTS[i], PRIMES[i])
  {
    CubeRoot(0x6_19a4c116, 0x19a4c116, 227);
    CubeRoot(0x6_1e376c08, 0x1e376c08, 229);
    CubeRoot(0x6_2748774c, 0x2748774c, 233);
    CubeRoot(0x6_34b0bcb5, 0x34b0bcb5, 239);
    CubeRoot(0x6_391c0cb3, 0x391c0cb3, 241);
    CubeRoot(0x6_4ed8aa4a, 0x4ed8aa4a, 251);
    CubeRoot(0x6_5b9cca4f, 0x5b9cca4f, 257);
    CubeRoot(0x6_682e6ff3, 0x682e6ff3, 263);
  }

  lemma Roots7()
    ensures forall i :: 56 <= i < 64 ==> CubeRootBits(ROUND_CONSTANTS[i], PRIMES[i])
  {
    CubeRoot(0x6_748f82ee, 0x748f82ee, 269);
    CubeRoot(0x6_78a5636f, 0x78a5636f, 271);
    CubeRoot(0x6_84c87814, 0x84c87814, 277);
    CubeRoot(0x6_8cc70208, 0x8cc70208, 281);
    CubeRoot(0x6_90befffa, 0x90befffa, 283);
    CubeRoot(0x6_a4506ceb, 0xa4506ceb, 293);
    CubeRoot(0x6_bef9a3f7, 0xbef9a3f7, 307);
    CubeRoot(0x6_c67178f2, 0xc67178f2, 311);
  }

  /** The constant of round `i` is taken from the cube root of the prime with that index. */
  lemma RoundConstantsAre()
    ensures |ROUND_CONSTANTS| == 64
    ensures forall i :: 0 <= i < 64 ==> CubeRootBits(ROUND_CONSTANTS[i], PRIMES[i])
  {
    Roots0();
    Roots1();
    Roots2();
    Roots3();
    Roots4();
    Roots5();
    Roots6();
    Roots7();
  }

  lemma InitialRoots0()
    ensures SquareRootBits(INITIAL.a, PRIMES[0]) && SquareRootBits(INITIAL.b, PRIMES[1])
    ensures SquareRootBits(INITIAL.c, PRIMES[2]) && SquareRootBits(INITIAL.d, PRIMES[3])
  {
    SquareRoot(0x1_6a09e667, 0x6a09e667, 2);
    SquareRoot(0x1_bb67ae85, 0xbb67ae85, 3);
    SquareRoot(0x2_3c6ef372, 0x3c6ef372, 5);
    SquareRoot(0x2_a54ff53a, 0xa54ff53a, 7);
  }

  lemma InitialRoots1()
    ensures SquareRootBits(INITIAL.e, PRIMES[4]) && SquareRootBits(INITIAL.f, PRIMES[5])
    ensures SquareRootBits(INITIAL.g, PRIMES[6]) && SquareRootBits(INITIAL.h, PRIMES[7])
  {
    SquareRoot(0x3_510e527f, 0x510e527f, 11);
    SquareRoot(0x3_9b05688c, 0x9b05688c, 13);
    SquareRoot(0x4_1f83d9ab, 0x1f83d9ab, 17);
    SquareRoot(0x4_5be0cd19, 0x5be0cd19, 19);
  }

  /** The initial hash value is taken from the square roots of the first eight primes. */
  lemma InitialValueIs()
    ensures SquareRootBits(INITIAL.a, PRIMES[0]) && SquareRootBits(INITIAL.b, PRIMES[1])
    ensures SquareRootBits(INITIAL.c, PRIMES[2]) && SquareRootBits(INITIAL.d, PRIMES[3])
    ensures SquareRootBits(INITIAL.e, PRIMES[4]) && SquareRootBits(INITIAL.f, PRIMES[5])
    ensures SquareRootBits(INITIAL.g, PRIMES[6]) && SquareRootBits(INITIAL.h, PRIMES[7])
  {
    InitialRoots0();
    InitialRoots1();
  }
}
