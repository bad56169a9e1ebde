/** The constants of SHA-256 (sections 4.2.2 and 5.3.3 of FIPS 180-4) and where they
  come from. */
module Sha256Constants {
  const WORD := 0x1_0000_0000

  type Word32 = n: nat | n < WORD

  /** Eight primes and what belongs to each. */
  datatype Row = Row(primes: seq<nat>, words: seq<Word32>)

  const ROW0 := Row(
    [2, 3, 5, 7, 11, 13, 17, 19],
    [0x428a2f98, 0x71374491, 0xb5c0fbcf, 0xe9b5dba5, 0x3956c25b, 0x59f111f1, 0x923f82a4, 0xab1c5ed5])
  const ROW1 := Row(
    [23, 29, 31, 37, 41, 43, 47, 53],
    [0xd807aa98, 0x12835b01, 0x243185be, 0x550c7dc3, 0x72be5d74, 0x80deb1fe, 0x9bdc06a7, 0xc19bf174])
  const ROW2 := Row(
    [59, 61, 67, 71, 73, 79, 83, 89],
    [0xe49b69c1, 0xefbe4786, 0x0fc19dc6, 0x240ca1cc, 0x2de92c6f, 0x4a7484aa, 0x5cb0a9dc, 0x76f988da])
  const ROW3 := Row(
    [97, 101, 103, 107, 109, 113, 127, 131],
    [0x983e5152, 0xa831c66d, 0xb00327c8, 0xbf597fc7, 0xc6e00bf3, 0xd5a79147, 0x06ca6351, 0x14292967])
  const ROW4 := Row(
    [137, 139, 149, 151, 157, 163, 167, 173],
    [0x27b70a85, 0x2e1b2138, 0x4d2c6dfc, 0x53380d13, 0x650a7354, 0x766a0abb, 0x81c2c92e, 0x92722c85])
  const ROW5 := Row(
    [179, 181, 191, 193, 197, 199, 211, 223],
    [0xa2bfe8a1, 0xa81a664b, 0xc24b8b70, 0xc76c51a3, 0xd192e819, 0xd6990624, 0xf40e3585, 0x106aa070])
  const ROW6 := Row(
    [227, 229, 233, 239, 241, 251, 257, 263],
    [0x19a4c116, 0x1e376c08, 0x2748774c, 0x34b0bcb5, 0x391c0cb3, 0x4ed8aa4a, 0x5b9cca4f, 0x682e6ff3])
  const ROW7 := Row(
    [269, 271, 277, 281, 283, 293, 307, 311],
    [0x748f82ee, 0x78a5636f, 0x84c87814, 0x8cc70208, 0x90befffa, 0xa4506ceb, 0xbef9a3f7, 0xc67178f2])
  const START: seq<Word32> := [
    0x6a09e667, 0xbb67ae85, 0x3c6ef372, 0xa54ff53a, 0x510e527f, 0x9b05688c, 0x1f83d9ab, 0x5be0cd19]

  function RowOf(t: nat): (r: Row)
    requires t < 64
    ensures |r.primes| == |r.words| == 8
  {
    if t < 8 then ROW0 else if t < 16 then ROW1 else if t < 24 then ROW2 else if t < 32 then ROW3
    else if t < 40 then ROW4 else if t < 48 then ROW5 else if t < 56 then ROW6 else ROW7
  }

  function Constant(t: nat): Word32
    requires t < 64
  {
    RowOf(t).words[t % 8]
  }

  function Prime(t: nat): nat
    requires t < 64
  {
    RowOf(t).primes[t % 8]
  }

  function Start(t: nat): Word32
    requires t < 8
  {
    START[t]
  }

  /** k is the first 32 bits of the fractional part of the cube root of p, whose whole
    part is c. */
  predicate CubeRoot(p: nat, c: nat, k: nat) {
    var n := c * WORD + k;
    k < WORD && n * n * n <= p * (WORD * WORD * WORD) < (n + 1) * (n + 1) * (n + 1)
  }

  predicate SquareRoot(p: nat, c: nat, k: nat) {
    var n := c * WORD + k;
    k < WORD && n * n <= p * (WORD * WORD) < (n + 1) * (n + 1)
  }

  function WholeRoot(t: nat): nat {
    if t < 4 then 1 else if t < 9 then 2 else if t < 18 then 3 else if t < 30 then 4 else if t < 47 then 5 else 6
  }

  lemma Cubes0(t: nat)
    requires 0 <= t < 8
    ensures CubeRoot(Prime(t), WholeRoot(t), Constant(t))
  {
    assert CubeRoot(2, 1, 0x428a2f98) && CubeRoot(3, 1, 0x71374491);
    assert CubeRoot(5, 1, 0xb5c0fbcf) && CubeRoot(7, 1, 0xe9b5dba5);
    assert CubeRoot(11, 2, 0x3956c25b) && CubeRoot(13, 2, 0x59f111f1);
    assert CubeRoot(17, 2, 0x923f82a4) && CubeRoot(19, 2, 0xab1c5ed5);
    hide CubeRoot;
    assert RowOf(t) == ROW0;
  }

  lemma Cubes1(t: nat)
    requires 8 <= t < 16
    ensures CubeRoot(Prime(t), WholeRoot(t), Constant(t))
  {
    assert CubeRoot(23, 2, 0xd807aa98) && CubeRoot(29, 3, 0x12835b01);
    assert CubeRoot(31, 3, 0x243185be) && CubeRoot(37, 3, 0x550c7dc3);
    assert CubeRoot(41, 3, 0x72be5d74) && CubeRoot(43, 3, 0x80deb1fe);
    assert CubeRoot(47, 3, 0x9bdc06a7) && CubeRoot(53, 3, 0xc19bf174);
    hide CubeRoot;
    assert RowOf(t) == ROW1;
  }

  lemma Cubes2(t: nat)
    requires 16 <= t < 24
    ensures CubeRoot(Prime(t), WholeRoot(t), Constant(t))
  {
    assert CubeRoot(59, 3, 0xe49b69c1) && CubeRoot(61, 3, 0xefbe4786);
    assert CubeRoot(67, 4, 0x0fc19dc6) && CubeRoot(71, 4, 0x240ca1cc);
    assert CubeRoot(73, 4, 0x2de92c6f) && CubeRoot(79, 4, 0x4a7484aa);
    assert CubeRoot(83, 4, 0x5cb0a9dc) && CubeRoot(89, 4, 0x76f988da);
    hide CubeRoot;
    assert RowOf(t) == ROW2;
  }

  lemma Cubes3(t: nat)
    requires 24 <= t < 32
    ensures CubeRoot(Prime(t), WholeRoot(t), Constant(t))
  {
    assert CubeRoot(97, 4, 0x983e5152) && CubeRoot(101, 4, 0xa831c66d);
    assert CubeRoot(103, 4, 0xb00327c8) && CubeRoot(107, 4, 0xbf597fc7);
    assert CubeRoot(109, 4, 0xc6e00bf3) && CubeRoot(113, 4, 0xd5a79147);
    assert CubeRoot(127, 5, 0x06ca6351) && CubeRoot(131, 5, 0x14292967);
    hide CubeRoot;
    assert RowOf(t) == ROW3;
  }

  lemma Cubes4(t: nat)
    requires 32 <= t < 40
    ensures CubeRoot(Prime(t), WholeRoot(t), Constant(t))
  {
    assert CubeRoot(137, 5, 0x27b70a85) && CubeRoot(139, 5, 0x2e1b2138);
    assert CubeRoot(149, 5, 0x4d2c6dfc) && CubeRoot(151, 5, 0x53380d13);
    assert CubeRoot(157, 5, 0x650a7354) && CubeRoot(163, 5, 0x766a0abb);
    assert CubeRoot(167, 5, 0x81c2c92e) && CubeRoot(173, 5, 0x92722c85);
    hide CubeRoot;
    assert RowOf(t) == ROW4;
  }

  lemma Cubes5(t: nat)
    requires 40 <= t < 48
    ensures CubeRoot(Prime(t), WholeRoot(t), Constant(t))
  {
    assert CubeRoot(179, 5, 0xa2bfe8a1) && CubeRoot(181, 5, 0xa81a664b);
    assert CubeRoot(191, 5, 0xc24b8b70) && CubeRoot(193, 5, 0xc76c51a3);
    assert CubeRoot(197, 5, 0xd192e819) && CubeRoot(199, 5, 0xd6990624);
    assert CubeRoot(211, 5, 0xf40e3585) && CubeRoot(223, 6, 0x106aa070);
    hide CubeRoot;
    assert RowOf(t) == ROW5;
  }

  lemma Cubes6(t: nat)
    requires 48 <= t < 56
    ensures CubeRoot(Prime(t), WholeRoot(t), Constant(t))
  {
    assert CubeRoot(227, 6, 0x19a4c116) && CubeRoot(229, 6, 0x1e376c08);
    assert CubeRoot(233, 6, 0x2748774c) && CubeRoot(239, 6, 0x34b0bcb5);
    assert CubeRoot(241, 6, 0x391c0cb3) && CubeRoot(251, 6, 0x4ed8aa4a);
    assert CubeRoot(257, 6, 0x5b9cca4f) && CubeRoot(263, 6, 0x682e6ff3);
    hide CubeRoot;
    assert RowOf(t) == ROW6;
  }

  lemma Cubes7(t: nat)
    requires 56 <= t < 64
    ensures CubeRoot(Prime(t), WholeRoot(t), Constant(t))
  {
    assert CubeRoot(269, 6, 0x748f82ee) && CubeRoot(271, 6, 0x78a5636f);
    assert CubeRoot(277, 6, 0x84c87814) && CubeRoot(281, 6, 0x8cc70208);
    assert CubeRoot(283, 6, 0x90befffa) && CubeRoot(293, 6, 0xa4506ceb);
    assert CubeRoot(307, 6, 0xbef9a3f7) && CubeRoot(311, 6, 0xc67178f2);
    hide CubeRoot;
    assert RowOf(t) == ROW7;
  }

  /** The round constants are the cube roots of the first 64 primes. */
  lemma Cubes(t: nat)
    requires t < 64
    ensures CubeRoot(Prime(t), WholeRoot(t), Constant(t))
  {
    hide *;
    if t < 8 {
      Cubes0(t);
    } else if t < 16 {
      Cubes1(t);
    } else if t < 24 {
      Cubes2(t);
    } else if t < 32 {
      Cubes3(t);
    } else if t < 40 {
      Cubes4(t);
    } else if t < 48 {
      Cubes5(t);
    } else if t < 56 {
      Cubes6(t);
    } else {
      Cubes7(t);
    }
  }

  /** The initial words are the square roots of the first eight. */
  lemma Squares(t: nat)
    requires t < 8
    ensures SquareRoot(Prime(t), if t < 2 then 1 else if t < 4 then 2 else if t < 6 then 3 else 4, Start(t))
  {
    assert SquareRoot(2, 1, 0x6a09e667) && SquareRoot(3, 1, 0xbb67ae85);
    assert SquareRoot(5, 2, 0x3c6ef372) && SquareRoot(7, 2, 0xa54ff53a);
    assert SquareRoot(11, 3, 0x510e527f) && SquareRoot(13, 3, 0x9b05688c);
    assert SquareRoot(17, 4, 0x1f83d9ab) && SquareRoot(19, 4, 0x5be0cd19);
    hide SquareRoot;
    assert RowOf(t) == ROW0;
  }
}
