/** The bit functions of SHA-256 (section 4.1.2 of FIPS 180-4), and what each does to
  the bits. */
module Sha256Words {
  function And(x: bv32, y: bv32): bv32 { x & y }
  function Or(x: bv32, y: bv32): bv32 { x | y }
  function Xor(x: bv32, y: bv32): bv32 { x ^ y }
  function Not(x: bv32): bv32 { !x }
  function Shr(x: bv32, n: bv5): bv32 { x >> n }
  function Shl(x: bv32, n: bv5): bv32 { x << n }

  /** Right by n and left by 32 - n, counted modulo 32. */
  function Rotr(x: bv32, n: bv5): bv32 { Or(Shr(x, n), Shl(x, 0 - n)) }

  function Sigma0(x: bv32): bv32 { Xor(Xor(Rotr(x, 7), Rotr(x, 18)), Shr(x, 3)) }
  function Sigma1(x: bv32): bv32 { Xor(Xor(Rotr(x, 17), Rotr(x, 19)), Shr(x, 10)) }
  function BigSigma0(x: bv32): bv32 { Xor(Xor(Rotr(x, 2), Rotr(x, 13)), Rotr(x, 22)) }
  function BigSigma1(x: bv32): bv32 { Xor(Xor(Rotr(x, 6), Rotr(x, 11)), Rotr(x, 25)) }
  function Choice(x: bv32, y: bv32, z: bv32): bv32 { Xor(And(x, y), And(Not(x), z)) }
  function Majority(x: bv32, y: bv32, z: bv32): bv32 { Xor(Xor(And(x, y), And(x, z)), And(y, z)) }

  /** The bit of a word at a place; places are counted modulo 32. */
  predicate Bit(x: bv32, i: bv5) {
    (x >> i) & 1 == 1
  }

  lemma BitAnd(x: bv32, y: bv32, i: bv5)
    ensures Bit(And(x, y), i) <==> Bit(x, i) && Bit(y, i)
  {
  }

  lemma BitOr(x: bv32, y: bv32, i: bv5)
    ensures Bit(Or(x, y), i) <==> Bit(x, i) || Bit(y, i)
  {
  }

  lemma BitNot(x: bv32, i: bv5)
    ensures Bit(Not(x), i) <==> !Bit(x, i)
  {
  }

  lemma XorIs(x: bv32, y: bv32)
    ensures Xor(x, y) == Or(And(x, Not(y)), And(Not(x), y))
  {
  }

  lemma BitXor(x: bv32, y: bv32, i: bv5)
    ensures Bit(Xor(x, y), i) <==> Bit(x, i) != Bit(y, i)
  {
    hide *;
    XorIs(x, y);
    BitOr(And(x, Not(y)), And(Not(x), y), i);
    BitAnd(x, Not(y), i);
    BitAnd(Not(x), y, i);
    BitNot(x, i);
    BitNot(y, i);
  }

  lemma BitShr(x: bv32, n: bv5, i: bv5)
    ensures Bit(Shr(x, n), i) <==> i + n >= i && Bit(x, i + n)
  {
  }

  lemma BitShl(x: bv32, n: bv5, i: bv5)
    ensures Bit(Shl(x, n), i) <==> i >= n && Bit(x, i - n)
  {
  }

  lemma Around(n: bv5, i: bv5)
    requires n != 0
    ensures i - (0 - n) == i + n && (i + n >= i || i >= 0 - n)
  {
  }

  /** A rotation takes each bit from n places up and around. */
  lemma BitRotr(x: bv32, n: bv5, i: bv5)
    requires n != 0
    ensures Bit(Rotr(x, n), i) <==> Bit(x, i + n)
  {
    hide Bit, Or, Shr, Shl;
    Around(n, i);
    BitOr(Shr(x, n), Shl(x, 0 - n), i);
    BitShr(x, n, i);
    BitShl(x, 0 - n, i);
  }

  /** Bit by bit: the first word chooses between the other two. */
  lemma ChoiceBits(x: bv32, y: bv32, z: bv32, i: bv5)
    ensures Bit(Choice(x, y, z), i) <==> if Bit(x, i) then Bit(y, i) else Bit(z, i)
  {
    hide Bit, And, Xor, Not;
    BitXor(And(x, y), And(Not(x), z), i);
    BitAnd(x, y, i);
    BitAnd(Not(x), z, i);
    BitNot(x, i);
  }

  /** Two of three decide. */
  lemma MajorityBits(x: bv32, y: bv32, z: bv32, i: bv5)
    ensures Bit(Majority(x, y, z), i) <==> (Bit(x, i) && Bit(y, i)) || (Bit(x, i) && Bit(z, i)) || (Bit(y, i) && Bit(z, i))
  {
    hide Bit, And, Xor;
    BitXor(Xor(And(x, y), And(x, z)), And(y, z), i);
    BitXor(And(x, y), And(x, z), i);
    BitAnd(x, y, i);
    BitAnd(x, z, i);
    BitAnd(y, z, i);
  }

  lemma BitXor3(x: bv32, y: bv32, z: bv32, i: bv5)
    ensures Bit(Xor(Xor(x, y), z), i) <==> (Bit(x, i) != Bit(y, i)) != Bit(z, i)
  {
    hide Bit, Xor;
    BitXor(Xor(x, y), z, i);
    BitXor(x, y, i);
  }

  /** Each bit of the sums is the parity of three bits of the word, so many places up
    and around; the third of the small ones up and not around. */
  lemma Sigma0Bits(x: bv32, i: bv5)
    ensures Bit(Sigma0(x), i) <==> (Bit(x, i + 7) != Bit(x, i + 18)) != (i + 3 >= i && Bit(x, i + 3))
  {
    hide Bit, Xor, Rotr, Shr;
    BitXor3(Rotr(x, 7), Rotr(x, 18), Shr(x, 3), i);
    BitRotr(x, 7, i);
    BitRotr(x, 18, i);
    BitShr(x, 3, i);
  }

  lemma Sigma1Bits(x: bv32, i: bv5)
    ensures Bit(Sigma1(x), i) <==> (Bit(x, i + 17) != Bit(x, i + 19)) != (i + 10 >= i && Bit(x, i + 10))
  {
    hide Bit, Xor, Rotr, Shr;
    BitXor3(Rotr(x, 17), Rotr(x, 19), Shr(x, 10), i);
    BitRotr(x, 17, i);
    BitRotr(x, 19, i);
    BitShr(x, 10, i);
  }

  lemma BigSigma0Bits(x: bv32, i: bv5)
    ensures Bit(BigSigma0(x), i) <==> (Bit(x, i + 2) != Bit(x, i + 13)) != Bit(x, i + 22)
  {
    hide Bit, Xor, Rotr;
    BitXor3(Rotr(x, 2), Rotr(x, 13), Rotr(x, 22), i);
    BitRotr(x, 2, i);
    BitRotr(x, 13, i);
    BitRotr(x, 22, i);
  }

  lemma BigSigma1Bits(x: bv32, i: bv5)
    ensures Bit(BigSigma1(x), i) <==> (Bit(x, i + 6) != Bit(x, i + 11)) != Bit(x, i + 25)
  {
    hide Bit, Xor, Rotr;
    BitXor3(Rotr(x, 6), Rotr(x, 11), Rotr(x, 25), i);
    BitRotr(x, 6, i);
    BitRotr(x, 11, i);
    BitRotr(x, 25, i);
  }
}
