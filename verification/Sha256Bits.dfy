/**
 The functions of FIPS 180-4, section 4.1.2, without their formulas: which bits
 of the arguments go where.
 */
module Sha256Bits {
  import opened Sha256

  /** The word with a one in place `j`, counted from the least significant one. */
  function One(j: word): word
    requires j < 32
  {
    1 << j
  }

  /** The place `n` below `j`, going around the end of the word. */
  function Below(j: word, n: word): (k: word)
    requires j < 32 && n < 32
    ensures k < 32
  {
    (j - n) & 31
  }

  /** The large sigmas copy a bit to three places around the word, each so many places down ... */
  lemma BigSigmasOfBit(j: word)
    requires j < 32
    ensures BigSigma0(One(j)) == One(Below(j, 2)) ^ One(Below(j, 13)) ^ One(Below(j, 22))
    ensures BigSigma1(One(j)) == One(Below(j, 6)) ^ One(Below(j, 11)) ^ One(Below(j, 25))
  {
  }

  /** ... and the small ones to two, and to a third that is lost beyond the end. */
  lemma SmallSigmasOfBit(j: word)
    requires j < 32
    ensures SmallSigma0(One(j)) == One(Below(j, 7)) ^ One(Below(j, 18)) ^ if j >= 3 then One(j - 3) else 0
    ensures SmallSigma1(One(j)) == One(Below(j, 17)) ^ One(Below(j, 19)) ^ if j >= 10 then One(j - 10) else 0
  {
  }

  /** The result agrees with `y` where `x` has ones, and with `z` where it has zeros. */
  lemma ChooseTakes(x: word, y: word, z: word)
    ensures Choose(x, y, z) & x == y & x && Choose(x, y, z) & !x == z & !x
  {
  }

  /** A one wherever at least two of the words have one: `y` or `z` under a one of `x`, `y` and `z` elsewhere. */
  lemma MajorityTakes(x: word, y: word, z: word)
    ensures Majority(x, y, z) & x == (y | z) & x && Majority(x, y, z) & !x == (y & z) & !x
  {
  }
}
