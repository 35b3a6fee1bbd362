/** The seed generators and the key check of the XOR algorithm. */
module SeedKey {

  function Xor(x: bv32, y: bv32): bv32 { x ^ y }

  // The three xorshift assignments of `generate_seed`.

  function Left13(x: bv32): bv32 { x << 13 }

  function Mix1(x: bv32): bv32 { Xor(x, Left13(x)) }

  function Right17(x: bv32): bv32 { x >> 17 }

  function Mix2(x: bv32): bv32 { Xor(x, Right17(x)) }

  function Left5(x: bv32): bv32 { x << 5 }

  function Mix3(x: bv32): bv32 { Xor(x, Left5(x)) }

  function NextSeed(x: bv32): bv32 { Mix3(Mix2(Mix1(x))) }

  lemma Mix1Injective(x: bv32, y: bv32)
    requires Mix1(x) == Mix1(y)
    ensures x == y
  {}

  function Upper(x: bv32): bv32 { x >> 15 }

  /** The right shift leaves the upper half alone, and the upper half gives the lower one. */
  lemma Mix2Injective(x: bv32, y: bv32)
    requires Mix2(x) == Mix2(y)
    ensures x == y
  {
    hide Mix2, Right17, Upper, Xor;
    Mix2Upper(x);
    Mix2Upper(y);
    Mix2Parts(x);
    Mix2Parts(y);
    UpperGivesRight(x, y);
    XorRight(x, y, Right17(x));
  }

  lemma Mix2Upper(x: bv32)
    ensures Upper(Mix2(x)) == Upper(x)
  {}

  lemma Mix2Parts(x: bv32)
    ensures Mix2(x) == Xor(x, Right17(x))
  {
    hide Right17, Xor;
  }

  lemma UpperGivesRight(x: bv32, y: bv32)
    ensures Upper(x) == Upper(y) ==> Right17(x) == Right17(y)
  {}

  lemma XorRight(x: bv32, y: bv32, z: bv32)
    ensures Xor(x, z) == Xor(y, z) ==> x == y
  {}

  lemma Mix3Injective(x: bv32, y: bv32)
    requires Mix3(x) == Mix3(y)
    ensures x == y
  {}

  /** Different states have different successors, so the generator never merges two runs. */
  lemma NextSeedInjective(x: bv32, y: bv32)
    requires NextSeed(x) == NextSeed(y)
    ensures x == y
  {
    hide Mix1, Mix2, Mix3;
    Mix3Injective(Mix2(Mix1(x)), Mix2(Mix1(y)));
    Mix2Injective(Mix1(x), Mix1(y));
    Mix1Injective(x, y);
  }

  const LFSR_TAPS: bv32 := 0xB4BCD35C

  function NextLfsr(x: bv32): bv32 {
    if x & 1 == 1 then Xor(x >> 1, LFSR_TAPS) else x >> 1
  }

  lemma NextLfsrInjective(x: bv32, y: bv32)
    requires NextLfsr(x) == NextLfsr(y)
    ensures x == y
  {}

  // ---- Bit by bit ----

  predicate Bit(x: bv32, k: bv5) { (x >> k) & 1 == 1 }

  lemma SumBit(x: bv32, y: bv32, k: bv5)
    ensures Bit(x ^ y, k) <==> Bit(x, k) != Bit(y, k)
  {}

  lemma BitXor(x: bv32, y: bv32, k: bv5)
    ensures Bit(Xor(x, y), k) <==> Bit(x, k) != Bit(y, k)
  {
    hide Bit;
    SumBit(x, y, k);
  }

  /** The bit `n` places below, and the one `n` places above. */
  predicate Below(x: bv32, k: bv5, n: bv5) { k >= n && Bit(x, k - n) }

  predicate Above(x: bv32, k: bv5, n: bv5) { k <= 31 - n && Bit(x, k + n) }

  lemma Left13Bit(x: bv32, k: bv5)
    ensures Bit(Left13(x), k) <==> Below(x, k, 13)
  {}

  lemma Right17Bit(x: bv32, k: bv5)
    ensures Bit(Right17(x), k) <==> Above(x, k, 17)
  {
    RightBit(x, k);
  }

  lemma RightBit(x: bv32, k: bv5)
    ensures ((x >> 17) >> k) & 1 == 1 <==> k <= 14 && (x >> (k + 17)) & 1 == 1
  {}

  lemma Left5Bit(x: bv32, k: bv5)
    ensures Bit(Left5(x), k) <==> Below(x, k, 5)
  {}

  lemma MixBits(x: bv32, k: bv5)
    ensures Bit(Mix1(x), k) <==> Bit(x, k) != Below(x, k, 13)
    ensures Bit(Mix2(x), k) <==> Bit(x, k) != Above(x, k, 17)
    ensures Bit(Mix3(x), k) <==> Bit(x, k) != Below(x, k, 5)
  {
    hide Bit, Left13, Right17, Left5, Below, Above, Xor;
    Left13Bit(x, k);
    Right17Bit(x, k);
    Left5Bit(x, k);
    BitXor(x, Left13(x), k);
    BitXor(x, Right17(x), k);
    BitXor(x, Left5(x), k);
  }

  /** The next seed bit by bit: to each bit is added the one 13 places below, then the one 17 places above,
      then the one 5 places below. */
  lemma NextSeedBits(x: bv32) returns (y: bv32, z: bv32)
    ensures forall k: bv5 :: Bit(y, k) <==> Bit(x, k) != Below(x, k, 13)
    ensures forall k: bv5 :: Bit(z, k) <==> Bit(y, k) != Above(y, k, 17)
    ensures forall k: bv5 :: Bit(NextSeed(x), k) <==> Bit(z, k) != Below(z, k, 5)
  {
    hide Bit, Mix1, Mix2, Mix3, Below, Above;
    y, z := Mix1(x), Mix2(Mix1(x));
    forall k: bv5
      ensures Bit(y, k) <==> Bit(x, k) != Below(x, k, 13)
      ensures Bit(z, k) <==> Bit(y, k) != Above(y, k, 17)
      ensures Bit(NextSeed(x), k) <==> Bit(z, k) != Below(z, k, 5)
    {
      MixBits(x, k);
      MixBits(y, k);
      MixBits(z, k);
    }
  }

  predicate Tap(k: bv5) { k in {2, 3, 4, 6, 8, 9, 12, 14, 15, 18, 19, 20, 21, 23, 26, 28, 29, 31} }

  lemma TapBit(k: bv5)
    ensures Bit(LFSR_TAPS, k) <==> Tap(k)
  {}

  lemma Right1Bit(x: bv32, k: bv5)
    ensures Bit(x >> 1, k) <==> Above(x, k, 1)
    ensures Bit(x, 0) <==> x & 1 == 1
  {}

  /** The LFSR bit by bit: everything moves down one place, and the bit that falls out is added at the
      places of the taps. */
  lemma NextLfsrBits(x: bv32, k: bv5)
    ensures Bit(NextLfsr(x), k) <==> Above(x, k, 1) != (Bit(x, 0) && Tap(k))
  {
    hide Bit, Tap, Above, Xor;
    Right1Bit(x, k);
    TapBit(k);
    BitXor(x >> 1, LFSR_TAPS, k);
  }

  function Iterate(step: bv32 -> bv32, x: bv32, n: nat): bv32 {
    if n == 0 then x else step(Iterate(step, x, n - 1))
  }

  /** From any non-zero state, neither generator reaches zero, however long it runs. */
  lemma {:induction false} NeverZero(x: bv32, n: nat)
    requires x != 0
    ensures Iterate(NextSeed, x, n) != 0 && Iterate(NextLfsr, x, n) != 0
  {
    if n > 0 {
      NeverZero(x, n - 1);
      ZeroIsFixed();
      if NextSeed(Iterate(NextSeed, x, n - 1)) == 0 {
        NextSeedInjective(Iterate(NextSeed, x, n - 1), 0);
      }
      if NextLfsr(Iterate(NextLfsr, x, n - 1)) == 0 {
        NextLfsrInjective(Iterate(NextLfsr, x, n - 1), 0);
      }
    }
  }

  lemma ZeroIsFixed()
    ensures NextSeed(0) == 0 && NextLfsr(0) == 0
  {}

  /** The four bytes of a word, most significant first. */
  function BigEndian(w: bv32): (s: seq<bv8>)
    ensures |s| == 4
  {
    [((w >> 24) & 0xFF) as bv8, ((w >> 16) & 0xFF) as bv8, ((w >> 8) & 0xFF) as bv8, (w & 0xFF) as bv8]
  }

  function Word(s: seq<bv8>): bv32
    requires |s| == 4
  {
    (s[0] as bv32 << 24) | (s[1] as bv32 << 16) | (s[2] as bv32 << 8) | s[3] as bv32
  }

  lemma WordOfBytes(w: bv32)
    ensures Word(BigEndian(w)) == w
  {}

  /** The four bytes of the next seed are never all zero. */
  lemma SeedBytesNonZero(state: bv32)
    requires state != 0
    ensures BigEndian(NextSeed(state)) != [0, 0, 0, 0]
  {
    hide NextSeed, BigEndian, Word;
    WordOfBytes(NextSeed(state));
    ZeroIsFixed();
    ZeroWord();
    if NextSeed(state) == 0 {
      NextSeedInjective(state, 0);
    }
  }

  lemma ZeroWord()
    ensures Word([0, 0, 0, 0]) == 0
  {}

  lemma BytesOfWord(s: seq<bv8>)
    requires |s| == 4
    ensures BigEndian(Word(s)) == s
  {
    var w := Word(s);
    UpperBytes(s);
    LowerBytes(s);
    hide Word;
    assert BigEndian(w) == [s[0], s[1], s[2], s[3]];
  }

  lemma UpperBytes(s: seq<bv8>)
    requires |s| == 4
    ensures BigEndian(Word(s))[0] == s[0] && BigEndian(Word(s))[1] == s[1]
  {}

  lemma LowerBytes(s: seq<bv8>)
    requires |s| == 4
    ensures BigEndian(Word(s))[2] == s[2] && BigEndian(Word(s))[3] == s[3]
  {}

  /** `XorAlgorithm::verify_key`, where no algorithm object means that no key is right. */
  predicate VerifyKey(mask: bv32, attached: bool, seed: seq<bv8>, key: seq<bv8>) {
    attached && |seed| == 4 && |key| == 4 && Xor(Word(seed), mask) == Word(key)
  }

  /** Exactly one key opens a four-byte seed. */
  lemma OneKeyPerSeed(mask: bv32, seed: seq<bv8>, key: seq<bv8>)
    requires |seed| == 4
    ensures VerifyKey(mask, true, seed, key) <==> key == BigEndian(Xor(Word(seed), mask))
  {
    hide Word, BigEndian, Xor;
    if |key| == 4 {
      BytesOfWord(key);
      WordOfBytes(Xor(Word(seed), mask));
    }
  }

  function Xor8(x: bv8, y: bv8): bv8 { x ^ y }

  lemma XorUpper(x: bv32, y: bv32)
    ensures BigEndian(Xor(x, y))[0] == Xor8(BigEndian(x)[0], BigEndian(y)[0])
    ensures BigEndian(Xor(x, y))[1] == Xor8(BigEndian(x)[1], BigEndian(y)[1])
  {}

  lemma XorLower(x: bv32, y: bv32)
    ensures BigEndian(Xor(x, y))[2] == Xor8(BigEndian(x)[2], BigEndian(y)[2])
  {}

  lemma XorLowest(x: bv32, y: bv32)
    ensures BigEndian(Xor(x, y))[3] == Xor8(BigEndian(x)[3], BigEndian(y)[3])
  {}

  lemma XorBytes(s: seq<bv8>, t: seq<bv8>)
    requires |s| == |t| == 4
    ensures var u := BigEndian(Xor(Word(s), Word(t)));
            forall i | 0 <= i < 4 :: u[i] == Xor8(s[i], t[i])
  {
    hide Word, BigEndian, Xor, Xor8;
    BytesOfWord(s);
    BytesOfWord(t);
    XorUpper(Word(s), Word(t));
    XorLower(Word(s), Word(t));
    XorLowest(Word(s), Word(t));
  }

  /** The bytes of a word, most significant first. */
  lemma WordIsSum(s: seq<bv8>)
    requires |s| == 4
    ensures Word(s) == 0x100_0000 * (s[0] as bv32) + 0x1_0000 * (s[1] as bv32) + 0x100 * (s[2] as bv32) + s[3] as bv32
  {}

  /** The right key is the seed with the mask's bytes added. */
  lemma KeyBytes(mask: seq<bv8>, seed: seq<bv8>, key: seq<bv8>)
    requires |seed| == |mask| == 4
    ensures VerifyKey(Word(mask), true, seed, key) <==>
            |key| == 4 && forall i | 0 <= i < 4 :: key[i] == Xor8(seed[i], mask[i])
  {
    hide Word, BigEndian, VerifyKey, Xor, Xor8;
    OneKeyPerSeed(Word(mask), seed, key);
    XorBytes(seed, mask);
  }

  /** The seed generator as an object: the function's static state. */
  class XorSeeds {
    var lfsr: bv32

    constructor ()
      ensures lfsr == 0xDEADBEEF
    {
      lfsr := 0xDEADBEEF;
    }

    method GenerateSeed(max: nat) returns (seed: seq<bv8>)
      modifies this
      ensures max < 4 ==> seed == [] && lfsr == old(lfsr)
      ensures max >= 4 ==> lfsr == NextSeed(old(lfsr)) && seed == BigEndian(lfsr)
    {
      if max < 4 {
        return [];
      }
      hide Mix1, Mix2, Mix3, BigEndian;
      lfsr := Mix1(lfsr);
      lfsr := Mix2(lfsr);
      lfsr := Mix3(lfsr);
      seed := BigEndian(lfsr);
    }
  }

  class LfsrGenerator {
    var state: bv32

    /** No word that the generator will ever produce is zero, whatever the seed. */
    constructor (seed: bv32)
      ensures seed != 0 ==> state == seed
      ensures seed == 0 ==> state == 1
      ensures forall n: nat :: Iterate(NextLfsr, state, n) != 0
    {
      state := if seed != 0 then seed else 1;
      new;
      hide NextLfsr, NextSeed;
      forall n: nat ensures Iterate(NextLfsr, state, n) != 0 {
        NeverZero(state, n);
      }
    }

    method Next() returns (word: bv32)
      modifies this
      ensures word == state == NextLfsr(old(state))
    {
      var lsb := state & 1;
      state := state >> 1;
      if lsb != 0 {
        state := Xor(state, LFSR_TAPS);
      }
      word := state;
    }
  }
}
