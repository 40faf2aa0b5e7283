/**
 The seed expansion against numbers: the first outputs of SplitMix64 from state 0 as it was
 published, the seeds of the first counters, and the byte order of a word.
 */
module SeedVectors {
  import opened SeedExpansion

  /** SplitMix64 from state 0 gives these; the second state is one increment on. */
  lemma SplitMix64Outputs()
    ensures Mix(0) == 0xe220a8397b1dcdaf
    ensures Mix(0x9e3779b97f4a7c15) == 0x6e789e6aa1b965f4
    ensures Mix(0x3c6ef372fe94f82a) == 0x06c45d188009454f
  {
  }

  /** Words are written least significant byte first. */
  lemma ByteOrder()
    ensures LeBytes(0x0102030405060708) == [8, 7, 6, 5, 4, 3, 2, 1]
  {
  }

  /** The four words of the seeds of counters 0 and 1. */
  lemma FirstSeeds()
    ensures SeedOf(0) == LeBytes(0x6e789e6aa1b965f4) + LeBytes(0x46b73e79f0c37c00)
                         + LeBytes(0x80abe802ac1e182e) + LeBytes(0xc739f5ec15a29d83)
    ensures SeedOf(1) == LeBytes(0xbeeb8da1658eec67) + LeBytes(0x778b1aa9c29bc868)
                         + LeBytes(0x063a5277110f4425) + LeBytes(0x427118aca82d6666)
  {
    FirstMixes();
    SecondMixes();
    FirstWords();
    hide Mix, LeBytes, WordOf;
    FourWords(0x9e3779b97f4a7c15);
    FourWords(0x9e3779b97f4a7c16);
  }

  lemma FewDigits()
    ensures Digit(0) == 0 && Digit(1) == 1 && Digit(2) == 2
  {
    assert Nibble(0) == 0 && Nibble(1) == 1 && Nibble(2) == 2;
  }

  lemma {:induction false} NoDigits(k: nat)
    ensures Digits(0, k) == seq(k, _ => 0)
    decreases k
  {
    hide Digit;
    FewDigits();
    if k == 0 {
    } else {
      NoDigits(k - 1);
    }
  }

  /** A counter's word has its base-256 digits, the last one lowest. */
  lemma FirstWords()
    ensures WordOf(0) == 0 && WordOf(1) == 1 && WordOf(0x0201) == 0x0201
  {
    hide Digits, FromLeBytes;
    FewDigits();
    NoDigits(8);
    NoDigits(7);
    NoDigits(6);
    DigitsCons(1, 7);
    DigitsCons(0x0201, 7);
    DigitsCons(2, 6);
    hide Digit;
    assert Digits(0, 8) == [0, 0, 0, 0, 0, 0, 0, 0];
    assert Digits(1, 8) == [1, 0, 0, 0, 0, 0, 0, 0];
    assert Digits(0x0201, 8) == [1, 2, 0, 0, 0, 0, 0, 0];
    FewWords();
  }

  lemma DigitsCons(n: nat, k: nat)
    ensures Digits(n, k + 1) == [Digit(n % 256)] + Digits(n / 256, k)
  {
    hide Digit;
  }

  lemma FewWords()
    ensures FromLeBytes([0, 0, 0, 0, 0, 0, 0, 0]) == 0 && FromLeBytes([1, 0, 0, 0, 0, 0, 0, 0]) == 1
    ensures FromLeBytes([1, 2, 0, 0, 0, 0, 0, 0]) == 0x0201
  {
  }

  lemma FourWords(x: bv64)
    ensures Chain(x, 4) == LeBytes(Mix(x)) + LeBytes(Mix(Mix(x))) + LeBytes(Mix(Mix(Mix(x))))
                           + LeBytes(Mix(Mix(Mix(Mix(x)))))
  {
    hide Mix, LeBytes;
    var y := Mix(Mix(Mix(x)));
    assert Chain(y, 1) == LeBytes(Mix(y)) + [] == LeBytes(Mix(y));
  }

  lemma FirstMixes()
    ensures Mix(0x9e3779b97f4a7c15) == 0x6e789e6aa1b965f4 && Mix(0x6e789e6aa1b965f4) == 0x46b73e79f0c37c00
    ensures Mix(0x46b73e79f0c37c00) == 0x80abe802ac1e182e && Mix(0x80abe802ac1e182e) == 0xc739f5ec15a29d83
  {
  }

  lemma SecondMixes()
    ensures Mix(0x9e3779b97f4a7c16) == 0xbeeb8da1658eec67 && Mix(0xbeeb8da1658eec67) == 0x778b1aa9c29bc868
    ensures Mix(0x778b1aa9c29bc868) == 0x063a5277110f4425 && Mix(0x063a5277110f4425) == 0x427118aca82d6666
  {
  }

  // ------------------------------------------------------------------ labels

  /** A label's bytes are mixed in one after another. */
  lemma {:induction false} OneMoreByte(state: bv64, tag: seq<bv8>, byte: bv8)
    ensures Absorb(state, tag + [byte]) == Mix(Plus(Absorb(state, tag), byte))
    decreases |tag|
  {
    hide Mix;
    if tag == [] {
      assert [] + [byte] == [byte] && [byte][1..] == [];
    } else {
      assert (tag + [byte])[1..] == tag[1..] + [byte];
      OneMoreByte(Mix(Plus(state, tag[0])), tag[1..], byte);
    }
  }

  lemma ByteAdded(state: bv64, a: bv8, b: bv8)
    ensures Plus(state, a) == Plus(state, b) ==> a == b
  {
  }

  /** Labels that differ in their last byte give different sub-seeds of every seed. */
  lemma LastByteTells(seed: seq<bv8>, tag: seq<bv8>, a: bv8, b: bv8)
    requires |seed| == 32
    ensures Derive(seed, tag + [a]) == Derive(seed, tag + [b]) <==> a == b
  {
    hide Mix, LeBytes, FromLeBytes, Absorb, Chain;
    var state := Absorb(FromLeBytes(seed[..8]), tag);
    OneMoreByte(FromLeBytes(seed[..8]), tag, a);
    OneMoreByte(FromLeBytes(seed[..8]), tag, b);
    LastByteMixed(state, a, b);
    ChainFirstWord(Mix(Plus(state, a)), 4);
    ChainFirstWord(Mix(Plus(state, b)), 4);
  }

  lemma LastByteMixed(state: bv64, a: bv8, b: bv8)
    ensures LeBytes(Mix(Mix(Plus(state, a)))) == LeBytes(Mix(Mix(Plus(state, b)))) <==> a == b
  {
    hide Mix, LeBytes, Plus;
    if LeBytes(Mix(Mix(Plus(state, a)))) == LeBytes(Mix(Mix(Plus(state, b)))) {
      LeBytesOfMixDetermines(Mix(Plus(state, a)), Mix(Plus(state, b)));
      MixIsInjective(Plus(state, a), Plus(state, b));
      ByteAdded(state, a, b);
    }
  }
}
