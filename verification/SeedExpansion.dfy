/**
 The expansion of a 64-bit counter into a 32-byte persona seed: the SplitMix64
 word mixer, the chain of four mixed words, and the labelled sub-seeds derived
 from a seed. The mixer is a permutation of the 64-bit words, so distinct
 counters never share a seed.
 */
module SeedExpansion {

  const WORD_LIMIT: nat := 0x1_0000_0000_0000_0000

  // ---------------------------------------------------------------- the mixer

  function Advance(x: bv64): bv64 { x + 0x9e3779b97f4a7c15 }

  function Shift30(z: bv64): bv64 { z ^ (z >> 30) }

  function Shift27(z: bv64): bv64 { z ^ (z >> 27) }

  function Shift31(z: bv64): bv64 { z ^ (z >> 31) }

  function Scale1(z: bv64): bv64 { z * 0xbf58476d1ce4e5b9 }

  function Scale2(z: bv64): bv64 { z * 0x94d049bb133111eb }

  function Mix(x: bv64): bv64 {
    Shift31(Scale2(Shift27(Scale1(Shift30(Advance(x))))))
  }

  // The inverse of each stage: an iterated xor-shift, or the multiplier's inverse modulo 2^64.

  function Retreat(x: bv64): bv64 { x - 0x9e3779b97f4a7c15 }

  function Unshift30(z: bv64): bv64 { z ^ (z >> 30) ^ (z >> 60) }

  function Unshift27(z: bv64): bv64 { z ^ (z >> 27) ^ (z >> 54) }

  function Unshift31(z: bv64): bv64 { z ^ (z >> 31) ^ (z >> 62) }

  function Unscale1(z: bv64): bv64 { z * 0x96de1b173f119089 }

  function Unscale2(z: bv64): bv64 { z * 0x319642b2d24d8ec3 }

  function Unmix(y: bv64): bv64 {
    Retreat(Unshift30(Unscale1(Unshift27(Unscale2(Unshift31(y))))))
  }

  lemma AdvanceInverts(x: bv64)
    ensures Retreat(Advance(x)) == x == Advance(Retreat(x))
  {
  }

  lemma Shift30Inverts(z: bv64)
    ensures Unshift30(Shift30(z)) == z == Shift30(Unshift30(z))
  {
    calc { Unshift30(Shift30(z)); { assert Shift30(z) == z ^ (z >> 30); } Unshift30(z ^ (z >> 30)); z; }
    calc {
      Shift30(Unshift30(z));
      { assert Unshift30(z) == z ^ (z >> 30) ^ (z >> 60); }
      Shift30(z ^ (z >> 30) ^ (z >> 60));
      z;
    }
  }

  lemma Shift27Inverts(z: bv64)
    ensures Unshift27(Shift27(z)) == z == Shift27(Unshift27(z))
  {
    calc { Unshift27(Shift27(z)); { assert Shift27(z) == z ^ (z >> 27); } Unshift27(z ^ (z >> 27)); z; }
    calc {
      Shift27(Unshift27(z));
      { assert Unshift27(z) == z ^ (z >> 27) ^ (z >> 54); }
      Shift27(z ^ (z >> 27) ^ (z >> 54));
      z;
    }
  }

  lemma Shift31Inverts(z: bv64)
    ensures Unshift31(Shift31(z)) == z == Shift31(Unshift31(z))
  {
    calc { Unshift31(Shift31(z)); { assert Shift31(z) == z ^ (z >> 31); } Unshift31(z ^ (z >> 31)); z; }
    calc {
      Shift31(Unshift31(z));
      { assert Unshift31(z) == z ^ (z >> 31) ^ (z >> 62); }
      Shift31(z ^ (z >> 31) ^ (z >> 62));
      z;
    }
  }

  lemma Scale1Inverts(z: bv64)
    ensures Unscale1(Scale1(z)) == z == Scale1(Unscale1(z))
  {
    calc { Unscale1(Scale1(z)); { assert Scale1(z) == z * 0xbf58476d1ce4e5b9; } Unscale1(z * 0xbf58476d1ce4e5b9); z; }
    calc { Scale1(Unscale1(z)); { assert Unscale1(z) == z * 0x96de1b173f119089; } Scale1(z * 0x96de1b173f119089); z; }
  }

  lemma Scale2Inverts(z: bv64)
    ensures Unscale2(Scale2(z)) == z == Scale2(Unscale2(z))
  {
    calc { Unscale2(Scale2(z)); { assert Scale2(z) == z * 0x94d049bb133111eb; } Unscale2(z * 0x94d049bb133111eb); z; }
    calc { Scale2(Unscale2(z)); { assert Unscale2(z) == z * 0x319642b2d24d8ec3; } Scale2(z * 0x319642b2d24d8ec3); z; }
  }

  /** The mixer is a permutation of the 64-bit words. */
  lemma MixIsAPermutation(x: bv64)
    ensures Unmix(Mix(x)) == x
    ensures Mix(Unmix(x)) == x
  {
    hide Advance, Shift30, Scale1, Shift27, Scale2, Shift31;
    hide Retreat, Unshift30, Unscale1, Unshift27, Unscale2, Unshift31;
    var a := Advance(x);
    var b := Shift30(a);
    var c := Scale1(b);
    var d := Shift27(c);
    AdvanceInverts(x);
    Shift30Inverts(a);
    Scale1Inverts(b);
    Shift27Inverts(c);
    Scale2Inverts(d);
    Shift31Inverts(Scale2(d));
    var p := Unshift31(x);
    var q := Unscale2(p);
    var r := Unshift27(q);
    var s := Unscale1(r);
    Shift31Inverts(x);
    Scale2Inverts(p);
    Shift27Inverts(q);
    Scale1Inverts(r);
    Shift30Inverts(s);
    AdvanceInverts(Unshift30(s));
  }

  lemma MixIsInjective(x: bv64, y: bv64)
    ensures Mix(x) == Mix(y) <==> x == y
  {
    hide Mix, Unmix;
    MixIsAPermutation(x);
    MixIsAPermutation(y);
  }

  // ------------------------------------------------- words, bytes and counters

  function LeBytes(w: bv64): (bytes: seq<bv8>)
    ensures |bytes| == 8
  {
    [(w & 0xff) as bv8, ((w >> 8) & 0xff) as bv8, ((w >> 16) & 0xff) as bv8, ((w >> 24) & 0xff) as bv8,
     ((w >> 32) & 0xff) as bv8, ((w >> 40) & 0xff) as bv8, ((w >> 48) & 0xff) as bv8, ((w >> 56) & 0xff) as bv8]
  }

  function FromLeBytes(b: seq<bv8>): bv64
    requires |b| == 8
  {
    (b[0] as bv64) | ((b[1] as bv64) << 8) | ((b[2] as bv64) << 16) | ((b[3] as bv64) << 24) |
    ((b[4] as bv64) << 32) | ((b[5] as bv64) << 40) | ((b[6] as bv64) << 48) | ((b[7] as bv64) << 56)
  }

  lemma LeBytesRoundTrip(w: bv64)
    ensures FromLeBytes(LeBytes(w)) == w
  {
  }

  lemma JoinedBytesSplit(a: bv8, b: bv8, c: bv8, d: bv8, e: bv8, f: bv8, g: bv8, h: bv8)
    ensures FromLeBytes([a, b, c, d, e, f, g, h]) ==
            (a as bv64) | ((b as bv64) << 8) | ((c as bv64) << 16) | ((d as bv64) << 24) |
            ((e as bv64) << 32) | ((f as bv64) << 40) | ((g as bv64) << 48) | ((h as bv64) << 56)
    ensures LeBytes((a as bv64) | ((b as bv64) << 8) | ((c as bv64) << 16) | ((d as bv64) << 24) |
                    ((e as bv64) << 32) | ((f as bv64) << 40) | ((g as bv64) << 48) | ((h as bv64) << 56))
            == [a, b, c, d, e, f, g, h]
  {
  }

  lemma FromLeBytesRoundTrip(b: seq<bv8>)
    requires |b| == 8
    ensures LeBytes(FromLeBytes(b)) == b
  {
    hide LeBytes, FromLeBytes;
    assert b == [b[0], b[1], b[2], b[3], b[4], b[5], b[6], b[7]];
    JoinedBytesSplit(b[0], b[1], b[2], b[3], b[4], b[5], b[6], b[7]);
  }

  function Nibble(n: nat): bv4
    requires n < 16
  {
    n as bv4
  }

  function JoinNibbles(high: bv4, low: bv4): bv8 {
    ((high as bv8) << 4) | (low as bv8)
  }

  lemma NibbleValue(n: nat)
    requires n < 16
    ensures (n as bv4) as nat == n
  {
  }

  lemma SameNibble(n: nat, m: nat)
    requires n < 16 && m < 16
    requires Nibble(n) == Nibble(m)
    ensures n == m
  {
    NibbleValue(n);
    NibbleValue(m);
  }

  lemma JoinNibblesIsInjective(a: bv4, b: bv4, c: bv4, d: bv4)
    requires JoinNibbles(a, b) == JoinNibbles(c, d)
    ensures a == c && b == d
  {
  }

  function Digit(n: nat): bv8
    requires n < 256
  {
    JoinNibbles(Nibble(n / 16), Nibble(n % 16))
  }

  lemma SameDigit(n: nat, m: nat)
    requires n < 256 && m < 256
    requires Digit(n) == Digit(m)
    ensures n == m
  {
    hide JoinNibbles, Nibble;
    JoinNibblesIsInjective(Nibble(n / 16), Nibble(n % 16), Nibble(m / 16), Nibble(m % 16));
    SameNibble(n / 16, m / 16);
    SameNibble(n % 16, m % 16);
  }

  function Digits(n: nat, count: nat): (digits: seq<bv8>)
    ensures |digits| == count
    decreases count
  {
    if count == 0 then [] else [Digit(n % 256)] + Digits(n / 256, count - 1)
  }

  /** The word whose value is `n` modulo 2^64, assembled from its base-256 digits. */
  function WordOf(n: nat): bv64 {
    FromLeBytes(Digits(n, 8))
  }

  ghost predicate Fits(n: nat, count: nat)
    decreases count
  {
    if count == 0 then n == 0 else Fits(n / 256, count - 1)
  }

  lemma {:induction false} DigitsDetermine(n: nat, m: nat, count: nat)
    requires Fits(n, count) && Fits(m, count)
    requires Digits(n, count) == Digits(m, count)
    ensures n == m
    decreases count
  {
    hide Digit;
    if count == 0 {
    } else {
      assert Digits(n, count)[0] == Digits(m, count)[0];
      assert Digits(n, count)[1..] == Digits(m, count)[1..];
      DigitsDetermine(n / 256, m / 256, count - 1);
      SameDigit(n % 256, m % 256);
    }
  }

  lemma WordsFit(n: nat)
    requires n < WORD_LIMIT
    ensures Fits(n, 8)
  {
    var a := n / 256;
    var b := a / 256;
    var c := b / 256;
    var d := c / 256;
    assert d < 0x1_0000_0000;
    var e := d / 256;
    var f := e / 256;
    assert Fits(f, 2);
    assert Fits(d, 4);
    assert Fits(b, 6);
  }

  lemma WordOfIsInjective(n: nat, m: nat)
    requires n < WORD_LIMIT && m < WORD_LIMIT
    requires WordOf(n) == WordOf(m)
    ensures n == m
  {
    hide FromLeBytes, LeBytes, Digits;
    FromLeBytesRoundTrip(Digits(n, 8));
    FromLeBytesRoundTrip(Digits(m, 8));
    WordsFit(n);
    WordsFit(m);
    DigitsDetermine(n, m, 8);
  }

  // -------------------------------------------------------------- the expansion

  /** `count` little-endian words, each the mix of the one before. */
  function Chain(x: bv64, count: nat): (bytes: seq<bv8>)
    ensures |bytes| == 8 * count
    decreases count
  {
    if count == 0 then [] else LeBytes(Mix(x)) + Chain(Mix(x), count - 1)
  }

  function Expand(seed: bv64): (bytes: seq<bv8>)
    ensures |bytes| == 32
  {
    Chain(Advance(seed), 4)
  }

  function SeedOf(counter: nat): (bytes: seq<bv8>)
    ensures |bytes| == 32
  {
    Expand(WordOf(counter))
  }

  function MixTimes(x: bv64, n: nat): bv64
    decreases n
  {
    if n == 0 then x else Mix(MixTimes(x, n - 1))
  }

  lemma {:induction false} MixTimesShifts(x: bv64, n: nat)
    ensures MixTimes(Mix(x), n) == MixTimes(x, n + 1)
    decreases n
  {
    hide Mix;
    if n == 0 {
    } else {
      MixTimesShifts(x, n - 1);
    }
  }

  lemma ChainStarts(x: bv64)
    ensures MixTimes(x, 0) == x
    ensures Chain(x, 0) == []
  {
  }

  lemma Associates<T>(a: seq<T>, b: seq<T>, c: seq<T>)
    ensures a + (b + c) == (a + b) + c
  {
  }

  lemma {:induction false} ChainExtends(x: bv64, n: nat)
    ensures MixTimes(x, n + 1) == Mix(MixTimes(x, n))
    ensures Chain(x, n + 1) == Chain(x, n) + LeBytes(MixTimes(x, n + 1))
    decreases n
  {
    hide Mix, LeBytes;
    if n == 0 {
      assert MixTimes(x, 1) == Mix(MixTimes(x, 0));
      assert Chain(Mix(x), 0) == [];
    } else {
      ChainExtends(Mix(x), n - 1);
      MixTimesShifts(x, n);
      var head, middle, last := LeBytes(Mix(x)), Chain(Mix(x), n - 1), LeBytes(MixTimes(Mix(x), n));
      assert Chain(x, n) == head + middle;
      assert Chain(x, n + 1) == head + (middle + last);
      Associates(head, middle, last);
    }
  }

  method CopyBytes(out: array<bv8>, at: nat, bytes: seq<bv8>)
    requires at + |bytes| <= out.Length
    modifies out
    ensures out[..at] == old(out[..at])
    ensures out[at..at + |bytes|] == bytes
  {
    for k := 0 to |bytes|
      invariant out[..at] == old(out[..at])
      invariant out[at..at + k] == bytes[..k]
    {
      out[at + k] := bytes[k];
    }
  }

  /** Fills the 32-byte buffer eight bytes at a time. */
  method SeedFromU64(seed: bv64) returns (out: array<bv8>)
    ensures fresh(out) && out[..] == Expand(seed)
  {
    hide Mix, LeBytes, Advance, Chain, MixTimes;
    out := new bv8[32](_ => 0);
    var x := Advance(seed);
    ChainStarts(x);
    for chunk := 0 to 4
      invariant x == MixTimes(Advance(seed), chunk)
      invariant out[..8 * chunk] == Chain(Advance(seed), chunk)
    {
      x := Mix(x);
      ChainExtends(Advance(seed), chunk);
      CopyBytes(out, 8 * chunk, LeBytes(x));
      assert out[..8 * chunk + 8] == out[..8 * chunk] + out[8 * chunk..8 * chunk + 8];
    }
  }

  lemma LeBytesOfMixDetermines(v: bv64, w: bv64)
    ensures LeBytes(Mix(v)) == LeBytes(Mix(w)) ==> v == w
  {
    hide LeBytes, FromLeBytes, Mix;
    LeBytesRoundTrip(Mix(v));
    LeBytesRoundTrip(Mix(w));
    MixIsInjective(v, w);
  }

  lemma ChainFirstWord(x: bv64, n: nat)
    requires n > 0
    ensures Chain(x, n)[..8] == LeBytes(Mix(x))
  {
  }

  /** Distinct words expand to distinct seeds: the first eight bytes already differ. */
  lemma ExpandIsInjective(v: bv64, w: bv64)
    ensures Expand(v)[..8] == Expand(w)[..8] <==> v == w
  {
    hide LeBytes, Mix, Advance, Retreat;
    ChainFirstWord(Advance(v), 4);
    ChainFirstWord(Advance(w), 4);
    LeBytesOfMixDetermines(Advance(v), Advance(w));
    AdvanceInverts(v);
    AdvanceInverts(w);
  }

  /** Distinct counters below 2^64 never share a persona seed. */
  lemma SeedOfIsInjective(n: nat, m: nat)
    requires n < WORD_LIMIT && m < WORD_LIMIT
    requires SeedOf(n) == SeedOf(m)
    ensures n == m
  {
    hide Expand, WordOf;
    ExpandIsInjective(WordOf(n), WordOf(m));
    WordOfIsInjective(n, m);
  }

  // ------------------------------------------------------------------ sub-seeds

  function Plus(state: bv64, byte: bv8): bv64 {
    state + (byte as bv64)
  }

  function Absorb(state: bv64, tag: seq<bv8>): bv64
    decreases |tag|
  {
    if tag == [] then state else Absorb(Mix(Plus(state, tag[0])), tag[1..])
  }

  /** The sub-seed of a labelled layer; `tag` holds the label's bytes. */
  function Derive(seed: seq<bv8>, tag: seq<bv8>): (bytes: seq<bv8>)
    requires |seed| == 32
    ensures |bytes| == 32
  {
    Chain(Absorb(FromLeBytes(seed[..8]), tag), 4)
  }

  lemma PlusCancels(v: bv64, w: bv64, byte: bv8)
    requires Plus(v, byte) == Plus(w, byte)
    ensures v == w
  {
    assert v & 0xff == w & 0xff;
  }

  lemma PlusIsInjective(v: bv64, w: bv64, byte: bv8)
    ensures Plus(v, byte) == Plus(w, byte) <==> v == w
  {
    hide Plus;
    if Plus(v, byte) == Plus(w, byte) {
      PlusCancels(v, w, byte);
    }
  }

  lemma {:induction false} AbsorbIsInjective(v: bv64, w: bv64, tag: seq<bv8>)
    ensures Absorb(v, tag) == Absorb(w, tag) <==> v == w
    decreases |tag|
  {
    hide Mix, Plus;
    if tag == [] {
    } else {
      var p, q := Plus(v, tag[0]), Plus(w, tag[0]);
      PlusIsInjective(v, w, tag[0]);
      MixIsInjective(p, q);
      AbsorbIsInjective(Mix(p), Mix(q), tag[1..]);
    }
  }

  /** A sub-seed remembers exactly the first eight bytes of its parent. */
  lemma DeriveRemembersFirstWord(a: seq<bv8>, b: seq<bv8>, tag: seq<bv8>)
    requires |a| == 32 && |b| == 32
    ensures Derive(a, tag) == Derive(b, tag) <==> a[..8] == b[..8]
  {
    hide Mix, LeBytes, FromLeBytes, Absorb, Chain;
    var v, w := FromLeBytes(a[..8]), FromLeBytes(b[..8]);
    FromLeBytesRoundTrip(a[..8]);
    FromLeBytesRoundTrip(b[..8]);
    AbsorbIsInjective(v, w, tag);
    ChainFirstWord(Absorb(v, tag), 4);
    ChainFirstWord(Absorb(w, tag), 4);
    LeBytesOfMixDetermines(Absorb(v, tag), Absorb(w, tag));
  }

  /** The sub-seeds of distinct counters stay distinct under every label. */
  lemma SubSeedsOfCountersAreDistinct(n: nat, m: nat, tag: seq<bv8>)
    requires n < WORD_LIMIT && m < WORD_LIMIT
    requires Derive(SeedOf(n), tag) == Derive(SeedOf(m), tag)
    ensures n == m
  {
    hide Expand, WordOf, Derive;
    DeriveRemembersFirstWord(SeedOf(n), SeedOf(m), tag);
    ExpandIsInjective(WordOf(n), WordOf(m));
    WordOfIsInjective(n, m);
  }
}
