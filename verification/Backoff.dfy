/**
 Power-of-two backoff in saturating machine arithmetic: u64 milliseconds, u128 nanoseconds,
 a shift that is cut off at the word's width. Each delay is compared with the one
 unbounded arithmetic gives.
 */
module Backoff {
  import opened Powers

  const U32: nat := 0x1_0000_0000
  const U64: nat := 0x1_0000_0000_0000_0000
  const U128: nat := 0x1_0000_0000_0000_0000_0000_0000_0000_0000
  const SECOND: nat := 1_000_000_000
  const MILLI: nat := 1_000_000

  type u32 = n: nat | n < U32
  type u64 = n: nat | n < U64
  type u128 = n: nat | n < U128

  /** Whole seconds and the nanoseconds of the last, unfinished one. */
  datatype RawDuration = Duration(secs: u64, subsec: nat)
  type Duration = d: RawDuration | d.subsec < SECOND witness Duration(0, 0)

  const ZERO: Duration := Duration(0, 0)
  const MAX_PACING_BACKOFF: Duration := Duration(60, 0)

  function Nanos(d: Duration): u128 {
    d.secs * SECOND + d.subsec
  }

  function Min(a: nat, b: nat): nat {
    if a <= b then a else b
  }

  /** Durations are ordered by their seconds first. */
  function MinDuration(a: Duration, b: Duration): (r: Duration)
    ensures Nanos(r) == Min(Nanos(a), Nanos(b))
  {
    if a.secs < b.secs || (a.secs == b.secs && a.subsec <= b.subsec) then a else b
  }

  function FromMillis(ms: u64): (d: Duration)
    ensures Nanos(d) == ms * MILLI
  {
    Duration(ms / 1000, ms % 1000 * MILLI)
  }

  lemma NanosIsInjective(a: Duration, b: Duration)
    requires Nanos(a) == Nanos(b)
    ensures a == b
  {
  }

  /** The cast to seconds truncates to 64 bits, and is exact below the clamp. */
  function FromNanosClamped(nanos: u128, max: Duration): (r: Duration)
    ensures Nanos(r) == Min(nanos, Nanos(max))
  {
    if nanos >= Nanos(max) then max else
    assert nanos / SECOND < U64;
    Duration(nanos / SECOND % U64, nanos % SECOND)
  }

  function SaturatingMul(a: nat, b: nat, limit: nat): (r: nat)
    requires limit > 0
    ensures r < limit
  {
    Min(a * b, limit - 1)
  }

  /** `1 << attempt`, or the largest word once the shift would lose the bit. */
  function Multiplier(attempt: u32, bits: nat, limit: nat): nat
    requires limit > 0
  {
    if attempt >= bits then limit - 1 else Pow2(attempt)
  }

  function CappedPow2Backoff(base: Duration, attempt: u32, max: Duration): Duration {
    if base == ZERO || max == ZERO then ZERO else
    var effectiveMax := MinDuration(max, MAX_PACING_BACKOFF);
    var cappedBase := Min(Nanos(base), Nanos(effectiveMax));
    var multiplier := Multiplier(attempt, 128, U128);
    var cappedNanos := Min(SaturatingMul(cappedBase, multiplier, U128), Nanos(effectiveMax));
    FromNanosClamped(cappedNanos, effectiveMax)
  }

  function CappedPow2BackoffMs(baseMs: u64, attempt: u32, maxMs: u64): Duration {
    CappedPow2Backoff(FromMillis(baseMs), attempt, FromMillis(maxMs))
  }

  datatype BackoffKind = RateLimited | Timeout

  datatype BackoffPolicy = BackoffPolicy(maxRetries: u32, rateLimitedBaseMs: u64, timeoutBaseMs: u64) {
    function BaseMs(kind: BackoffKind): u64 {
      match kind
      case RateLimited => rateLimitedBaseMs
      case Timeout => timeoutBaseMs
    }

    function Delay(kind: BackoffKind, attempt: u32): Duration {
      MinDuration(FromMillis(SaturatingPow2Ms(BaseMs(kind), attempt)), MAX_PACING_BACKOFF)
    }
  }

  function SaturatingPow2Ms(baseMs: u64, attempt: u32): u64 {
    SaturatingMul(baseMs, Multiplier(attempt, 64, U64), U64)
  }

  // ------------------------------------------------------------------ unbounded arithmetic

  /** n * 2^attempt, in unbounded integers. */
  function Doubled(n: nat, attempt: nat): nat {
    n * Pow2(attempt)
  }

  lemma Twice(x: nat, y: nat)
    ensures (2 * x) * y == 2 * (x * y)
  {
  }

  lemma {:induction false} Pow2Adds(a: nat, b: nat)
    ensures Pow2(a + b) == Pow2(a) * Pow2(b)
  {
    if a == 0 {
    } else {
      Pow2Adds(a - 1, b);
      Twice(Pow2(a - 1), Pow2(b));
      assert Pow2(a + b) == 2 * Pow2(a - 1 + b);
    }
  }

  lemma Pow2Grows(a: nat, b: nat)
    requires a <= b
    ensures Pow2(a) <= Pow2(b)
  {
    hide Pow2;
    Pow2Adds(a, b - a);
    ScaleUp(Pow2(a), Pow2(b - a));
  }

  lemma FourBits()
    ensures Pow2(4) == 16
  {
  }

  lemma Widths()
    ensures Pow2(64) == U64 && Pow2(128) == U128
  {
    hide Pow2;
    FourBits();
    Pow2Adds(4, 4);
    Pow2Adds(8, 8);
    Pow2Adds(16, 16);
    Pow2Adds(32, 32);
    Pow2Adds(64, 64);
  }

  lemma ScaleUp(a: nat, k: nat)
    requires k >= 1
    ensures a * k >= a
  {
  }

  lemma ScaleOrder(a: nat, b: nat, k: nat)
    requires a <= b
    ensures a * k <= b * k && k * a <= k * b
  {
  }

  lemma DoubledGrows(n: nat, attempt: nat, n': nat, attempt': nat)
    requires n <= n' && attempt <= attempt'
    ensures n <= Doubled(n, attempt) <= Doubled(n', attempt')
  {
    hide Pow2;
    Pow2Grows(attempt, attempt');
    ScaleUp(n, Pow2(attempt));
    ScaleOrder(n, n', Pow2(attempt));
    ScaleOrder(Pow2(attempt), Pow2(attempt'), n');
  }

  lemma DoubledMillis(ms: nat, attempt: nat)
    ensures Doubled(ms * MILLI, attempt) == Doubled(ms, attempt) * MILLI
  {
    hide Pow2;
    Commutes(ms, MILLI, Pow2(attempt));
  }

  lemma Commutes(a: nat, b: nat, c: nat)
    ensures a * b * c == a * c * b
  {
  }

  lemma DoubledNothing(attempt: nat)
    ensures Doubled(0, attempt) == 0
  {
  }

  /** Capping before doubling changes nothing under the same cap after it. */
  lemma CapCommutes(n: nat, attempt: nat, cap: nat)
    ensures Min(Doubled(Min(n, cap), attempt), cap) == Min(Doubled(n, attempt), cap)
  {
    hide Doubled;
    DoubledGrows(n, attempt, n, attempt);
    DoubledGrows(cap, attempt, cap, attempt);
  }

  /** A product with the cut-off multiplier is the doubling, or more than the word holds. */
  lemma CutOffIsLarge(n: nat, attempt: u32, bits: nat, limit: nat)
    requires limit == Pow2(bits) && limit > 1 && n > 0 && attempt >= bits
    ensures n * (limit - 1) >= limit - 1 && Doubled(n, attempt) >= limit - 1
  {
    hide Pow2;
    Pow2Grows(bits, attempt);
    ScaleUp(limit - 1, n);
    ScaleUp(Pow2(attempt), n);
  }

  /** Neither saturation nor the cut-off shift shows under a cap the word can hold. */
  lemma SaturationIsInvisible(n: nat, attempt: u32, bits: nat, limit: nat, cap: nat)
    requires limit == Pow2(bits) && cap < limit && limit > 1
    ensures Min(SaturatingMul(n, Multiplier(attempt, bits, limit), limit), cap) == Min(Doubled(n, attempt), cap)
  {
    hide Pow2;
    if attempt < bits {
      assert SaturatingMul(n, Multiplier(attempt, bits, limit), limit) == Min(Doubled(n, attempt), limit - 1);
    } else if n == 0 {
      DoubledNothing(attempt);
    } else {
      CutOffIsLarge(n, attempt, bits, limit);
    }
  }

  // ------------------------------------------------------------------ main results

  /** The delay is min(base * 2^attempt, min(max, 60 s)) in unbounded arithmetic. */
  lemma CappedPow2IsExact(base: Duration, attempt: u32, max: Duration)
    ensures Nanos(CappedPow2Backoff(base, attempt, max))
            == Min(Doubled(Nanos(base), attempt), Min(Nanos(max), 60 * SECOND))
  {
    hide Pow2, Multiplier, SaturatingMul, FromNanosClamped, MinDuration, Doubled;
    Widths();
    DoubledNothing(attempt);
    if base != ZERO && max != ZERO {
      var effectiveMax := MinDuration(max, MAX_PACING_BACKOFF);
      var cap := Nanos(effectiveMax);
      assert cap == Min(Nanos(max), 60 * SECOND);
      SaturationIsInvisible(Min(Nanos(base), cap), attempt, 128, U128, cap);
      CapCommutes(Nanos(base), attempt, cap);
    }
  }

  /** Retrying later never waits less, and a longer base or cap never waits less. */
  lemma CappedPow2IsMonotone(base: Duration, attempt: u32, max: Duration, base': Duration, attempt': u32,
                             max': Duration)
    requires Nanos(base) <= Nanos(base') && attempt <= attempt' && Nanos(max) <= Nanos(max')
    ensures Nanos(CappedPow2Backoff(base, attempt, max)) <= Nanos(CappedPow2Backoff(base', attempt', max'))
  {
    hide CappedPow2Backoff, Nanos, Doubled;
    CappedPow2IsExact(base, attempt, max);
    CappedPow2IsExact(base', attempt', max');
    DoubledGrows(Nanos(base), attempt, Nanos(base'), attempt');
  }

  /** The policy's delay is min(base * 2^attempt, 60 s) in unbounded arithmetic. */
  lemma DelayIsExact(policy: BackoffPolicy, kind: BackoffKind, attempt: u32)
    ensures policy.BaseMs(kind) == if kind == RateLimited then policy.rateLimitedBaseMs else policy.timeoutBaseMs
    ensures Nanos(policy.Delay(kind, attempt)) == Min(Doubled(policy.BaseMs(kind), attempt) * MILLI, 60 * SECOND)
  {
    hide Pow2, Multiplier, SaturatingMul, FromMillis, MinDuration, Doubled;
    Widths();
    SaturationIsInvisible(policy.BaseMs(kind), attempt, 64, U64, 60_000);
  }

  /** The two backoffs agree on a millisecond base exactly when the given maximum is not
      the one that bites: it is at least 60 s, or the undamped delay is within it. */
  lemma BackoffsAgreeExactly(policy: BackoffPolicy, kind: BackoffKind, attempt: u32, maxMs: u64)
    ensures policy.Delay(kind, attempt) == CappedPow2BackoffMs(policy.BaseMs(kind), attempt, maxMs)
            <==> maxMs >= 60_000 || Doubled(policy.BaseMs(kind), attempt) <= maxMs
  {
    hide CappedPow2Backoff, BackoffPolicy.Delay, Nanos, Doubled, FromMillis;
    var b := policy.BaseMs(kind);
    DelayIsExact(policy, kind, attempt);
    CappedPow2IsExact(FromMillis(b), attempt, FromMillis(maxMs));
    DoubledMillis(b, attempt);
    if Nanos(policy.Delay(kind, attempt)) == Nanos(CappedPow2BackoffMs(b, attempt, maxMs)) {
      NanosIsInjective(policy.Delay(kind, attempt), CappedPow2BackoffMs(b, attempt, maxMs));
    }
  }

  // ------------------------------------------------------------------ jitter

  function Whiten(x: bv32): bv32 { x ^ 0x9E37_79B9 }

  function Left13(x: bv32): bv32 { x ^ (x << 13) }

  function Right17(x: bv32): bv32 { x ^ (x >> 17) }

  function Left5(x: bv32): bv32 { x ^ (x << 5) }

  function Unleft13(x: bv32): bv32 { x ^ (x << 13) ^ (x << 26) }

  function Unleft5(x: bv32): bv32 {
    x ^ (x << 5) ^ (x << 10) ^ (x << 15) ^ (x << 20) ^ (x << 25) ^ (x << 30)
  }

  /** The word a nonce is scrambled to. */
  function JitterWord(nonce: bv32): bv32 {
    Left5(Right17(Left13(Whiten(nonce))))
  }

  /** How many thousandths of the base a word asks for. */
  function PerMille(word: bv32): (m: nat)
    ensures 800 <= m <= 1200
  {
    800 + (word as nat) % 401
  }

  lemma WhitenInverts(x: bv32)
    ensures Whiten(Whiten(x)) == x
  {
  }

  lemma Left13Inverts(x: bv32)
    ensures Unleft13(Left13(x)) == x
  {
    calc { Unleft13(Left13(x)); { assert Left13(x) == x ^ (x << 13); } Unleft13(x ^ (x << 13)); x; }
  }

  lemma Right17Inverts(x: bv32)
    ensures Right17(Right17(x)) == x
  {
    calc { Right17(Right17(x)); { assert Right17(x) == x ^ (x >> 17); } Right17(x ^ (x >> 17)); x; }
  }

  lemma Left5Inverts(x: bv32)
    ensures Unleft5(Left5(x)) == x
  {
    calc { Unleft5(Left5(x)); { assert Left5(x) == x ^ (x << 5); } Unleft5(x ^ (x << 5)); x; }
  }

  /** Scrambling loses nothing: distinct nonces have distinct words. */
  lemma JitterWordIsInjective(a: bv32, b: bv32)
    ensures JitterWord(a) == JitterWord(b) <==> a == b
  {
    hide Whiten, Left13, Right17, Left5, Unleft13, Unleft5;
    if JitterWord(a) == JitterWord(b) {
      Left5Inverts(Right17(Left13(Whiten(a))));
      Left5Inverts(Right17(Left13(Whiten(b))));
      Right17Inverts(Left13(Whiten(a)));
      Right17Inverts(Left13(Whiten(b)));
      Left13Inverts(Whiten(a));
      Left13Inverts(Whiten(b));
      WhitenInverts(a);
      WhitenInverts(b);
    }
  }

  /** Thousandths of n, rounded down. */
  function Scaled(n: nat, perMille: nat): nat {
    n * perMille / 1000
  }

  /** Nonce-keyed jitter: the nonce's thousandths of the base, between 80% and 120% of it,
      and never above 60 s. */
  method JitteredBackoff(base: Duration, nonce: bv32) returns (r: Duration)
    ensures Nanos(r) == Min(Scaled(Nanos(base), PerMille(JitterWord(nonce))), 60 * SECOND)
    ensures Min(Scaled(Nanos(base), 800), 60 * SECOND) <= Nanos(r) <= Min(Scaled(Nanos(base), 1200), 60 * SECOND)
  {
    hide PerMille, Whiten, Left13, Right17, Left5, Scaled, SaturatingMul, FromNanosClamped;
    if base == ZERO {
      NothingScales(PerMille(JitterWord(nonce)));
      NothingScales(800);
      return ZERO;
    }
    var x := Whiten(nonce);
    x := Left13(x);
    x := Right17(x);
    x := Left5(x);
    var perMille := PerMille(x);
    JitterBounds(Nanos(base), perMille);
    r := FromNanosClamped(SaturatingMul(Nanos(base), perMille, U128) / 1000, MAX_PACING_BACKOFF);
  }

  lemma NothingScales(perMille: nat)
    ensures Scaled(0, perMille) == 0
  {
  }

  lemma JitterBounds(n: nat, perMille: nat)
    requires n < U64 * SECOND && 800 <= perMille <= 1200
    ensures Scaled(n, 800) <= Scaled(n, perMille) <= Scaled(n, 1200)
    ensures SaturatingMul(n, perMille, U128) / 1000 == Scaled(n, perMille)
  {
    ScaleOrder(800, perMille, n);
    ScaleOrder(perMille, 1200, n);
  }

  // ------------------------------------------------------------------ in numbers

  /** A word asks for m thousandths exactly when it is m - 800 modulo 401. */
  lemma PerMilleExactly(word: bv32, m: nat)
    requires 800 <= m <= 1200
    ensures PerMille(word) == m <==> exists q: nat :: (word as nat) == 401 * q + (m - 800)
  {
    Residue(word as nat, m - 800);
  }

  lemma Residue(w: nat, r: nat)
    requires r < 401
    ensures w % 401 == r <==> exists q: nat :: w == 401 * q + r
  {
    assert w == 401 * (w / 401) + w % 401;
  }

  /** Every factor from 80% to 120% is some word's, and some nonce's. */
  lemma EveryFactorIsReached(m: nat)
    requires 800 <= m <= 1200
    ensures exists nonce: bv32 :: PerMille(JitterWord(nonce)) == m
  {
    hide Whiten, Left13, Right17, Left5, Unleft13, Unleft5, PerMille, Join, Nibble;
    var word := WordIs(m - 800);
    assert PerMille(word) == m by {
      assert (word as nat) == 401 * 0 + (m - 800);
      PerMilleExactly(word, m);
    }
    JitterWordIsOnto(word);
    assert JitterWord(Whiten(Unleft13(Right17(Unleft5(word))))) == word;
  }

  lemma WordIs(n: nat) returns (word: bv32)
    requires n < 512
    ensures (word as nat) == n
  {
    var high, middle, low := Hexadecimal(n);
    word := JoinDigits(high, middle, low);
  }

  lemma Hexadecimal(n: nat) returns (high: nat, middle: nat, low: nat)
    requires n < 512
    ensures high < 2 && middle < 16 && low < 16 && n == 256 * high + 16 * middle + low
  {
    var rest := n % 256;
    high, middle, low := n / 256, rest / 16, rest % 16;
  }

  lemma JoinDigits(high: nat, middle: nat, low: nat) returns (word: bv32)
    requires high < 2 && middle < 16 && low < 16
    ensures (word as nat) == 256 * high + 16 * middle + low
  {
    hide Join, Nibble;
    word := Join(high == 1, Nibble(middle), Nibble(low));
  }

  function Nibble(n: nat): (w: bv4)
    requires n < 16
    ensures (w as nat) == n
  {
    n as bv4
  }

  function Join(high: bool, middle: bv4, low: bv4): (w: bv32)
    ensures (w as nat) == (if high then 256 else 0) + 16 * (middle as nat) + (low as nat)
  {
    (if high then 0x100 else 0) | ((middle as bv32) << 4) | (low as bv32)
  }

  /** Every word is some nonce's. */
  lemma JitterWordIsOnto(word: bv32)
    ensures JitterWord(Whiten(Unleft13(Right17(Unleft5(word))))) == word
  {
    hide Whiten, Left13, Right17, Left5, Unleft13, Unleft5;
    WhitenInverts(Unleft13(Right17(Unleft5(word))));
    Left13Reverts(Right17(Unleft5(word)));
    Right17Inverts(Unleft5(word));
    Left5Reverts(word);
  }

  lemma Left13Reverts(x: bv32)
    ensures Left13(Unleft13(x)) == x
  {
    calc { Left13(Unleft13(x)); { assert Unleft13(x) == x ^ (x << 13) ^ (x << 26); }
      Left13(x ^ (x << 13) ^ (x << 26)); x; }
  }

  lemma Left5Reverts(x: bv32)
    ensures Left5(Unleft5(x)) == x
  {
    var y := x ^ (x << 5) ^ (x << 10) ^ (x << 15) ^ (x << 20) ^ (x << 25) ^ (x << 30);
    calc { Left5(Unleft5(x)); { assert Unleft5(x) == y; } Left5(y); x; }
  }

  /** The words of the first nonces. */
  lemma FirstJitterWords()
    ensures JitterWord(0) == 0x510c4619 && JitterWord(1) == 0x51086638 && JitterWord(2) == 0x5104065b
  {
  }

  /** Some delays: 100 ms doubled three times, its cap, a minute's cap, and nothing. */
  lemma SomeDelays()
    ensures CappedPow2BackoffMs(100, 3, 10_000) == Duration(0, 800_000_000)
    ensures CappedPow2BackoffMs(100, 10, 10_000) == Duration(10, 0)
    ensures CappedPow2BackoffMs(1000, 10, 0xFFFF_FFFF_FFFF_FFFF) == Duration(60, 0)
    ensures CappedPow2BackoffMs(0, 10, 10_000) == CappedPow2BackoffMs(1000, 0, 0) == Duration(0, 0)
  {
    hide CappedPow2Backoff;
    assert Pow2(5) == 32 && Pow2(10) == 1024 && Pow2(3) == 8 && Pow2(0) == 1;
    CappedPow2IsExact(FromMillis(100), 3, FromMillis(10_000));
    NanosIsInjective(CappedPow2BackoffMs(100, 3, 10_000), Duration(0, 800_000_000));
    CappedPow2IsExact(FromMillis(100), 10, FromMillis(10_000));
    NanosIsInjective(CappedPow2BackoffMs(100, 10, 10_000), Duration(10, 0));
    CappedPow2IsExact(FromMillis(1000), 10, FromMillis(0xFFFF_FFFF_FFFF_FFFF));
    NanosIsInjective(CappedPow2BackoffMs(1000, 10, 0xFFFF_FFFF_FFFF_FFFF), Duration(60, 0));
    CappedPow2IsExact(FromMillis(0), 10, FromMillis(10_000));
    NanosIsInjective(CappedPow2BackoffMs(0, 10, 10_000), Duration(0, 0));
    CappedPow2IsExact(FromMillis(1000), 0, FromMillis(0));
    NanosIsInjective(CappedPow2BackoffMs(1000, 0, 0), Duration(0, 0));
  }
}
