/** Bytes, unsigned integers in network byte order, and streams read exactly n bytes at a time. */
module Bytes {
  import opened Wrappers

  type Byte = b: nat | b < 256

  function BigEndian(n: nat, k: nat): (bytes: seq<Byte>)
    ensures |bytes| == k
    decreases k
  {
    if k == 0 then [] else BigEndian(n / 256, k - 1) + [n % 256]
  }

  function FromBigEndian(bytes: seq<Byte>): nat {
    if bytes == [] then 0 else 256 * FromBigEndian(bytes[..|bytes| - 1]) + bytes[|bytes| - 1]
  }

  function Pow256(k: nat): (p: nat)
    ensures p > 0
  {
    if k == 0 then 1 else 256 * Pow256(k - 1)
  }

  lemma {:induction false} BigEndianRoundTrip(n: nat, k: nat)
    requires n < Pow256(k)
    ensures FromBigEndian(BigEndian(n, k)) == n
    decreases k
  {
    if k == 0 {
    } else {
      BigEndianRoundTrip(n / 256, k - 1);
      assert BigEndian(n, k)[..k - 1] == BigEndian(n / 256, k - 1);
    }
  }

  lemma {:induction false} FromBigEndianRoundTrip(bytes: seq<Byte>)
    ensures BigEndian(FromBigEndian(bytes), |bytes|) == bytes
  {
    if bytes == [] {
    } else {
      var n := |bytes| - 1;
      var high := FromBigEndian(bytes[..n]);
      FromBigEndianRoundTrip(bytes[..n]);
      assert (256 * high + bytes[n]) / 256 == high && (256 * high + bytes[n]) % 256 == bytes[n];
    }
  }

  /** Byte i, from the most significant, is that digit of n in base 256. */
  lemma {:induction false} BigEndianDigit(n: nat, k: nat, i: nat)
    requires i < k
    ensures BigEndian(n, k)[i] == n / Pow256(k - 1 - i) % 256
    decreases k
  {
    if i == k - 1 {
      assert Pow256(0) == 1;
    } else {
      BigEndianDigit(n / 256, k - 1, i);
      DivideTwice(n, 256, Pow256(k - 2 - i));
    }
  }

  /** The bytes are n's digits in base 256, most significant first. */
  ghost predicate AreDigits(bytes: seq<Byte>, n: nat) {
    forall i | 0 <= i < |bytes| :: bytes[i] == n / Pow256(|bytes| - 1 - i) % 256
  }

  lemma BigEndianDigits(n: nat, k: nat)
    ensures AreDigits(BigEndian(n, k), n)
  {
    forall i | 0 <= i < k
      ensures BigEndian(n, k)[i] == n / Pow256(k - 1 - i) % 256
    {
      BigEndianDigit(n, k, i);
    }
  }

  lemma DivideTwice(n: nat, a: nat, b: nat)
    requires a > 0 && b > 0
    ensures a * b > 0 && n / a / b == n / (a * b)
  {
    var m, s := DivMod(n, a);
    var q, r := DivMod(m, b);
    RemainderFits(q, b, r, a, s);
    QuotientIs(n, a * b, q, r * a + s);
  }

  lemma DivMod(n: nat, d: nat) returns (q: nat, r: nat)
    requires d > 0
    ensures q == n / d && r < d && n == q * d + r
  {
    q, r := n / d, n % d;
  }

  lemma RemainderFits(q: nat, b: nat, r: nat, a: nat, s: nat)
    requires r < b && s < a
    ensures r * a + s < a * b && (q * b + r) * a + s == q * (a * b) + (r * a + s)
  {
    AtLeastOnce(b - r, a);
    Distributes(b, r, a);
    Regroup(q, b, r, a);
  }

  lemma Regroup(q: nat, b: nat, r: nat, a: nat)
    ensures (q * b + r) * a == q * (a * b) + r * a && b * a == a * b
  {
  }

  lemma QuotientIs(n: nat, d: nat, q: nat, r: nat)
    requires d > 0 && r < d && n == q * d + r
    ensures n / d == q
  {
    var e, f := n / d, n % d;
    assert e * d + f == q * d + r;
    if e < q {
      AtLeastOnce(q - e, d);
      Distributes(q, e, d);
    } else if q < e {
      AtLeastOnce(e - q, d);
      Distributes(e, q, d);
    }
  }

  lemma AtLeastOnce(k: nat, d: nat)
    requires k >= 1
    ensures k * d >= d
  {
  }

  lemma Distributes(a: nat, b: nat, d: nat)
    requires b <= a
    ensures (a - b) * d == a * d - b * d
  {
  }

  lemma {:induction false} FromBigEndianBound(bytes: seq<Byte>)
    ensures FromBigEndian(bytes) < Pow256(|bytes|)
  {
    if bytes == [] {
    } else {
      FromBigEndianBound(bytes[..|bytes| - 1]);
    }
  }

  /** The first `n` bytes and what follows them. */
  function Split(s: seq<Byte>, n: nat): Option<(seq<Byte>, seq<Byte>)> {
    if |s| < n then None else Some((s[..n], s[n..]))
  }

  lemma SplitConcat(a: seq<Byte>, b: seq<Byte>)
    ensures Split(a + b, |a|) == Some((a, b))
  {
  }

  lemma SplitNothing(s: seq<Byte>)
    ensures Split(s, 0) == Some(([], s))
  {
  }

  /** A connection's incoming bytes, up to its end. */
  class Stream {
    var bytes: seq<Byte>

    constructor (bytes: seq<Byte>)
      ensures this.bytes == bytes
    {
      this.bytes := bytes;
    }

    /** Nothing when the stream ends first. */
    method ReadExact(n: nat) returns (r: Option<seq<Byte>>)
      modifies this
      ensures match Split(old(bytes), n)
              case Some((front, rest)) => r == Some(front) && bytes == rest
              case None => r == None && bytes == []
    {
      if |bytes| < n {
        bytes := [];
        return None;
      }
      r := Some(bytes[..n]);
      bytes := bytes[n..];
    }

    /** One read of at most `room` bytes: as many as happen to have arrived. */
    method ReadSome(room: nat) returns (got: seq<Byte>)
      modifies this
      ensures old(bytes) == got + bytes
      ensures |got| <= room && (got == [] <==> room == 0 || old(bytes) == [])
    {
      if room == 0 || bytes == [] {
        return [];
      }
      var arrived: nat :| 0 < arrived <= room && arrived <= |bytes|;
      got := bytes[..arrived];
      bytes := bytes[arrived..];
    }
  }
}
