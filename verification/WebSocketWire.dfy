/**
 The frames of the readiness probe byte by byte and bit by bit: what a serialised frame
 looks like, what the client puts on the wire, and what a stream cut short gives.
 */
module WebSocketWire {
  import opened Wrappers
  import opened Bytes
  import opened Powers
  import opened WebSocketFrames

  function Bit(n: nat, k: nat): nat {
    n / Pow2(k) % 2
  }

  lemma BitOfHalf(n: nat, k: nat)
    ensures Bit(n, k + 1) == Bit(n / 2, k) && Bit(n, 0) == n % 2
  {
    hide Pow2;
    DivideTwice(n, 2, Pow2(k));
    assert Pow2(0) == 1 && Pow2(k + 1) == 2 * Pow2(k) by {
      NextPower(k);
    }
  }

  lemma NextPower(k: nat)
    ensures Pow2(0) == 1 && Pow2(k + 1) == 2 * Pow2(k)
  {
  }

  lemma {:induction false} XorBitsBit(a: nat, b: nat, n: nat, k: nat)
    requires k < n
    ensures Bit(XorBits(a, b, n), k) == 1 <==> Bit(a, k) != Bit(b, k)
    decreases n
  {
    hide XorBits, Bit;
    XorHalves(a, b, n);
    BitOfHalf(XorBits(a, b, n), if k == 0 then 0 else k - 1);
    BitOfHalf(a, if k == 0 then 0 else k - 1);
    BitOfHalf(b, if k == 0 then 0 else k - 1);
    if k == 0 {
    } else {
      XorBitsBit(a / 2, b / 2, n - 1, k - 1);
      BitIsBit(a / 2, k - 1);
      BitIsBit(b / 2, k - 1);
    }
  }

  lemma BitIsBit(n: nat, k: nat)
    ensures Bit(n, k) < 2
  {
  }

  /** Exclusive or: a bit is set exactly where the two bytes differ. */
  lemma XorIsExclusive(a: Byte, b: Byte, k: nat)
    requires k < 8
    ensures Bit(Xor(a, b), k) == 1 <==> Bit(a, k) != Bit(b, k)
  {
    ByteBits();
    XorBitsBit(a, b, 8, k);
  }

  // ------------------------------------------------------------------ a frame byte by byte

  /** Bytes of the length that follow the first two. */
  function LengthBytes(f: Frame): nat {
    match f.form case Short => 0 case Medium => 2 case Long => 8
  }

  /** The two bytes of every frame, its length field and its mask. */
  lemma HeadBytes(f: Frame)
    requires WellFormed(f)
    ensures var s, n, h := Serialize(f), |f.payload|, 2 + LengthBytes(f);
            && |s| == h + (if f.mask.Some? then 4 else 0) + n
            && s[0] == 16 * f.flags + f.opcode
            && s[1] == (if f.mask.Some? then 128 else 0)
               + (match f.form case Short => n case Medium => 126 case Long => 127)
            && AreDigits(s[2..h], n)
            && (f.mask.Some? ==> s[h..h + 4] == f.mask.value)
  {
    hide BigEndian, Body, AreDigits;
    var h := 2 + LengthBytes(f);
    FrameParts(Head(f), Extended(f), MaskField(f), Body(f));
    assert AreDigits(Extended(f), |f.payload|) by {
      ExtendedDigits(f);
    }
    hide Serialize;
    assert Serialize(f)[2..h] == Extended(f);
  }

  lemma FrameParts(head: seq<Byte>, ext: seq<Byte>, mask: seq<Byte>, body: seq<Byte>)
    requires |head| == 2
    ensures var s, h := head + ext + mask + body, 2 + |ext|;
            && s[0] == head[0] && s[1] == head[1] && s[2..h] == ext && s[h..h + |mask|] == mask
            && s[h + |mask|..] == body
  {
  }

  lemma ExtendedDigits(f: Frame)
    requires WellFormed(f)
    ensures |Extended(f)| == LengthBytes(f) && AreDigits(Extended(f), |f.payload|)
  {
    BigEndianDigits(|f.payload|, LengthBytes(f));
  }

  /** The payload as it goes out: as it is, or with byte i combined with mask byte i mod 4. */
  lemma BodyIsMasked(f: Frame)
    requires WellFormed(f)
    ensures var h := 2 + LengthBytes(f) + if f.mask.Some? then 4 else 0;
            && h <= |Serialize(f)|
            && var body := Serialize(f)[h..];
               if f.mask.Some? then IsMasked(body, f.payload, f.mask.value) else body == f.payload
  {
    hide BigEndian, IsMasked;
    FrameParts(Head(f), Extended(f), MaskField(f), Body(f));
    assert |Extended(f)| == LengthBytes(f);
    if f.mask.Some? {
      MaskedBits(f.payload, f.mask.value);
    }
  }

  /** What the client sends: a final, masked text frame in the shortest length form. */
  lemma ClientBytes(payload: seq<Byte>, mask: seq<Byte>)
    requires |mask| == 4 && |payload| < LENGTH_LIMIT
    ensures var s, n := Serialize(ClientFrame(payload, mask)), |payload|;
            var h := if n < 126 then 2 else if n < 65536 then 4 else 10;
            && |s| == h + 4 + n && s[0] == 0x81
            && s[1] == (if n < 126 then 0x80 + n else if n < 65536 then 0xFE else 0xFF)
            && AreDigits(s[2..h], n) && s[h..h + 4] == mask && IsMasked(s[h + 4..], payload, mask)
  {
    hide Serialize, AreDigits, IsMasked;
    var f := ClientFrame(payload, mask);
    LengthFields();
    HeadBytes(f);
    BodyIsMasked(f);
  }

  /** Each bit goes out as it is where the mask's bit is 0, and inverted where it is 1. */
  ghost predicate IsMasked(body: seq<Byte>, payload: seq<Byte>, mask: seq<Byte>)
    requires |mask| == 4
  {
    |body| == |payload| && forall i, k: nat | 0 <= i < |body| && k < 8 ::
      Bit(body[i], k) == 1 <==> Bit(payload[i], k) != Bit(mask[i % 4], k)
  }

  lemma MaskedBits(payload: seq<Byte>, mask: seq<Byte>)
    requires |mask| == 4
    ensures IsMasked(Masked(payload, mask), payload, mask)
  {
    hide Bit, Xor;
    forall i, k: nat | 0 <= i < |payload| && k < 8
      ensures Bit(Masked(payload, mask)[i], k) == 1 <==> Bit(payload[i], k) != Bit(mask[i % 4], k)
    {
      XorIsExclusive(payload[i], mask[i % 4], k);
    }
  }

  // ------------------------------------------------------------------ streams cut short

  lemma CutConcat(a: seq<Byte>, b: seq<Byte>, n: nat)
    requires n <= |a| + |b|
    ensures n < |a| ==> Split((a + b)[..n], |a|).None?
    ensures n >= |a| ==> (a + b)[..n] == a + b[..n - |a|] && Split((a + b)[..n], |a|) == Some((a, b[..n - |a|]))
  {
    if n >= |a| {
      assert (a + b)[..n] == a + b[..n - |a|];
    }
  }

  lemma CutLength(f: Frame, tail: seq<Byte>, n: nat)
    requires WellFormed(f) && n < |Extended(f)|
    ensures ReadLength(Length7(f), (Extended(f) + tail)[..n]) == Err(EndOfStream)
  {
    hide BigEndian, FromBigEndian;
  }

  lemma CutBody(f: Frame, n: nat)
    requires WellFormed(f) && n < |MaskField(f)| + |Body(f)|
    ensures ReadBody(f.mask.Some?, |f.payload|, (MaskField(f) + Body(f))[..n]) == Err(EndOfStream)
  {
    hide Masked, Split;
    CutConcat(MaskField(f), Body(f), n);
    if n >= |MaskField(f)| {
      assert Body(f) + [] == Body(f);
      CutConcat(Body(f), [], n - |MaskField(f)|);
    }
  }

  /** Any proper beginning of a frame within the limit ends the stream too early. */
  lemma CutFrame(f: Frame, n: nat)
    requires WellFormed(f) && |f.payload| <= 65536 && n < |Serialize(f)|
    ensures ReadFrame(Serialize(f)[..n]) == Err(EndOfStream)
  {
    hide Split, ReadLength, ReadBody, Extended, MaskField, Body;
    var tail := MaskField(f) + Body(f);
    assert Serialize(f) == Head(f) + (Extended(f) + tail);
    CutConcat(Head(f), Extended(f) + tail, n);
    if n >= 2 {
      CutConcat(Extended(f), tail, n - 2);
      if n - 2 < |Extended(f)| {
        CutLength(f, tail, n - 2);
      } else {
        var m := n - 2 - |Extended(f)|;
        LengthRoundTrip(f, tail[..m]);
        CutBody(f, m);
      }
    }
  }

  /** A stream that ends before a text or close frame is complete gives nothing else. */
  lemma {:induction false} CutStream(skipped: seq<Frame>, f: Frame, n: nat)
    requires (forall g | g in skipped :: WellFormed(g) && Skippable(g)) && WellFormed(f) && |f.payload| <= 65536
    requires n < |Serialize(f)|
    ensures ReadText(SerializeAll(skipped) + Serialize(f)[..n]) == Err(EndOfStream)
    decreases |skipped|
  {
    hide Serialize, ReadFrame;
    if skipped == [] {
      assert SerializeAll(skipped) + Serialize(f)[..n] == Serialize(f)[..n];
      CutFrame(f, n);
    } else {
      var tail := SerializeAll(skipped[1..]) + Serialize(f)[..n];
      assert SerializeAll(skipped) + Serialize(f)[..n] == Serialize(skipped[0]) + tail;
      FrameRoundTrip(skipped[0], tail);
      CutStream(skipped[1..], f, n);
    }
  }

  // ------------------------------------------------------------------ nothing else is read

  /** The frame whose parts these are. */
  function FrameOf(head: seq<Byte>, mask: seq<Byte>, payload: seq<Byte>): Frame
    requires |head| == 2
  {
    Frame(head[0] / 16, head[0] % 16, if head[1] >= 128 then Some(mask) else None,
          if head[1] % 128 == 126 then Medium else if head[1] % 128 == 127 then Long else Short, payload)
  }

  lemma LengthIsField(f: Frame, len7: nat, s: seq<Byte>, len: nat, rest: seq<Byte>)
    requires len7 < 128 && ReadLength(len7, s) == Ok((len, rest)) && |f.payload| == len
    requires f.form == if len7 == 126 then Medium else if len7 == 127 then Long else Short
    ensures s == Extended(f) + rest && Length7(f) == len7
    ensures len < (match f.form case Short => 126 case Medium => 65536 case Long => LENGTH_LIMIT)
  {
    hide BigEndian, FromBigEndian;
    LengthFields();
    var n := LengthBytes(f);
    if n > 0 {
      FromBigEndianRoundTrip(s[..n]);
      FromBigEndianBound(s[..n]);
    }
  }

  lemma BodyIsField(f: Frame, s: seq<Byte>, rest: seq<Byte>)
    requires ReadBody(f.mask.Some?, |f.payload|, s) == Ok((f.payload, rest)) && (f.mask.Some? ==> |s| >= 4)
    requires f.mask.Some? ==> f.mask == Some(s[..4])
    ensures f.mask.Some? ==> s == f.mask.value + Masked(f.payload, f.mask.value) + rest
    ensures f.mask.None? ==> s == f.payload + rest
  {
    hide Masked;
    if f.mask.Some? {
      var raw := s[4..4 + |f.payload|];
      MaskedTwice(raw, s[..4]);
      assert f.payload == Masked(raw, s[..4]) by {
        assert s[4..][..|f.payload|] == raw;
      }
      assert s == s[..4] + raw + rest;
    }
  }

  /** Whatever the reader takes for a frame is one: the serialisation of a well-formed frame
      with the opcode and payload it reports, and what follows. */
  lemma EveryFrameIsWellFormed(s: seq<Byte>)
    requires ReadFrame(s).Ok?
    ensures var (opcode, payload, rest) := ReadFrame(s).value;
            exists f :: WellFormed(f) && f.opcode == opcode && f.payload == payload && s == Serialize(f) + rest
  {
    hide ReadLength, ReadBody, Masked, BigEndian;
    var (opcode, payload, rest) := ReadFrame(s).value;
    var head, tail := s[..2], s[2..];
    var (len, more) := ReadLength(head[1] % 128, tail).value;
    MaskFits(head[1] >= 128, len, more);
    var f := FrameOf(head, if head[1] >= 128 then more[..4] else [], payload);
    LengthIsField(f, head[1] % 128, tail, len, more);
    BodyIsField(f, more, rest);
    assert WellFormed(f);
    assert Head(f) == head;
    JoinParts(f, more, rest);
    assert s == head + tail;
  }

  lemma JoinParts(f: Frame, more: seq<Byte>, rest: seq<Byte>)
    requires WellFormed(f) && more == MaskField(f) + Body(f) + rest
    ensures Head(f) + (Extended(f) + more) == Serialize(f) + rest
  {
    hide Extended, MaskField, Body, Head;
  }

  lemma MaskFits(masked: bool, len: nat, s: seq<Byte>)
    requires ReadBody(masked, len, s).Ok?
    ensures masked ==> |s| >= 4
    ensures |ReadBody(masked, len, s).value.0| == len
  {
    hide Masked;
  }
}
