/**
 The readiness probe's WebSocket framing: one masked text frame out, frames read back
 until a text one arrives. Frame layout as in sections 5.2 and 5.3 of RFC 6455.
 */
module WebSocketFrames {
  import opened Wrappers
  import opened Bytes
  import opened Powers

  const MAX_FRAME: nat := 65536
  const LENGTH_LIMIT: nat := 0x1_0000_0000_0000_0000

  const TEXT: nat := 1
  const CLOSE: nat := 8

  // ------------------------------------------------------------------ bytes

  /** Exclusive or of the low `k` bits. */
  function XorBits(a: nat, b: nat, k: nat): (r: nat)
    ensures r < Pow2(k)
    decreases k
  {
    if k == 0 then 0 else (if a % 2 == b % 2 then 0 else 1) + 2 * XorBits(a / 2, b / 2, k - 1)
  }

  lemma XorHalves(a: nat, b: nat, n: nat)
    requires n > 0
    ensures XorBits(a, b, n) % 2 == (if a % 2 == b % 2 then 0 else 1)
    ensures XorBits(a, b, n) / 2 == XorBits(a / 2, b / 2, n - 1)
  {
  }

  lemma {:induction false} XorBitsTwice(a: nat, b: nat, k: nat)
    requires a < Pow2(k)
    ensures XorBits(XorBits(a, b, k), b, k) == a
    decreases k
  {
    if k == 0 {
    } else {
      hide XorBits;
      assert a / 2 < Pow2(k - 1);
      XorHalves(a, b, k);
      XorHalves(XorBits(a, b, k), b, k);
      XorBitsTwice(a / 2, b / 2, k - 1);
    }
  }

  lemma ByteBits()
    ensures Pow2(8) == 256
  {
    assert Pow2(4) == 16;
  }

  function Xor(a: Byte, b: Byte): Byte {
    ByteBits();
    XorBits(a, b, 8)
  }

  /** The payload with byte i combined with mask byte i mod 4; its own inverse. */
  function Masked(payload: seq<Byte>, mask: seq<Byte>): (r: seq<Byte>)
    requires |mask| == 4
    ensures |r| == |payload|
  {
    seq(|payload|, i requires 0 <= i < |payload| => Xor(payload[i], mask[i % 4]))
  }

  lemma MaskedTwice(payload: seq<Byte>, mask: seq<Byte>)
    requires |mask| == 4
    ensures Masked(Masked(payload, mask), mask) == payload
  {
    ByteBits();
    forall i | 0 <= i < |payload|
      ensures Masked(Masked(payload, mask), mask)[i] == payload[i]
    {
      XorBitsTwice(payload[i], mask[i % 4], 8);
    }
  }

  lemma LengthFields()
    ensures Pow256(2) == 65536 && Pow256(8) == LENGTH_LIMIT
  {
    assert Pow256(4) == 0x1_0000_0000;
  }

  // ------------------------------------------------------------------ frames on the wire

  datatype LengthForm = Short | Medium | Long

  /** `flags` is the high half of the first byte: FIN and the reserved bits. */
  datatype Frame = Frame(flags: nat, opcode: nat, mask: Option<seq<Byte>>, form: LengthForm, payload: seq<Byte>)

  predicate WellFormed(f: Frame) {
    && f.flags < 16 && f.opcode < 16
    && (f.mask.Some? ==> |f.mask.value| == 4)
    && |f.payload| < (match f.form case Short => 126 case Medium => 65536 case Long => LENGTH_LIMIT)
  }

  function Length7(f: Frame): nat {
    match f.form case Short => |f.payload| case Medium => 126 case Long => 127
  }

  function Extended(f: Frame): seq<Byte> {
    match f.form case Short => [] case Medium => BigEndian(|f.payload|, 2) case Long => BigEndian(|f.payload|, 8)
  }

  function Head(f: Frame): (head: seq<Byte>)
    requires WellFormed(f)
    ensures |head| == 2
  {
    [16 * f.flags + f.opcode, (if f.mask.Some? then 128 else 0) + Length7(f)]
  }

  function MaskField(f: Frame): seq<Byte> {
    if f.mask.Some? then f.mask.value else []
  }

  function Body(f: Frame): (body: seq<Byte>)
    requires WellFormed(f)
    ensures |body| == |f.payload|
  {
    if f.mask.Some? then Masked(f.payload, f.mask.value) else f.payload
  }

  function Serialize(f: Frame): seq<Byte>
    requires WellFormed(f)
  {
    Head(f) + Extended(f) + MaskField(f) + Body(f)
  }

  function SerializeAll(fs: seq<Frame>): seq<Byte>
    requires forall f | f in fs :: WellFormed(f)
  {
    if fs == [] then [] else Serialize(fs[0]) + SerializeAll(fs[1..])
  }

  /** The frame the client sends: final, text, masked, shortest length form. */
  function ClientFrame(payload: seq<Byte>, mask: seq<Byte>): Frame {
    Frame(8, TEXT, Some(mask),
          if |payload| < 126 then Short else if |payload| <= 65535 then Medium else Long, payload)
  }

  method TextFrame(payload: seq<Byte>, mask: seq<Byte>) returns (frame: seq<Byte>)
    requires |mask| == 4 && |payload| < LENGTH_LIMIT
    ensures frame == Serialize(ClientFrame(payload, mask))
  {
    hide Masked, BigEndian, Xor;
    var n := |payload|;
    ghost var f := ClientFrame(payload, mask);
    frame := [0x81];
    if n < 126 {
      frame := frame + [0x80 + n];
    } else if n <= 65535 {
      frame := frame + [0x80 + 126];
      frame := frame + BigEndian(n, 2);
    } else {
      frame := frame + [0x80 + 127];
      frame := frame + BigEndian(n, 8);
    }
    assert frame == Head(f) + Extended(f);
    frame := frame + mask;
    ghost var before := frame;
    for i := 0 to n
      invariant frame == before + Body(f)[..i]
    {
      MaskedAt(payload, mask, i);
      frame := frame + [Xor(payload[i], mask[i % 4])];
      assert Body(f)[..i + 1] == Body(f)[..i] + [Body(f)[i]];
    }
    assert Body(f)[..n] == Body(f);
  }

  lemma MaskedAt(payload: seq<Byte>, mask: seq<Byte>, i: nat)
    requires |mask| == 4 && i < |payload|
    ensures Masked(payload, mask)[i] == Xor(payload[i], mask[i % 4])
  {
    hide Xor;
  }

  // ------------------------------------------------------------------ reading

  datatype ReadError = EndOfStream | FrameTooLong(length: nat) | ConnectionClosed

  function ReadLength(len7: nat, s: seq<Byte>): (r: Result<(nat, seq<Byte>), ReadError>)
    ensures r.Ok? ==> |r.value.1| <= |s|
  {
    var n := if len7 == 126 then 2 else if len7 == 127 then 8 else 0;
    if n == 0 then Ok((len7, s)) else
    match Split(s, n)
    case None => Err(EndOfStream)
    case Some((ext, rest)) => Ok((FromBigEndian(ext), rest))
  }

  function ReadBody(masked: bool, len: nat, s: seq<Byte>): (r: Result<(seq<Byte>, seq<Byte>), ReadError>)
    ensures r.Ok? ==> |r.value.1| <= |s|
  {
    match Split(s, if masked then 4 else 0)
    case None => Err(EndOfStream)
    case Some((mask, rest)) =>
      match Split(rest, len)
      case None => Err(EndOfStream)
      case Some((raw, rest)) => Ok((if masked then Masked(raw, mask) else raw, rest))
  }

  /** One frame off the front: its opcode, its unmasked payload and what follows it. */
  function ReadFrame(s: seq<Byte>): (r: Result<(nat, seq<Byte>, seq<Byte>), ReadError>)
    ensures r.Ok? ==> |r.value.2| < |s|
  {
    match Split(s, 2)
    case None => Err(EndOfStream)
    case Some((head, rest)) =>
      match ReadLength(head[1] % 128, rest)
      case Err(e) => Err(e)
      case Ok((len, rest)) =>
        if len > MAX_FRAME then Err(FrameTooLong(len)) else
        match ReadBody(head[1] >= 128, len, rest)
        case Err(e) => Err(e)
        case Ok((payload, rest)) => Ok((head[0] % 16, payload, rest))
  }

  /** Frames are read past until a text one; a close ends the attempt. */
  function ReadText(s: seq<Byte>): Result<(seq<Byte>, seq<Byte>), ReadError>
    decreases |s|
  {
    match ReadFrame(s)
    case Err(e) => Err(e)
    case Ok((opcode, payload, rest)) =>
      if opcode == TEXT then Ok((payload, rest))
      else if opcode == CLOSE then Err(ConnectionClosed)
      else ReadText(rest)
  }

  // ------------------------------------------------------------------ main results

  lemma LengthRoundTrip(f: Frame, rest: seq<Byte>)
    requires WellFormed(f)
    ensures ReadLength(Length7(f), Extended(f) + rest) == Ok((|f.payload|, rest))
  {
    hide BigEndian, FromBigEndian;
    LengthFields();
    SplitConcat(Extended(f), rest);
    match f.form
    case Short => assert [] + rest == rest;
    case Medium => BigEndianRoundTrip(|f.payload|, 2);
    case Long => BigEndianRoundTrip(|f.payload|, 8);
  }

  lemma BodyRoundTrip(f: Frame, rest: seq<Byte>)
    requires WellFormed(f)
    ensures ReadBody(f.mask.Some?, |f.payload|, MaskField(f) + (Body(f) + rest)) == Ok((f.payload, rest))
  {
    hide Masked, Split;
    SplitConcat(MaskField(f), Body(f) + rest);
    SplitConcat(Body(f), rest);
    if f.mask.Some? {
      MaskedTwice(f.payload, f.mask.value);
    }
  }

  /** A well-formed frame, in any length form, masked or not, reads back exactly,
      unless it is longer than the limit. */
  lemma FrameRoundTrip(f: Frame, rest: seq<Byte>)
    requires WellFormed(f)
    ensures ReadFrame(Serialize(f) + rest) ==
            if |f.payload| > 65536 then Err(FrameTooLong(|f.payload|)) else Ok((f.opcode, f.payload, rest))
  {
    hide Split, ReadLength, ReadBody, Extended, MaskField, Body;
    var tail := MaskField(f) + (Body(f) + rest);
    assert Serialize(f) + rest == Head(f) + (Extended(f) + tail);
    SplitConcat(Head(f), Extended(f) + tail);
    LengthRoundTrip(f, tail);
    BodyRoundTrip(f, rest);
  }

  /** A frame the reader reads past. */
  predicate Skippable(f: Frame) {
    WellFormed(f) && f.opcode != 1 && f.opcode != 8 && |f.payload| <= 65536
  }

  /** After any run of skippable frames the reader stops at the next one: a text frame
      gives its payload and exactly what follows it, a close or an oversized frame an error. */
  lemma {:induction false} ReaderStopsAtText(skipped: seq<Frame>, f: Frame, rest: seq<Byte>)
    requires (forall g | g in skipped :: WellFormed(g) && Skippable(g)) && WellFormed(f) && !Skippable(f)
    ensures ReadText(SerializeAll(skipped) + Serialize(f) + rest) ==
            if |f.payload| > 65536 then Err(FrameTooLong(|f.payload|))
            else if f.opcode == 1 then Ok((f.payload, rest)) else Err(ConnectionClosed)
    decreases |skipped|
  {
    hide Serialize, ReadFrame;
    if skipped == [] {
      assert SerializeAll(skipped) + Serialize(f) + rest == Serialize(f) + rest;
      FrameRoundTrip(f, rest);
    } else {
      var tail := SerializeAll(skipped[1..]) + Serialize(f) + rest;
      assert SerializeAll(skipped) + Serialize(f) + rest == Serialize(skipped[0]) + tail;
      FrameRoundTrip(skipped[0], tail);
      ReaderStopsAtText(skipped[1..], f, rest);
    }
  }

  /** What the client sends reads back as sent exactly when it is within the limit. */
  lemma ClientFrameRoundTrip(payload: seq<Byte>, mask: seq<Byte>, rest: seq<Byte>)
    requires |mask| == 4 && |payload| < LENGTH_LIMIT
    ensures ReadText(Serialize(ClientFrame(payload, mask)) + rest) == Ok((payload, rest)) <==> |payload| <= 65536
  {
    hide Serialize, ReadFrame;
    FrameRoundTrip(ClientFrame(payload, mask), rest);
  }

  // ------------------------------------------------------------------ the reader

  method UnmaskInPlace(payload: array<Byte>, mask: seq<Byte>)
    requires |mask| == 4
    modifies payload
    ensures payload[..] == Masked(old(payload[..]), mask)
  {
    hide Xor;
    for i := 0 to payload.Length
      invariant forall k | 0 <= k < i :: payload[k] == Xor(old(payload[k]), mask[k % 4])
      invariant forall k | i <= k < payload.Length :: payload[k] == old(payload[k])
    {
      payload[i] := Xor(payload[i], mask[i % 4]);
    }
  }

  /** The frame's length: seven bits, or the two or eight bytes they announce. */
  method TakeLength(stream: Stream, len7: nat) returns (r: Result<nat, ReadError>)
    modifies stream
    ensures match ReadLength(len7, old(stream.bytes))
            case Ok((len, rest)) => r == Ok(len) && stream.bytes == rest
            case Err(e) => r == Err(e)
  {
    hide FromBigEndian;
    r := Ok(len7);
    if len7 == 126 {
      var ext := stream.ReadExact(2);
      r := if ext.None? then Err(EndOfStream) else Ok(FromBigEndian(ext.value));
    } else if len7 == 127 {
      var ext := stream.ReadExact(8);
      r := if ext.None? then Err(EndOfStream) else Ok(FromBigEndian(ext.value));
    }
  }

  /** The mask, if any, and the payload, unmasked where it was read. */
  method TakeBody(stream: Stream, masked: bool, len: nat) returns (r: Result<seq<Byte>, ReadError>)
    modifies stream
    ensures match ReadBody(masked, len, old(stream.bytes))
            case Ok((payload, rest)) => r == Ok(payload) && stream.bytes == rest
            case Err(e) => r == Err(e)
  {
    hide Masked;
    var mask: seq<Byte> := [0, 0, 0, 0];
    SplitNothing(stream.bytes);
    if masked {
      var m := stream.ReadExact(4);
      if m.None? { return Err(EndOfStream); }
      mask := m.value;
    }
    var body := stream.ReadExact(len);
    if body.None? { return Err(EndOfStream); }
    var payload := new Byte[len](i requires 0 <= i < len && |body.value| == len => body.value[i]);
    assert payload[..] == body.value;
    if masked {
      UnmaskInPlace(payload, mask);
    }
    r := Ok(payload[..]);
  }

  method ReadTextFrame(stream: Stream) returns (r: Result<seq<Byte>, ReadError>)
    modifies stream
    ensures match ReadText(old(stream.bytes))
            case Ok((payload, rest)) => r == Ok(payload) && stream.bytes == rest
            case Err(e) => r == Err(e)
  {
    hide ReadLength, ReadBody;
    while true
      invariant ReadText(stream.bytes) == ReadText(old(stream.bytes))
      decreases |stream.bytes|
    {
      ghost var s := stream.bytes;
      var head := stream.ReadExact(2);
      if head.None? { return Err(EndOfStream); }
      var len := TakeLength(stream, head.value[1] % 128);
      if len.Err? { return Err(len.error); }
      if len.value > MAX_FRAME { return Err(FrameTooLong(len.value)); }
      var payload := TakeBody(stream, head.value[1] >= 128, len.value);
      if payload.Err? { return Err(payload.error); }
      var opcode := head.value[0] % 16;
      assert ReadFrame(s) == Ok((opcode, payload.value, stream.bytes));
      if opcode == TEXT { return payload; }
      if opcode == CLOSE { return Err(ConnectionClosed); }
    }
  }
}
