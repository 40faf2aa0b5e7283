/**
 The HTTP/2 capture by byte values: what each frame looks like on the wire, which headers
 end the exchange, and every way a header, a payload or the stream itself is refused.
 */
module H2Wire {
  import opened Wrappers
  import opened Bytes
  import opened H2Capture

  // ------------------------------------------------------------------ frames byte by byte

  /** A frame's fields, with the type codes of section 6 of RFC 9113. */
  lemma FrameBytes(c: Control)
    requires WellFormed(c)
    ensures var s, payload := Serialize(c), PayloadOf(c);
            && s[9..] == payload && AreDigits(s[..3], |payload|)
            && s[4] == c.flags && AreDigits(s[5..9], (if c.reserved then 0x8000_0000 else 0) + StreamOf(c))
            && s[3] == match c
                       case PriorityFrame(_, _, _) => 2
                       case SettingsFrame(_, _, _) => 4
                       case WindowUpdateFrame(_, _, _, _, _) => 8
                       case OtherFrame(kind, _, _, _, _) => kind
  {
    hide BigEndian, PayloadOf, AreDigits;
    var h := HeaderOf(c);
    BigEndianDigits(h.length, 3);
    BigEndianDigits(WithBit(c.reserved, h.streamId), 4);
    var b := HeaderBytes(h, c.reserved);
    assert b[..3] == BigEndian(h.length, 3) && b[5..9] == BigEndian(WithBit(c.reserved, h.streamId), 4);
    assert Serialize(c)[..3] == b[..3] && Serialize(c)[5..9] == b[5..9];
  }

  function StreamOf(c: Control): nat {
    match c
    case SettingsFrame(_, _, _) => 0
    case WindowUpdateFrame(_, _, streamId, _, _) => streamId
    case PriorityFrame(_, _, p) => p.streamId
    case OtherFrame(_, _, _, streamId, _) => streamId
  }

  /** A window update's four bytes, and a priority's five. */
  lemma PayloadBytes(c: Control)
    requires WellFormed(c)
    ensures c.WindowUpdateFrame? ==>
              |PayloadOf(c)| == 4 && AreDigits(PayloadOf(c), (if c.reservedBit then 0x8000_0000 else 0) + c.increment)
    ensures c.PriorityFrame? ==>
              && |PayloadOf(c)| == 5 && PayloadOf(c)[4] == c.priority.weight
              && AreDigits(PayloadOf(c)[..4],
                           (if c.priority.exclusive then 0x8000_0000 else 0) + c.priority.dependency)
    ensures c.OtherFrame? ==> PayloadOf(c) == c.payload
  {
    hide BigEndian, AreDigits, SettingBytes;
    match c
    case WindowUpdateFrame(_, _, _, bit, increment) => BigEndianDigits(WithBit(bit, increment), 4);
    case PriorityFrame(_, _, p) =>
      BigEndianDigits(WithBit(p.exclusive, p.dependency), 4);
      assert PayloadOf(c)[..4] == BigEndian(WithBit(p.exclusive, p.dependency), 4);
    case _ =>
  }

  /** A setting's six bytes: two of its id, four of its value. */
  lemma {:induction false} PairBytes(pairs: seq<Setting>, j: nat)
    requires j < |pairs|
    ensures AreDigits(SettingBytes(pairs)[6 * j..6 * j + 2], pairs[j].id)
    ensures AreDigits(SettingBytes(pairs)[6 * j + 2..6 * j + 6], pairs[j].value)
    decreases j
  {
    hide BigEndian, AreDigits;
    var bytes := SettingBytes(pairs);
    assert bytes[6..] == SettingBytes(pairs[1..]);
    if j == 0 {
      BigEndianDigits(pairs[0].id, 2);
      BigEndianDigits(pairs[0].value, 4);
      assert bytes[0..2] == BigEndian(pairs[0].id, 2) && bytes[2..6] == BigEndian(pairs[0].value, 4);
    } else {
      PairBytes(pairs[1..], j - 1);
      var i := 6 * (j - 1);
      assert bytes[6 * j..6 * j + 2] == bytes[6..][i..i + 2];
      assert bytes[6 * j + 2..6 * j + 6] == bytes[6..][i + 2..i + 6];
    }
  }

  /** The preface of section 3.4 of RFC 9113, character by character. */
  lemma PrefaceText(i: nat)
    requires i < 24
    ensures PrefaceBytes()[i] == "PRI * HTTP/2.0\r\n\r\nSM\r\n\r\n"[i] as int
  {
  }

  // ------------------------------------------------------------------ behind the frames

  /** The capture of the preface and these frames. */
  function Projected(cs: seq<Control>): Info {
    ProjectAll(cs, Info(true, [], [], []))
  }

  /** The preface and well-formed frames, then anything at all. */
  lemma AfterPreface(cs: seq<Control>, tail: seq<Byte>)
    requires (forall c | c in cs :: WellFormed(c)) && |cs| <= 32
    ensures Capture(PrefaceBytes() + SerializeAll(cs) + tail)
            == Frames(tail, 32 - |cs|, Projected(cs))
  {
    hide SerializeAll, Frames, PrefaceBytes;
    assert PrefaceBytes() + SerializeAll(cs) + tail == PrefaceBytes() + (SerializeAll(cs) + tail);
    SplitConcat(PrefaceBytes(), SerializeAll(cs) + tail);
    FramesProject(cs, tail, 32, Info(true, [], [], []));
  }

  // ------------------------------------------------------------------ headers that end the capture

  /** After fewer than 32 well-formed frames such a header stops the capture there, without
      error, and nothing after the header is read. */
  lemma StopsByBytes(cs: seq<Control>, head: seq<Byte>, after: seq<Byte>)
    requires (forall c | c in cs :: WellFormed(c)) && |cs| < 32
    requires |head| == 9 && EndsHere(head)
    ensures Capture(PrefaceBytes() + SerializeAll(cs) + (head + after))
            == Outcome(Projected(cs), Stopped, after)
  {
    hide ParseHeader, SerializeAll, Frames, Length, Stream31, Capture, Projected, WellFormed, PrefaceBytes;
    AfterPreface(cs, head + after);
    HeaderFields(head);
    FramesHalt(head + after, 32 - |cs|, Projected(cs), head, after);
  }

  /** The error a header alone is refused with, if it is. */
  ghost predicate RefusedWith(head: seq<Byte>, e: CaptureError)
    requires |head| == 9
  {
    if Length(head) > 16384 then e == FrameTooLong(Length(head))
    else if head[3] == 4 && head[4] % 2 == 1 then Length(head) != 0 && e == AckNotEmpty(Length(head))
    else if head[3] == 4 then Stream31(head) != 0 && e == SettingsOnStream(Stream31(head))
    else head[3] == 2 && Stream31(head) == 0 && e == PriorityOnConnection
  }

  lemma RefusedByBytes(cs: seq<Control>, head: seq<Byte>, after: seq<Byte>, e: CaptureError)
    requires (forall c | c in cs :: WellFormed(c)) && |cs| < 32
    requires |head| == 9 && RefusedWith(head, e)
    ensures Capture(PrefaceBytes() + SerializeAll(cs) + (head + after))
            == Outcome(Projected(cs), Failed(e), after)
  {
    hide ParseHeader, SerializeAll, Frames, Length, Stream31, Capture, Projected, WellFormed, PrefaceBytes;
    AfterPreface(cs, head + after);
    HeaderFields(head);
    FramesHalt(head + after, 32 - |cs|, Projected(cs), head, after);
  }

  /** Every other header announces a payload that is read. */
  predicate ReadsOn(head: seq<Byte>)
    requires |head| == 9
  {
    && Length(head) <= 16384 && head[3] !in {0, 1, 9}
    && (head[3] == 4 ==> head[4] % 2 == 0 && Stream31(head) == 0)
    && (head[3] == 2 ==> Stream31(head) != 0)
  }

  lemma HeadersAreJudged(head: seq<Byte>)
    requires |head| == 9
    ensures ReadsOn(head) <==> !EndsHere(head) && !exists e :: RefusedWith(head, e)
    ensures ReadsOn(head) <==> Judge(ParseHeader(head)) == Read
  {
    hide ParseHeader, Length, Stream31;
    HeaderFields(head);
    assert RefusedWith(head, FrameTooLong(Length(head))) || RefusedWith(head, AckNotEmpty(Length(head)))
      || RefusedWith(head, SettingsOnStream(Stream31(head))) || RefusedWith(head, PriorityOnConnection)
      || ReadsOn(head) || EndsHere(head);
  }

  // ------------------------------------------------------------------ payloads that are refused

  /** The error a payload is refused with. */
  predicate PayloadRefusedWith(head: seq<Byte>, payload: seq<Byte>, e: CaptureError)
    requires |head| == 9
  {
    var n := |payload|;
    match head[3]
    case 4 => n % 6 != 0 && e == SettingsLength(n)
    case 8 =>
      if n != 4 then e == WindowUpdateLength(n)
      else payload[0] in {0, 128} && payload[1] == payload[2] == payload[3] == 0 && e == ZeroIncrement
    case 2 =>
      if n != 5 then e == PriorityLength(n)
      else && Four(payload[0], payload[1], payload[2], payload[3]) % 0x8000_0000 == Stream31(head)
           && e == DependsOnItself(Stream31(head))
    case _ => false
  }

  /** A payload refused adds nothing, and ends the capture behind it. */
  lemma PayloadRefused(cs: seq<Control>, head: seq<Byte>, payload: seq<Byte>, after: seq<Byte>, e: CaptureError)
    requires (forall c | c in cs :: WellFormed(c)) && |cs| < 32
    requires |head| == 9 && ReadsOn(head) && |payload| == Length(head) && PayloadRefusedWith(head, payload, e)
    ensures Capture(PrefaceBytes() + SerializeAll(cs) + (head + (payload + after)))
            == Outcome(Projected(cs), Failed(e), after)
  {
    hide ParseHeader, SerializeAll, Frames, Length, Stream31, FromBigEndian, Capture, Projected, WellFormed;
    hide PrefaceBytes;
    AfterPreface(cs, head + (payload + after));
    HeadersAreJudged(head);
    HeaderFields(head);
    hide ReadsOn, PayloadRefusedWith, Judge, Absorb;
    PayloadAddsNothing(head, payload, Projected(cs), e);
    FramesStep(head + (payload + after), 32 - |cs|, Projected(cs), head, payload, after);
  }

  lemma PayloadAddsNothing(head: seq<Byte>, payload: seq<Byte>, info: Info, e: CaptureError)
    requires |head| == 9 && PayloadRefusedWith(head, payload, e)
    ensures Absorb(ParseHeader(head), payload, info) == (info, Some(e))
  {
    hide ParseHeader, Length, Stream31, FromBigEndian, Four;
    HeaderFields(head);
    if head[3] == 8 && |payload| == 4 {
      FourBytes(payload);
      ZeroField(payload[0], payload[1], payload[2], payload[3]);
    } else if head[3] == 2 && |payload| == 5 {
      FourBytes(payload[..4]);
    }
  }

  lemma ZeroField(a: Byte, b: Byte, c: Byte, d: Byte)
    ensures Four(a, b, c, d) % 0x8000_0000 == 0 <==> a in {0, 128} && b == c == d == 0
  {
  }

  /** The settings before one whose id was seen are kept, and those after it are not read. */
  lemma {:induction false} PairsStopAtRepeat(pairs: seq<Setting>, repeat: Setting, more: seq<Setting>, seen: set<nat>)
    requires DistinctIds(pairs) && forall i | 0 <= i < |pairs| :: pairs[i].id !in seen && InRange(pairs[i])
    requires InRange(repeat) && (repeat.id in seen || exists i | 0 <= i < |pairs| :: pairs[i].id == repeat.id)
    ensures Pairs(SettingBytes(pairs + [repeat] + more), seen) == (pairs, Some(repeat.id))
    decreases |pairs|
  {
    hide SettingAt, SettingBytes;
    var all := pairs + [repeat] + more;
    SettingRoundTrip(all);
    assert SettingBytes(all) != [] by {
      SomeBytes(all);
    }
    if pairs == [] {
      assert all[0] == repeat;
    } else {
      assert all[0] == pairs[0] && all[1..] == pairs[1..] + [repeat] + more;
      PairsStopAtRepeat(pairs[1..], repeat, more, seen + {pairs[0].id});
      assert [pairs[0]] + pairs[1..] == pairs;
    }
  }

  lemma SomeBytes(pairs: seq<Setting>)
    requires pairs != []
    ensures SettingBytes(pairs) != []
  {
    assert |SettingBytes(pairs)| == 6 * |pairs|;
  }

  /** A SETTINGS frame that repeats an id is refused, with the settings before it kept. */
  lemma RepeatRefused(cs: seq<Control>, head: seq<Byte>, pairs: seq<Setting>, repeat: Setting, more: seq<Setting>,
                      after: seq<Byte>)
    requires (forall c | c in cs :: WellFormed(c)) && |cs| < 32
    requires |head| == 9 && ReadsOn(head) && head[3] == 4 && Length(head) == 6 * |pairs + [repeat] + more|
    requires DistinctIds(pairs) && forall i | 0 <= i < |pairs| :: InRange(pairs[i])
    requires InRange(repeat) && exists i | 0 <= i < |pairs| :: pairs[i].id == repeat.id
    ensures var info := Projected(cs);
            Capture(PrefaceBytes() + SerializeAll(cs) + (head + (SettingBytes(pairs + [repeat] + more) + after)))
            == Outcome(info.(settings := info.settings + pairs), Failed(DuplicateSetting(repeat.id)), after)
  {
    hide ParseHeader, SerializeAll, Frames, Length, Stream31, SettingBytes, Capture, Projected, WellFormed, Pairs;
    hide PrefaceBytes;
    var payload := SettingBytes(pairs + [repeat] + more);
    assert |payload| == 6 * |pairs + [repeat] + more|;
    AfterPreface(cs, head + (payload + after));
    HeadersAreJudged(head);
    HeaderFields(head);
    PairsStopAtRepeat(pairs, repeat, more, {});
    FramesStep(head + (payload + after), 32 - |cs|, Projected(cs), head, payload, after);
  }

  // ------------------------------------------------------------------ streams that end

  /** Too few bytes for a header end the capture without error. */
  lemma EndsBetweenFrames(cs: seq<Control>, tail: seq<Byte>)
    requires (forall c | c in cs :: WellFormed(c)) && |cs| < 32 && |tail| < 9
    ensures Capture(PrefaceBytes() + SerializeAll(cs) + tail) == Outcome(Projected(cs), StreamEnded, [])
  {
    hide SerializeAll, Capture, Projected, WellFormed, PrefaceBytes;
    AfterPreface(cs, tail);
  }

  /** After 32 frames nothing more is read. */
  lemma EndsWithBudget(cs: seq<Control>, tail: seq<Byte>)
    requires (forall c | c in cs :: WellFormed(c)) && |cs| == 32
    ensures Capture(PrefaceBytes() + SerializeAll(cs) + tail) == Outcome(Projected(cs), BudgetSpent, tail)
  {
    hide SerializeAll, Capture, Projected, WellFormed, PrefaceBytes;
    AfterPreface(cs, tail);
  }

  /** Too few bytes for the payload announced are an error. */
  lemma CutPayload(cs: seq<Control>, head: seq<Byte>, body: seq<Byte>)
    requires (forall c | c in cs :: WellFormed(c)) && |cs| < 32
    requires |head| == 9 && ReadsOn(head) && |body| < Length(head)
    ensures Capture(PrefaceBytes() + SerializeAll(cs) + (head + body))
            == Outcome(Projected(cs), Failed(PayloadCutShort), [])
  {
    hide ParseHeader, SerializeAll, Length, Stream31, Capture, Projected, WellFormed, PrefaceBytes, Judge, Absorb;
    AfterPreface(cs, head + body);
    HeadersAreJudged(head);
    HeaderFields(head);
    SplitConcat(head, body);
  }

  /** Without the whole preface nothing is captured. */
  lemma NoPreface(s: seq<Byte>)
    ensures |s| < 24 ==> Capture(s) == Outcome(Info(false, [], [], []), Failed(PrefaceCutShort), [])
    ensures |s| >= 24 && s[..24] != PrefaceBytes()
            ==> Capture(s) == Outcome(Info(false, [], [], []), Failed(InvalidPreface), s[24..])
  {
    hide Frames, PrefaceBytes;
  }

  // ------------------------------------------------------------------ nothing else is read

  lemma {:induction false} PairsAreTheBytes(payload: seq<Byte>, seen: set<nat>)
    requires |payload| % 6 == 0 && Pairs(payload, seen).1.None?
    ensures SettingBytes(Pairs(payload, seen).0) == payload
    decreases |payload|
  {
    hide BigEndian, FromBigEndian;
    if payload == [] {
    } else {
      var s := SettingAt(payload);
      FromBigEndianRoundTrip(payload[..2]);
      FromBigEndianRoundTrip(payload[2..6]);
      PairsAreTheBytes(payload[6..], seen + {s.id});
      var rest := Pairs(payload[6..], seen + {s.id}).0;
      assert Pairs(payload, seen).0 == [s] + rest && ([s] + rest)[1..] == rest;
      assert payload == payload[..2] + payload[2..6] + payload[6..];
    }
  }

  /** A 32-bit field is its top bit and the rest. */
  lemma FieldSplits(b: seq<Byte>)
    requires |b| == 4
    ensures var n := FromBigEndian(b);
            n < 0x1_0000_0000 && b == BigEndian(WithBit(n >= 0x8000_0000, n % 0x8000_0000), 4)
  {
    hide BigEndian, FromBigEndian;
    Powers();
    FromBigEndianBound(b);
    FromBigEndianRoundTrip(b);
  }

  /** The frame whose header and payload these are. */
  function ControlOf(head: seq<Byte>, payload: seq<Byte>): Control
    requires |head| == 9
  {
    var h, reserved := ParseHeader(head), FromBigEndian(head[5..]) >= 0x8000_0000;
    if h.kind == 4 then SettingsFrame(h.flags, reserved, if |payload| % 6 == 0 then Pairs(payload, {}).0 else [])
    else if h.kind == 8 then
      var n := FromBigEndian(payload);
      WindowUpdateFrame(h.flags, reserved, h.streamId, n >= 0x8000_0000, n % 0x8000_0000)
    else if h.kind == 2 && |payload| == 5 then
      var n := FromBigEndian(payload[..4]);
      PriorityFrame(h.flags, reserved, Priority(h.streamId, n >= 0x8000_0000, n % 0x8000_0000, payload[4]))
    else OtherFrame(h.kind, h.flags, reserved, h.streamId, payload)
  }

  lemma PayloadIsControl(head: seq<Byte>, payload: seq<Byte>, info: Info)
    requires |head| == 9 && ReadsOn(head) && |payload| == Length(head)
    requires Absorb(ParseHeader(head), payload, info).1.None?
    ensures var c := ControlOf(head, payload);
            && WellFormed(c) && PayloadOf(c) == payload && HeaderOf(c) == ParseHeader(head)
            && c.reserved == (FromBigEndian(head[5..]) >= 0x8000_0000)
  {
    hide BigEndian, FromBigEndian, Pairs, SettingBytes, Length, ParseHeader;
    HeaderFields(head);
    match head[3]
    case 4 =>
      PairsAreTheBytes(payload, {});
      PairsAreSound(payload, {});
      var pairs := Pairs(payload, {}).0;
      assert forall i | 0 <= i < |pairs| :: pairs[i] in pairs;
      assert |SettingBytes(pairs)| == 6 * |pairs|;
    case 8 => FieldSplits(payload);
    case 2 =>
      FieldSplits(payload[..4]);
      assert payload == payload[..4] + [payload[4]];
    case _ =>
  }

  /** Whatever is read without error is a well-formed frame, and what it adds is that
      frame's projection. */
  lemma EveryFrameIsWellFormed(head: seq<Byte>, payload: seq<Byte>, info: Info)
    requires |head| == 9 && ReadsOn(head) && |payload| == Length(head)
    requires Absorb(ParseHeader(head), payload, info).1.None?
    ensures exists c :: WellFormed(c) && Serialize(c) == head + payload
                     && Absorb(ParseHeader(head), payload, info).0 == Project(c, info)
  {
    hide BigEndian, FromBigEndian, Absorb, Project, Length, WellFormed, PayloadOf, HeaderOf, ControlOf, ReadsOn;
    var c := ControlOf(head, payload);
    PayloadIsControl(head, payload, info);
    AbsorbProjects(c, info);
    HeadIsField(head);
    assert Serialize(c) == head + payload;
  }

  lemma HeadIsField(head: seq<Byte>)
    requires |head| == 9
    ensures head == HeaderBytes(ParseHeader(head), FromBigEndian(head[5..]) >= 0x8000_0000)
  {
    hide BigEndian, FromBigEndian;
    FieldSplits(head[5..]);
    FromBigEndianRoundTrip(head[..3]);
    assert head == head[..3] + [head[3], head[4]] + head[5..];
  }
}
