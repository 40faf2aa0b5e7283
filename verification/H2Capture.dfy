/**
 The echo service's capture of an HTTP/2 client's first control frames: the connection
 preface, then at most 32 frames, up to a SETTINGS acknowledgement or the first
 request-bearing frame. Layouts as in sections 3.4, 4.1, 6.3, 6.5 and 6.9 of RFC 9113.
 */
module H2Capture {
  import opened Wrappers
  import opened Bytes

  const MAX_FRAME_BYTES: nat := 16384
  const MAX_FRAMES: nat := 32
  const HALF: nat := 0x8000_0000

  const DATA: nat := 0
  const HEADERS: nat := 1
  const PRIORITY: nat := 2
  const SETTINGS: nat := 4
  const WINDOW_UPDATE: nat := 8
  const CONTINUATION: nat := 9

  datatype Setting = Setting(id: nat, value: nat)
  datatype Priority = Priority(streamId: nat, exclusive: bool, dependency: nat, weight: nat)

  datatype Info = Info(prefaceSeen: bool, settings: seq<Setting>, windowUpdates: seq<nat>, priorities: seq<Priority>)

  datatype CaptureError =
    | PrefaceCutShort | InvalidPreface | PayloadCutShort
    | FrameTooLong(length: nat) | AckNotEmpty(length: nat)
    | SettingsOnStream(streamId: nat) | PriorityOnConnection
    | SettingsLength(length: nat) | DuplicateSetting(id: nat)
    | WindowUpdateLength(length: nat) | ZeroIncrement
    | PriorityLength(length: nat) | DependsOnItself(streamId: nat)

  /** Why reading ended: the frame budget, the end of the stream between frames, a frame
      that ends the exchange, or an error. */
  datatype End = BudgetSpent | StreamEnded | Stopped | Failed(error: CaptureError)

  const NOTHING := Info(false, [], [], [])

  /** The ASCII bytes of "PRI * HTTP/2.0\r\n\r\nSM\r\n\r\n". */
  function PrefaceBytes(): (bytes: seq<Byte>)
    ensures |bytes| == 24
  {
    [0x50, 0x52, 0x49, 0x20, 0x2a, 0x20, 0x48, 0x54, 0x54, 0x50, 0x2f, 0x32,
     0x2e, 0x30, 0x0d, 0x0a, 0x0d, 0x0a, 0x53, 0x4d, 0x0d, 0x0a, 0x0d, 0x0a]
  }

  // ------------------------------------------------------------------ one frame

  datatype Header = Header(length: nat, kind: nat, flags: nat, streamId: nat)

  function ParseHeader(b: seq<Byte>): Header
    requires |b| == 9
  {
    Header(FromBigEndian(b[..3]), b[3], b[4], FromBigEndian(b[5..]) % HALF)
  }

  datatype Verdict = Read | Stop | Reject(error: CaptureError)

  function Judge(h: Header): Verdict {
    if h.length > MAX_FRAME_BYTES then Reject(FrameTooLong(h.length))
    else if h.kind == SETTINGS && h.flags % 2 == 1 then
      if h.length != 0 then Reject(AckNotEmpty(h.length)) else Stop
    else if h.kind == SETTINGS && h.streamId != 0 then Reject(SettingsOnStream(h.streamId))
    else if h.kind == PRIORITY && h.streamId == 0 then Reject(PriorityOnConnection)
    else if h.kind == DATA || h.kind == HEADERS || h.kind == CONTINUATION then Stop
    else Read
  }

  function SettingAt(payload: seq<Byte>): Setting
    requires |payload| >= 6
  {
    Setting(FromBigEndian(payload[..2]), FromBigEndian(payload[2..6]))
  }

  /** The pairs up to the first repeated id, and that id if there is one. */
  function Pairs(payload: seq<Byte>, seen: set<nat>): (seq<Setting>, Option<nat>)
    requires |payload| % 6 == 0
    decreases |payload|
  {
    if payload == [] then ([], None) else
    var s := SettingAt(payload);
    if s.id in seen then ([], Some(s.id)) else
    var (rest, duplicate) := Pairs(payload[6..], seen + {s.id});
    ([s] + rest, duplicate)
  }

  /** Settings before a repeated one are already kept when the frame is refused. */
  function AbsorbSettings(payload: seq<Byte>, info: Info): (Info, Option<CaptureError>) {
    if |payload| % 6 != 0 then (info, Some(SettingsLength(|payload|))) else
    var (pairs, duplicate) := Pairs(payload, {});
    (info.(settings := info.settings + pairs), if duplicate.Some? then Some(DuplicateSetting(duplicate.value))
      else None)
  }

  function AbsorbWindowUpdate(payload: seq<Byte>, info: Info): (Info, Option<CaptureError>) {
    if |payload| != 4 then (info, Some(WindowUpdateLength(|payload|))) else
    var increment := FromBigEndian(payload) % HALF;
    if increment == 0 then (info, Some(ZeroIncrement))
    else (info.(windowUpdates := info.windowUpdates + [increment]), None)
  }

  function AbsorbPriority(streamId: nat, payload: seq<Byte>, info: Info): (Info, Option<CaptureError>) {
    if |payload| != 5 then (info, Some(PriorityLength(|payload|))) else
    var field := FromBigEndian(payload[..4]);
    if field % HALF == streamId then (info, Some(DependsOnItself(streamId)))
    else (info.(priorities := info.priorities + [Priority(streamId, field >= HALF, field % HALF, payload[4])]), None)
  }

  /** What reading the frame's payload adds to the capture, and the error if it is refused. */
  function Absorb(h: Header, payload: seq<Byte>, info: Info): (Info, Option<CaptureError>) {
    if h.kind == SETTINGS then AbsorbSettings(payload, info)
    else if h.kind == WINDOW_UPDATE then AbsorbWindowUpdate(payload, info)
    else if h.kind == PRIORITY then AbsorbPriority(h.streamId, payload, info)
    else (info, None)
  }

  // ------------------------------------------------------------------ the capture

  /** The capture, why it ended, and the bytes left unread. */
  datatype Outcome = Outcome(info: Info, end: End, rest: seq<Byte>)

  function Frames(s: seq<Byte>, budget: nat, info: Info): Outcome
    decreases budget
  {
    if budget == 0 then Outcome(info, BudgetSpent, s) else
    match Split(s, 9)
    case None => Outcome(info, StreamEnded, [])
    case Some((head, body)) =>
      var h := ParseHeader(head);
      match Judge(h)
      case Reject(e) => Outcome(info, Failed(e), body)
      case Stop => Outcome(info, Stopped, body)
      case Read =>
        match Split(body, h.length)
        case None => Outcome(info, Failed(PayloadCutShort), [])
        case Some((payload, rest)) =>
          var (more, error) := Absorb(h, payload, info);
          if error.Some? then Outcome(more, Failed(error.value), rest) else Frames(rest, budget - 1, more)
  }

  function CaptureInto(s: seq<Byte>, info: Info): Outcome {
    match Split(s, 24)
    case None => Outcome(info, Failed(PrefaceCutShort), [])
    case Some((preface, rest)) =>
      if preface != PrefaceBytes() then Outcome(info, Failed(InvalidPreface), rest)
      else Frames(rest, MAX_FRAMES, info.(prefaceSeen := true))
  }

  function Capture(s: seq<Byte>): Outcome {
    CaptureInto(s, NOTHING)
  }

  // ------------------------------------------------------------------ the capture in place

  /** One turn of the settings loop. */
  lemma PairsStep(payload: seq<Byte>, i: nat, seen: set<nat>, kept: seq<Setting>)
    requires |payload| % 6 == 0 && i % 6 == 0 && i < |payload|
    ensures |payload| - i >= 6
    ensures var s := SettingAt(payload[i..]);
            var (pairs, duplicate) := Pairs(payload[i..], seen);
            if s.id in seen then kept + pairs == kept && duplicate == Some(s.id) else
            && kept + pairs == (kept + [s]) + Pairs(payload[i + 6..], seen + {s.id}).0
            && duplicate == Pairs(payload[i + 6..], seen + {s.id}).1
  {
    hide SettingAt;
    assert payload[i..][6..] == payload[i + 6..];
  }

  lemma PairsEnd(payload: seq<Byte>)
    ensures payload[0..] == payload
    ensures payload[|payload|..] == [] && forall seen :: Pairs([], seen) == ([], None)
  {
  }

  class ConnectionInfo {
    var prefaceSeen: bool
    var settings: seq<Setting>
    var windowUpdates: seq<nat>
    var priorities: seq<Priority>

    ghost function View(): Info
      reads this
    {
      Info(prefaceSeen, settings, windowUpdates, priorities)
    }

    constructor ()
      ensures View() == NOTHING
    {
      prefaceSeen, settings, windowUpdates, priorities := false, [], [], [];
    }

    method ParseSettings(payload: seq<Byte>) returns (error: Option<CaptureError>)
      modifies `settings
      ensures (View(), error) == AbsorbSettings(payload, old(View()))
    {
      hide Pairs, SettingAt;
      PairsEnd(payload);
      if |payload| % 6 != 0 {
        return Some(SettingsLength(|payload|));
      }
      var i, seen: set<nat> := 0, {};
      while i < |payload|
        invariant 0 <= i <= |payload| && i % 6 == 0
        invariant settings + Pairs(payload[i..], seen).0 == old(settings) + Pairs(payload, {}).0
        invariant Pairs(payload[i..], seen).1 == Pairs(payload, {}).1
      {
        PairsStep(payload, i, seen, settings);
        var setting := SettingAt(payload[i..]);
        if setting.id in seen {
          return Some(DuplicateSetting(setting.id));
        }
        seen := seen + {setting.id};
        settings := settings + [setting];
        i := i + 6;
      }
      assert Pairs(payload[i..], seen) == ([], None) && settings + [] == settings;
      return None;
    }

    method ParseWindowUpdate(payload: seq<Byte>) returns (error: Option<CaptureError>)
      modifies `windowUpdates
      ensures (View(), error) == AbsorbWindowUpdate(payload, old(View()))
    {
      if |payload| != 4 {
        return Some(WindowUpdateLength(|payload|));
      }
      var increment := FromBigEndian(payload) % HALF;
      if increment == 0 {
        return Some(ZeroIncrement);
      }
      windowUpdates := windowUpdates + [increment];
      return None;
    }

    method ParsePriority(streamId: nat, payload: seq<Byte>) returns (error: Option<CaptureError>)
      modifies `priorities
      ensures (View(), error) == AbsorbPriority(streamId, payload, old(View()))
    {
      if |payload| != 5 {
        return Some(PriorityLength(|payload|));
      }
      var field := FromBigEndian(payload[..4]);
      var exclusive, dependency := field >= HALF, field % HALF;
      if dependency == streamId {
        return Some(DependsOnItself(streamId));
      }
      priorities := priorities + [Priority(streamId, exclusive, dependency, payload[4])];
      return None;
    }

    /** Reads one payload and parses it by the kind of its frame. */
    method ParsePayload(h: Header, stream: Stream) returns (error: Option<CaptureError>)
      modifies this, stream
      ensures match Split(old(stream.bytes), h.length)
              case None => View() == old(View()) && error == Some(PayloadCutShort) && stream.bytes == []
              case Some((payload, rest)) =>
                (View(), error) == Absorb(h, payload, old(View())) && stream.bytes == rest
    {
      hide AbsorbSettings, AbsorbWindowUpdate, AbsorbPriority;
      var payload: seq<Byte> := [];
      SplitNothing(stream.bytes);
      if h.length > 0 {
        var body := stream.ReadExact(h.length);
        if body.None? {
          return Some(PayloadCutShort);
        }
        payload := body.value;
      }
      if h.kind == SETTINGS {
        error := ParseSettings(payload);
      } else if h.kind == WINDOW_UPDATE {
        error := ParseWindowUpdate(payload);
      } else if h.kind == PRIORITY {
        error := ParsePriority(h.streamId, payload);
      } else {
        error := None;
      }
    }

    method ReadPrefaceAndFrames(stream: Stream) returns (end: End)
      modifies this, stream
      ensures Outcome(View(), end, stream.bytes) == CaptureInto(old(stream.bytes), old(View()))
    {
      hide ParseHeader, Absorb, PrefaceBytes;
      var preface := stream.ReadExact(24);
      if preface.None? {
        return Failed(PrefaceCutShort);
      }
      if preface.value != PrefaceBytes() {
        return Failed(InvalidPreface);
      }
      prefaceSeen := true;
      ghost var whole := Frames(stream.bytes, MAX_FRAMES, View());
      for i := 0 to MAX_FRAMES
        invariant Frames(stream.bytes, MAX_FRAMES - i, View()) == whole
      {
        var head := stream.ReadExact(9);
        if head.None? {
          return StreamEnded;
        }
        var h := ParseHeader(head.value);
        if h.length > MAX_FRAME_BYTES {
          return Failed(FrameTooLong(h.length));
        }
        if h.kind == SETTINGS && h.flags % 2 == 1 {
          if h.length != 0 {
            return Failed(AckNotEmpty(h.length));
          }
          return Stopped;
        }
        if h.kind == SETTINGS && h.streamId != 0 {
          return Failed(SettingsOnStream(h.streamId));
        }
        if h.kind == PRIORITY && h.streamId == 0 {
          return Failed(PriorityOnConnection);
        }
        if h.kind == DATA || h.kind == HEADERS || h.kind == CONTINUATION {
          return Stopped;
        }
        var error := ParsePayload(h, stream);
        if error.Some? {
          return Failed(error.value);
        }
      }
      return BudgetSpent;
    }
  }

  // ------------------------------------------------------------------ frames on the wire

  /** A well-formed frame of the opening exchange. Reserved bits are free. */
  datatype Control =
    | SettingsFrame(flags: nat, reserved: bool, pairs: seq<Setting>)
    | WindowUpdateFrame(flags: nat, reserved: bool, streamId: nat, reservedBit: bool, increment: nat)
    | PriorityFrame(flags: nat, reserved: bool, priority: Priority)
    | OtherFrame(kind: nat, flags: nat, reserved: bool, streamId: nat, payload: seq<Byte>)

  predicate InRange(s: Setting) {
    s.id < 0x1_0000 && s.value < 0x1_0000_0000
  }

  predicate DistinctIds(pairs: seq<Setting>) {
    forall i, j | 0 <= i < j < |pairs| :: pairs[i].id != pairs[j].id
  }

  predicate WellFormed(c: Control) {
    && c.flags < 256
    && match c
       case SettingsFrame(flags, _, pairs) =>
         && flags % 2 == 0 && DistinctIds(pairs) && 6 * |pairs| <= MAX_FRAME_BYTES
         && forall i | 0 <= i < |pairs| :: InRange(pairs[i])
       case WindowUpdateFrame(_, _, streamId, _, increment) => streamId < HALF && 0 < increment < HALF
       case PriorityFrame(_, _, p) =>
         0 < p.streamId < HALF && p.dependency < HALF && p.dependency != p.streamId && p.weight < 256
       case OtherFrame(kind, _, _, streamId, payload) =>
         && kind < 256 && streamId < HALF && |payload| <= MAX_FRAME_BYTES
         && kind !in {DATA, HEADERS, PRIORITY, SETTINGS, WINDOW_UPDATE, CONTINUATION}
  }

  function SettingBytes(pairs: seq<Setting>): (bytes: seq<Byte>)
    ensures |bytes| == 6 * |pairs|
  {
    if pairs == [] then [] else BigEndian(pairs[0].id, 2) + BigEndian(pairs[0].value, 4) + SettingBytes(pairs[1..])
  }

  function WithBit(bit: bool, n: nat): nat {
    (if bit then HALF else 0) + n
  }

  function PayloadOf(c: Control): seq<Byte>
    requires WellFormed(c)
  {
    match c
    case SettingsFrame(_, _, pairs) => SettingBytes(pairs)
    case WindowUpdateFrame(_, _, _, bit, increment) => BigEndian(WithBit(bit, increment), 4)
    case PriorityFrame(_, _, p) => BigEndian(WithBit(p.exclusive, p.dependency), 4) + [p.weight]
    case OtherFrame(_, _, _, _, payload) => payload
  }

  function HeaderOf(c: Control): Header
    requires WellFormed(c)
  {
    var length := |PayloadOf(c)|;
    match c
    case SettingsFrame(flags, _, _) => Header(length, SETTINGS, flags, 0)
    case WindowUpdateFrame(flags, _, streamId, _, _) => Header(length, WINDOW_UPDATE, flags, streamId)
    case PriorityFrame(flags, _, p) => Header(length, PRIORITY, flags, p.streamId)
    case OtherFrame(kind, flags, _, streamId, _) => Header(length, kind, flags, streamId)
  }

  function HeaderBytes(h: Header, reserved: bool): (bytes: seq<Byte>)
    requires h.kind < 256 && h.flags < 256
    ensures |bytes| == 9
  {
    BigEndian(h.length, 3) + [h.kind, h.flags] + BigEndian(WithBit(reserved, h.streamId), 4)
  }

  function Serialize(c: Control): seq<Byte>
    requires WellFormed(c)
  {
    HeaderBytes(HeaderOf(c), c.reserved) + PayloadOf(c)
  }

  function SerializeAll(cs: seq<Control>): seq<Byte>
    requires forall c | c in cs :: WellFormed(c)
  {
    if cs == [] then [] else Serialize(cs[0]) + SerializeAll(cs[1..])
  }

  /** What a frame contributes to the capture. */
  function Project(c: Control, info: Info): Info {
    match c
    case SettingsFrame(_, _, pairs) => info.(settings := info.settings + pairs)
    case WindowUpdateFrame(_, _, _, _, increment) => info.(windowUpdates := info.windowUpdates + [increment])
    case PriorityFrame(_, _, p) => info.(priorities := info.priorities + [p])
    case OtherFrame(_, _, _, _, _) => info
  }

  function ProjectAll(cs: seq<Control>, info: Info): Info
    decreases |cs|
  {
    if cs == [] then info else ProjectAll(cs[1..], Project(cs[0], info))
  }

  // ------------------------------------------------------------------ round trip

  lemma Powers()
    ensures Pow256(2) == 0x1_0000 && Pow256(3) == 0x100_0000 && Pow256(4) == 0x1_0000_0000
  {
  }

  lemma HeaderRoundTrip(h: Header, reserved: bool)
    requires h.kind < 256 && h.flags < 256 && h.length < 0x100_0000 && h.streamId < HALF
    ensures ParseHeader(HeaderBytes(h, reserved)) == h
  {
    hide BigEndian, FromBigEndian;
    Powers();
    BigEndianRoundTrip(h.length, 3);
    BigEndianRoundTrip(WithBit(reserved, h.streamId), 4);
    var b := HeaderBytes(h, reserved);
    assert b[..3] == BigEndian(h.length, 3) && b[5..] == BigEndian(WithBit(reserved, h.streamId), 4);
  }

  lemma SettingRoundTrip(pairs: seq<Setting>)
    requires pairs != [] && InRange(pairs[0])
    ensures SettingAt(SettingBytes(pairs)) == pairs[0]
    ensures SettingBytes(pairs)[6..] == SettingBytes(pairs[1..])
  {
    hide BigEndian, FromBigEndian;
    Powers();
    BigEndianRoundTrip(pairs[0].id, 2);
    BigEndianRoundTrip(pairs[0].value, 4);
    var bytes := SettingBytes(pairs);
    assert bytes[..2] == BigEndian(pairs[0].id, 2) && bytes[2..6] == BigEndian(pairs[0].value, 4);
  }

  lemma {:induction false} PairsRoundTrip(pairs: seq<Setting>, seen: set<nat>)
    requires DistinctIds(pairs) && forall i | 0 <= i < |pairs| :: pairs[i].id !in seen && InRange(pairs[i])
    ensures Pairs(SettingBytes(pairs), seen) == (pairs, None)
    decreases |pairs|
  {
    hide SettingAt, SettingBytes;
    NoSettings(seen);
    if pairs == [] {
    } else {
      SettingRoundTrip(pairs);
      PairsRoundTrip(pairs[1..], seen + {pairs[0].id});
      assert [pairs[0]] + pairs[1..] == pairs;
    }
  }

  lemma NoSettings(seen: set<nat>)
    ensures SettingBytes([]) == [] && Pairs([], seen) == ([], None)
  {
  }

  lemma AbsorbProjects(c: Control, info: Info)
    requires WellFormed(c)
    ensures Absorb(HeaderOf(c), PayloadOf(c), info) == (Project(c, info), None)
  {
    hide BigEndian, FromBigEndian, Pairs;
    Powers();
    match c
    case SettingsFrame(_, _, pairs) => PairsRoundTrip(pairs, {});
    case WindowUpdateFrame(_, _, _, bit, increment) => BigEndianRoundTrip(WithBit(bit, increment), 4);
    case PriorityFrame(_, _, p) =>
      BigEndianRoundTrip(WithBit(p.exclusive, p.dependency), 4);
      assert PayloadOf(c)[..4] == BigEndian(WithBit(p.exclusive, p.dependency), 4);
    case OtherFrame(_, _, _, _, _) =>
  }

  /** One well-formed frame is read, projected, and costs one of the budget. */
  lemma FrameProjects(c: Control, tail: seq<Byte>, budget: nat, info: Info)
    requires WellFormed(c) && budget > 0
    ensures Frames(Serialize(c) + tail, budget, info) == Frames(tail, budget - 1, Project(c, info))
  {
    hide ParseHeader, HeaderBytes, Absorb, Project, Split;
    var h := HeaderOf(c);
    assert Serialize(c) + tail == HeaderBytes(h, c.reserved) + (PayloadOf(c) + tail);
    SplitConcat(HeaderBytes(h, c.reserved), PayloadOf(c) + tail);
    SplitConcat(PayloadOf(c), tail);
    HeaderRoundTrip(h, c.reserved);
    AbsorbProjects(c, info);
    assert Judge(h) == Read;
  }

  // ------------------------------------------------------------------ a header by its bytes

  function Three(a: nat, b: nat, c: nat): nat {
    0x1_0000 * a + 0x100 * b + c
  }

  function Four(a: nat, b: nat, c: nat, d: nat): nat {
    0x100_0000 * a + 0x1_0000 * b + 0x100 * c + d
  }

  function Length(head: seq<Byte>): nat
    requires |head| == 9
  {
    Three(head[0], head[1], head[2])
  }

  /** The stream, without its reserved bit. */
  function Stream31(head: seq<Byte>): nat
    requires |head| == 9
  {
    Four(head[5], head[6], head[7], head[8]) % 0x8000_0000
  }

  lemma FourBytes(b: seq<Byte>)
    requires |b| == 4
    ensures FromBigEndian(b) == Four(b[0], b[1], b[2], b[3])
  {
    ThreeBytes(b[..3]);
  }

  lemma ThreeBytes(b: seq<Byte>)
    requires |b| == 3
    ensures FromBigEndian(b) == Three(b[0], b[1], b[2])
  {
    assert b[..2][..1] == [b[0]] && [b[0]][..0] == [];
    assert FromBigEndian([b[0]]) == b[0];
    assert FromBigEndian(b[..2]) == 256 * FromBigEndian([b[0]]) + b[1];
  }

  lemma HeaderFields(head: seq<Byte>)
    requires |head| == 9
    ensures ParseHeader(head) == Header(Length(head), head[3], head[4], Stream31(head))
  {
    hide FromBigEndian;
    ThreeBytes(head[..3]);
    FourBytes(head[5..]);
  }

  /** DATA, HEADERS, CONTINUATION, or an empty SETTINGS acknowledgement, of any stream. */
  predicate EndsHere(head: seq<Byte>)
    requires |head| == 9
  {
    Length(head) <= 16384 && (head[3] in {0, 1, 9} || (head[3] == 4 && head[4] % 2 == 1 && Length(head) == 0))
  }

  /** The rest of the stream cannot extend the exchange: it is shorter than a header, or
      begins with one that stops it. */
  predicate EndsExchange(tail: seq<Byte>) {
    |tail| < 9 || EndsHere(tail[..9])
  }

  lemma ExchangeEnds(tail: seq<Byte>, budget: nat, info: Info)
    requires budget == 0 || EndsExchange(tail)
    ensures Frames(tail, budget, info).info == info && !Frames(tail, budget, info).end.Failed?
  {
    hide ParseHeader, Length, Stream31;
    if |tail| >= 9 {
      HeaderFields(tail[..9]);
    }
  }

  lemma SerializeCons(cs: seq<Control>, tail: seq<Byte>)
    requires cs != [] && forall c | c in cs :: WellFormed(c)
    ensures SerializeAll(cs) + tail == Serialize(cs[0]) + (SerializeAll(cs[1..]) + tail)
  {
    hide Serialize, WellFormed;
  }

  /** Well-formed frames are read, projected and paid for; then the rest is read. */
  lemma {:induction false} FramesProject(cs: seq<Control>, tail: seq<Byte>, budget: nat, info: Info)
    requires (forall c | c in cs :: WellFormed(c)) && |cs| <= budget
    ensures Frames(SerializeAll(cs) + tail, budget, info) == Frames(tail, budget - |cs|, ProjectAll(cs, info))
    decreases |cs|
  {
    hide Serialize, WellFormed, Frames, Project;
    if cs == [] {
      assert SerializeAll(cs) + tail == tail;
    } else {
      hide SerializeAll;
      SerializeCons(cs, tail);
      FrameProjects(cs[0], SerializeAll(cs[1..]) + tail, budget, info);
      FramesProject(cs[1..], tail, budget - 1, Project(cs[0], info));
    }
  }

  /** For at most 32 well-formed frames after the preface, followed by anything that
      cannot extend the exchange (or, after 32, by anything at all), the capture is the
      in-order projection of the frames, without error. */
  lemma CaptureProjects(cs: seq<Control>, tail: seq<Byte>)
    requires (forall c | c in cs :: WellFormed(c)) && |cs| <= MAX_FRAMES
    requires |cs| == MAX_FRAMES || EndsExchange(tail)
    ensures var r := Capture(PrefaceBytes() + SerializeAll(cs) + tail);
            r.info == ProjectAll(cs, Info(true, [], [], [])) && !r.end.Failed?
  {
    hide SerializeAll, Frames, PrefaceBytes;
    assert PrefaceBytes() + SerializeAll(cs) + tail == PrefaceBytes() + (SerializeAll(cs) + tail);
    SplitConcat(PrefaceBytes(), SerializeAll(cs) + tail);
    FramesProject(cs, tail, MAX_FRAMES, Info(true, [], [], []));
    ExchangeEnds(tail, MAX_FRAMES - |cs|, ProjectAll(cs, Info(true, [], [], [])));
  }

  // ------------------------------------------------------------------ later bytes never matter

  /** The capture ended for want of bytes. */
  predicate Starved(end: End) {
    end.StreamEnded? || end == Failed(PayloadCutShort) || end == Failed(PrefaceCutShort)
  }

  /** The step of Frames on a header and payload already cut off the stream. */
  lemma FramesStep(s: seq<Byte>, budget: nat, info: Info, head: seq<Byte>, payload: seq<Byte>, rest: seq<Byte>)
    requires budget > 0 && |head| == 9 && |payload| == ParseHeader(head).length && Judge(ParseHeader(head)) == Read
    requires s == head + (payload + rest)
    ensures var (more, error) := Absorb(ParseHeader(head), payload, info);
            Frames(s, budget, info)
            == if error.Some? then Outcome(more, Failed(error.value), rest) else Frames(rest, budget - 1, more)
  {
    hide ParseHeader, Judge, Absorb, Split;
    SplitConcat(head, payload + rest);
    SplitConcat(payload, rest);
  }

  lemma FramesHalt(s: seq<Byte>, budget: nat, info: Info, head: seq<Byte>, body: seq<Byte>)
    requires budget > 0 && |head| == 9 && Judge(ParseHeader(head)) != Read && s == head + body
    ensures Frames(s, budget, info)
            == Outcome(info, if Judge(ParseHeader(head)).Stop? then Stopped
              else Failed(Judge(ParseHeader(head)).error), body)
  {
    hide ParseHeader, Judge, Absorb, Split;
    SplitConcat(head, body);
  }

  /** What was read: the stream without what is left of it. */
  function Consumed(s: seq<Byte>, rest: seq<Byte>): seq<Byte> {
    if |rest| <= |s| then s[..|s| - |rest|] else []
  }

  /** Replacing the unread bytes changes nothing but what is left unread. */
  lemma {:induction false} UnreadNeverMatters(s: seq<Byte>, budget: nat, info: Info, other: seq<Byte>)
    requires !Starved(Frames(s, budget, info).end)
    ensures var r := Frames(s, budget, info);
            && s == Consumed(s, r.rest) + r.rest
            && Frames(Consumed(s, r.rest) + other, budget, info) == r.(rest := other)
    decreases budget
  {
    hide ParseHeader, Judge, Absorb, Split;
    if budget == 0 {
      assert Consumed(s, s) == [];
    } else {
      SplitSuffix(s, 9);
      var (head, body) := Split(s, 9).value;
      var h := ParseHeader(head);
      if Judge(h) != Read {
        FramesHalt(s, budget, info, head, body);
        assert Consumed(s, body) == head;
        FramesHalt(head + other, budget, info, head, other);
      } else {
        SplitSuffix(body, h.length);
        var (payload, rest) := Split(body, h.length).value;
        UnreadAfterFrame(s, budget, info, other, head, payload, rest);
      }
    }
  }

  lemma {:induction false} UnreadAfterFrame(s: seq<Byte>, budget: nat, info: Info, other: seq<Byte>,
                                            head: seq<Byte>, payload: seq<Byte>, rest: seq<Byte>)
    requires budget > 0 && |head| == 9 && |payload| == ParseHeader(head).length && Judge(ParseHeader(head)) == Read
    requires s == head + (payload + rest) && !Starved(Frames(s, budget, info).end)
    ensures var r := Frames(s, budget, info);
            && s == Consumed(s, r.rest) + r.rest
            && Frames(Consumed(s, r.rest) + other, budget, info) == r.(rest := other)
    decreases budget, 0
  {
    hide ParseHeader, Judge, Absorb, Split, Frames;
    FramesStep(s, budget, info, head, payload, rest);
    var (more, error) := Absorb(ParseHeader(head), payload, info);
    var left := Frames(s, budget, info).rest;
    if error.Some? {
      assert Consumed(s, left) == head + payload;
      assert Consumed(s, left) + other == head + (payload + other);
      FramesStep(Consumed(s, left) + other, budget, info, head, payload, other);
    } else {
      UnreadNeverMatters(rest, budget - 1, more, other);
      var read := Consumed(rest, left);
      assert Consumed(s, left) == head + payload + read;
      assert Consumed(s, left) + other == head + (payload + (read + other));
      FramesStep(Consumed(s, left) + other, budget, info, head, payload, read + other);
    }
  }

  lemma SplitSuffix(s: seq<Byte>, n: nat)
    ensures Split(s, n).Some? <==> n <= |s|
    ensures Split(s, n).Some? ==> |Split(s, n).value.0| == n && s == Split(s, n).value.0 + Split(s, n).value.1
  {
  }

  /** Unless the capture ended for want of bytes, what was read decides it: any other
      bytes may follow. In particular nothing after the first SETTINGS acknowledgement or
      request-bearing frame affects it. */
  lemma CaptureIgnoresUnread(s: seq<Byte>, other: seq<Byte>)
    requires !Starved(Capture(s).end)
    ensures var r := Capture(s);
            && s == Consumed(s, r.rest) + r.rest
            && Capture(Consumed(s, r.rest) + other) == r.(rest := other)
  {
    hide Frames, PrefaceBytes, Split;
    SplitSuffix(s, 24);
    var (preface, rest) := Split(s, 24).value;
    if preface == PrefaceBytes() {
      UnreadNeverMatters(rest, MAX_FRAMES, NOTHING.(prefaceSeen := true), other);
      var left := Capture(s).rest;
      assert Consumed(s, left) + other == preface + (Consumed(rest, left) + other);
      SplitConcat(preface, Consumed(rest, left) + other);
    } else {
      assert Consumed(s, rest) == preface;
      SplitConcat(preface, other);
    }
  }

  // ------------------------------------------------------------------ what is captured is sound

  predicate SoundPriority(p: Priority) {
    0 < p.streamId < HALF && p.dependency < HALF && p.dependency != p.streamId && p.weight < 256
  }

  predicate Sound(info: Info) {
    && (forall w | w in info.windowUpdates :: 0 < w < HALF)
    && (forall p | p in info.priorities :: SoundPriority(p))
    && (forall s | s in info.settings :: InRange(s))
  }

  lemma {:induction false} PairsAreSound(payload: seq<Byte>, seen: set<nat>)
    requires |payload| % 6 == 0
    ensures forall s | s in Pairs(payload, seen).0 :: InRange(s) && s.id !in seen
    ensures DistinctIds(Pairs(payload, seen).0)
    decreases |payload|
  {
    if payload != [] && SettingAt(payload).id !in seen {
      var s := SettingAt(payload);
      var rest := Pairs(payload[6..], seen + {s.id}).0;
      Powers();
      FromBigEndianBound(payload[..2]);
      FromBigEndianBound(payload[2..6]);
      PairsAreSound(payload[6..], seen + {s.id});
      assert forall i | 0 <= i < |rest| :: rest[i] in rest;
    }
  }

  lemma AbsorbIsSound(h: Header, payload: seq<Byte>, info: Info)
    requires Sound(info) && Judge(h) == Read && h.streamId < HALF
    ensures Sound(Absorb(h, payload, info).0)
  {
    hide Pairs, FromBigEndian;
    if h.kind == SETTINGS && |payload| % 6 == 0 {
      PairsAreSound(payload, {});
    }
  }

  lemma {:induction false} FramesAreSound(s: seq<Byte>, budget: nat, info: Info)
    requires Sound(info)
    ensures Sound(Frames(s, budget, info).info)
    ensures |Frames(s, budget, info).info.windowUpdates| + |Frames(s, budget, info).info.priorities|
            <= |info.windowUpdates| + |info.priorities| + budget
    decreases budget
  {
    hide Sound, Absorb, Split;
    if budget > 0 && Split(s, 9).Some? {
      SplitSuffix(s, 9);
      var (head, body) := Split(s, 9).value;
      var h := ParseHeader(head);
      if Judge(h) == Read && Split(body, h.length).Some? {
        var (payload, rest) := Split(body, h.length).value;
        AbsorbIsSound(h, payload, info);
        AbsorbAddsOne(h, payload, info);
        var (more, error) := Absorb(h, payload, info);
        if error.None? {
          FramesAreSound(rest, budget - 1, more);
        }
      }
    }
  }

  lemma AbsorbAddsOne(h: Header, payload: seq<Byte>, info: Info)
    ensures var more := Absorb(h, payload, info).0;
            |more.windowUpdates| + |more.priorities| <= |info.windowUpdates| + |info.priorities| + 1
  {
    hide Pairs, FromBigEndian;
  }

  /** On any input, even one refused half way, every captured increment is in
      1..2^31-1, and no captured priority is for stream 0 or depends on itself. */
  lemma CaptureIsSound(s: seq<Byte>)
    ensures Sound(Capture(s).info)
    ensures |Capture(s).info.windowUpdates| + |Capture(s).info.priorities| <= MAX_FRAMES
  {
    hide Frames, PrefaceBytes;
    if |s| >= 24 {
      FramesAreSound(s[24..], MAX_FRAMES, NOTHING.(prefaceSeen := true));
    }
  }
}
