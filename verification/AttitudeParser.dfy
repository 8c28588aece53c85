/** The parser for the MS601M attitude frames that arrive on a serial line. */
module AttitudeParser {
  import opened ByteLogic

  type Millis = t: int | 0 <= t < 0x1_0000_0000

  const HEAD: Byte := 0x55
  const ATTITUDE_ID: Byte := 1
  const FRAME_DATA_MAX := 28

  // ----- frames

  function Sum(bytes: seq<Byte>): int {
    if bytes == [] then 0 else Sum(bytes[..|bytes| - 1]) + bytes[|bytes| - 1]
  }

  function ChecksumOf(bytes: seq<Byte>): Byte {
    Sum(bytes) % 256
  }

  function Header(id: Byte, length: Byte): seq<Byte> {
    [HEAD, HEAD, id, length]
  }

  /** The data of an attitude frame: at least three angles, at most what the buffer holds. */
  predicate IsAttitudeData(data: seq<Byte>) {
    6 <= |data| <= FRAME_DATA_MAX
  }

  function Body(data: seq<Byte>): seq<Byte>
    requires IsAttitudeData(data)
  {
    Header(ATTITUDE_ID, |data|) + data
  }

  /** A complete attitude frame. */
  function Frame(data: seq<Byte>): seq<Byte>
    requires IsAttitudeData(data)
  {
    Body(data) + [ChecksumOf(Body(data))]
  }

  /** Byte by byte. */
  lemma FrameBytes(data: seq<Byte>)
    ensures IsAttitudeData(data) <==> 6 <= |data| <= 28
    ensures IsAttitudeData(data) ==>
              Frame(data) == [0x55, 0x55, 1, |data|] + data + [(0x55 + 0x55 + 1 + |data| + Sum(data)) % 256]
  {
    hide Sum;
    if IsAttitudeData(data) {
      SumConcat([0x55, 0x55, 1, |data|], data);
      SumOfHeader(|data|);
    }
  }

  lemma SumOfHeader(length: Byte)
    ensures Sum([0x55, 0x55, 1, length]) == 0x55 + 0x55 + 1 + length
  {
    hide Sum;
    SumConcat([0x55, 0x55], [1, length]);
    assert [0x55, 0x55, 1, length] == [0x55, 0x55] + [1, length];
    SumOfTwo(0x55, 0x55);
    SumOfTwo(1, length);
  }

  lemma SumOfTwo(a: Byte, b: Byte)
    ensures Sum([a, b]) == a + b
  {
    SumOfOne(a);
    assert [a, b][..1] == [a];
  }

  lemma SumOfOne(b: Byte)
    ensures Sum([b]) == b
  {
    assert [b][..0] == [];
  }

  lemma {:induction false} SumConcat(a: seq<Byte>, b: seq<Byte>)
    ensures Sum(a + b) == Sum(a) + Sum(b)
    decreases |b|
  {
    if b == [] {
      assert a + b == a;
    } else {
      assert (a + b)[..|a + b| - 1] == a + b[..|b| - 1];
      SumConcat(a, b[..|b| - 1]);
    }
  }

  predicate EndsWith(bytes: seq<Byte>, tail: seq<Byte>) {
    |tail| <= |bytes| && bytes[|bytes| - |tail|..] == tail
  }

  // ----- angles

  /** A little-endian two's complement 16-bit value. */
  function ReadLeI16(low: Byte, high: Byte): int {
    var word := 256 * high + low;
    if word >= 0x8000 then word - 0x1_0000 else word
  }

  /** Division as in C: toward zero. */
  function TruncDiv(a: int, d: nat): int
    requires d > 0
  {
    if a >= 0 then a / d else -(-a / d)
  }

  function TenthDegrees(raw: int): int {
    TruncDiv(raw * 1800, 32768)
  }

  /** The three angles a frame carries. */
  datatype Angles = Angles(roll: int, pitch: int, yaw: int)

  function Decode(data: seq<Byte>): Angles
    requires IsAttitudeData(data)
  {
    Angles(TenthDegrees(ReadLeI16(data[0], data[1])), TenthDegrees(ReadLeI16(data[2], data[3])),
           TenthDegrees(ReadLeI16(data[4], data[5])))
  }

  predicate InRange(a: Angles) {
    -1800 <= a.roll <= 1799 && -1800 <= a.pitch <= 1799 && -1800 <= a.yaw <= 1799
  }

  lemma DecodedInRange(data: seq<Byte>)
    requires IsAttitudeData(data)
    ensures InRange(Decode(data))
  {
    TenthDegreesBounds(ReadLeI16(data[0], data[1]));
    TenthDegreesBounds(ReadLeI16(data[2], data[3]));
    TenthDegreesBounds(ReadLeI16(data[4], data[5]));
  }

  /** The converted angle is within a tenth of a degree of the measured one, on the side of zero. */
  lemma TenthDegreesBounds(raw: int)
    requires -0x8000 <= raw < 0x8000
    ensures -1800 <= TenthDegrees(raw) <= 1799
    ensures raw >= 0 ==> 0 <= raw * 1800 - TenthDegrees(raw) * 32768 < 32768
    ensures raw <= 0 ==> 0 <= TenthDegrees(raw) * 32768 - raw * 1800 < 32768
  {
  }

  function LeI16(raw: int): seq<Byte>
    requires -0x8000 <= raw < 0x8000
  {
    [raw % 256, raw / 256 % 256]
  }

  lemma LeI16RoundTrip(raw: int)
    requires -0x8000 <= raw < 0x8000
    ensures ReadLeI16(LeI16(raw)[0], LeI16(raw)[1]) == raw
  {
  }

  lemma ReadBack(low: Byte, high: Byte)
    ensures var raw := ReadLeI16(low, high); -0x8000 <= raw < 0x8000 && LeI16(raw) == [low, high]
  {
  }

  /** In tenths of a degree, cut off toward zero, where a full turn is 65536. */
  predicate IsCutOff(raw: int, tenths: int) {
    if raw >= 0 then 0 <= raw * 1800 - tenths * 32768 < 32768 else 0 <= tenths * 32768 - raw * 1800 < 32768
  }

  /** Two bytes, low byte first, carry the angle. */
  ghost predicate Carry(low: Byte, high: Byte, tenths: int) {
    exists raw :: -0x8000 <= raw < 0x8000 && LeI16(raw) == [low, high] && IsCutOff(raw, tenths)
  }

  /** The data begin with roll, pitch and yaw. */
  ghost predicate CarryAngles(data: seq<Byte>, angles: Angles)
    requires IsAttitudeData(data)
  {
    Carry(data[0], data[1], angles.roll) && Carry(data[2], data[3], angles.pitch) && Carry(data[4], data[5], angles.yaw)
  }

  lemma DecodedIsCarried(data: seq<Byte>)
    requires IsAttitudeData(data)
    ensures CarryAngles(data, Decode(data))
  {
    PairIsCarried(data[0], data[1]);
    PairIsCarried(data[2], data[3]);
    PairIsCarried(data[4], data[5]);
  }

  lemma PairIsCarried(low: Byte, high: Byte)
    ensures Carry(low, high, TenthDegrees(ReadLeI16(low, high)))
  {
    var raw := ReadLeI16(low, high);
    ReadBack(low, high);
    TenthDegreesBounds(raw);
    assert LeI16(raw) == [low, high] && IsCutOff(raw, TenthDegrees(raw));
  }

  // ----- the parser

  datatype State = HeadLow | HeadHigh | Id | Length | Data | Checksum

  /** `data` is the filled part of the frame buffer. */
  datatype Parser = Parser(state: State, frameId: Byte, frameLength: Byte, data: seq<Byte>, checksum: Byte)

  const RESET := Parser(HeadLow, 0, 0, [], 0)

  function Restart(p: Parser, b: Byte): Parser {
    if b == HEAD then p.(state := HeadHigh, checksum := b) else p.(state := HeadLow)
  }

  function Add(checksum: Byte, b: Byte): Byte {
    (checksum + b) % 256
  }

  predicate Accepts(p: Parser, b: Byte) {
    p.state == Checksum && b == p.checksum && p.frameId == ATTITUDE_ID && p.frameLength >= 6
  }

  /** The parser after a byte it does not accept a frame on. */
  function Next(p: Parser, b: Byte): Parser {
    match p.state
    case HeadLow => if b == HEAD then p.(state := HeadHigh, checksum := b) else p
    case HeadHigh => if b == HEAD then p.(state := Id, checksum := Add(p.checksum, b)) else Restart(p, b)
    case Id => p.(state := Length, frameId := b, checksum := Add(p.checksum, b))
    case Length =>
      if b > FRAME_DATA_MAX then Restart(p, b)
      else p.(state := if b == 0 then Checksum else Data, frameLength := b, data := [], checksum := Add(p.checksum, b))
    case Data =>
      p.(state := if |p.data| + 1 == p.frameLength then Checksum else Data, data := p.data + [b],
         checksum := Add(p.checksum, b))
    case Checksum => Restart(p, b)
  }

  function RunFrom(p: Parser, bytes: seq<Byte>): Parser {
    if bytes == [] then p else Next(RunFrom(p, bytes[..|bytes| - 1]), bytes[|bytes| - 1])
  }

  /** The stream is accepted with its last byte. */
  predicate AcceptsAt(bytes: seq<Byte>) {
    bytes != [] && Accepts(RunFrom(RESET, bytes[..|bytes| - 1]), bytes[|bytes| - 1])
  }

  // ----- soundness

  /** The unfinished frame the parser has in hand. */
  function Held(p: Parser): seq<Byte> {
    match p.state
    case HeadLow => []
    case HeadHigh => [HEAD]
    case Id => [HEAD, HEAD]
    case Length => [HEAD, HEAD, p.frameId]
    case Data => Header(p.frameId, p.frameLength) + p.data
    case Checksum => Header(p.frameId, p.frameLength) + p.data
  }

  /** Buffer bounds, and a checksum that belongs to the frame in hand. */
  predicate IsConsistent(p: Parser) {
    && (p.state == Data ==> |p.data| < p.frameLength <= FRAME_DATA_MAX)
    && (p.state == Checksum ==> |p.data| == p.frameLength <= FRAME_DATA_MAX)
    && (p.state != HeadLow ==> p.checksum == ChecksumOf(Held(p)))
  }

  lemma SumSnoc(bytes: seq<Byte>, b: Byte)
    ensures Sum(bytes + [b]) == Sum(bytes) + b
    ensures Add(ChecksumOf(bytes), b) == ChecksumOf(bytes + [b])
  {
    assert (bytes + [b])[..|bytes|] == bytes;
  }

  lemma SumOfHead()
    ensures ChecksumOf([HEAD]) == HEAD
  {
    assert Sum([HEAD]) == Sum([HEAD][..0]) + HEAD;
  }

  /** Each byte extends the frame in hand, or starts a new one, or leaves nothing. */
  lemma HeldStep(p: Parser, b: Byte)
    requires IsConsistent(p)
    ensures IsConsistent(Next(p, b))
    ensures Held(Next(p, b)) in {Held(p) + [b], [b], []}
  {
    SumSnoc(Held(p), b);
    SumOfHead();
    hide Sum, ChecksumOf, Add;
    var grows := p.state in {Id, Data} || (p.state == Length && b <= FRAME_DATA_MAX) ||
                 (p.state == HeadHigh && b == HEAD);
    assert grows ==> Held(Next(p, b)) == Held(p) + [b];
  }

  lemma {:induction false} RunIsConsistent(bytes: seq<Byte>)
    ensures IsConsistent(RunFrom(RESET, bytes)) && EndsWith(bytes, Held(RunFrom(RESET, bytes)))
  {
    if bytes != [] {
      var front, b := bytes[..|bytes| - 1], bytes[|bytes| - 1];
      RunIsConsistent(front);
      HeldStep(RunFrom(RESET, front), b);
      assert bytes == front + [b];
    }
  }

  /** An accepted stream ends in a complete attitude frame. */
  lemma AcceptedEndsInFrame(bytes: seq<Byte>)
    requires AcceptsAt(bytes)
    ensures var data := RunFrom(RESET, bytes[..|bytes| - 1]).data;
            IsAttitudeData(data) && EndsWith(bytes, Frame(data))
  {
    hide *;
    AcceptsAtLast(bytes);
    var front, b := bytes[..|bytes| - 1], bytes[|bytes| - 1];
    var p := RunFrom(RESET, front);
    RunIsConsistent(front);
    HeldBody(p, b);
    EndsWithSnoc(front, Held(p), b);
    assert bytes == front + [b];
  }

  lemma AcceptsAtLast(bytes: seq<Byte>)
    requires AcceptsAt(bytes)
    ensures bytes != [] && Accepts(RunFrom(RESET, bytes[..|bytes| - 1]), bytes[|bytes| - 1])
  {
  }

  lemma HeldBody(p: Parser, b: Byte)
    requires IsConsistent(p) && Accepts(p, b)
    ensures IsAttitudeData(p.data) && Frame(p.data) == Held(p) + [b]
  {
    hide Sum, ChecksumOf;
  }

  lemma EndsWithSnoc(bytes: seq<Byte>, tail: seq<Byte>, b: Byte)
    requires EndsWith(bytes, tail)
    ensures EndsWith(bytes + [b], tail + [b])
  {
  }

  // ----- completeness

  lemma RunSnoc(p: Parser, bytes: seq<Byte>, b: Byte)
    ensures RunFrom(p, bytes + [b]) == Next(RunFrom(p, bytes), b)
  {
    assert (bytes + [b])[..|bytes|] == bytes;
  }

  lemma AcceptsNow(seen: seq<Byte>, b: Byte)
    ensures AcceptsAt(seen + [b]) <==> Accepts(RunFrom(RESET, seen), b)
    ensures (seen + [b])[..|seen + [b]| - 1] == seen
  {
  }

  lemma {:induction false} RunConcat(p: Parser, first: seq<Byte>, second: seq<Byte>)
    ensures RunFrom(p, first + second) == RunFrom(RunFrom(p, first), second)
  {
    if second == [] {
      assert first + second == first;
    } else {
      var front, b := second[..|second| - 1], second[|second| - 1];
      RunConcat(p, first, front);
      assert first + second == first + front + [b];
      RunSnoc(p, first + front, b);
    }
  }

  /** The states in which the parser takes the next head byte for the start of a frame. */
  predicate IsOpen(state: State) {
    state == HeadLow || state == Length || state == Checksum
  }

  lemma RunOverHead(p: Parser)
    requires IsOpen(p.state)
    ensures var q := RunFrom(p, [HEAD, HEAD, ATTITUDE_ID]);
            q.state == Length && q.frameId == ATTITUDE_ID && q.checksum == ChecksumOf([HEAD, HEAD, ATTITUDE_ID])
  {
    RunSnoc(p, [], HEAD);
    RunSnoc(p, [HEAD], HEAD);
    RunSnoc(p, [HEAD, HEAD], ATTITUDE_ID);
    assert [] + [HEAD] == [HEAD] && [HEAD] + [HEAD] == [HEAD, HEAD];
    assert [HEAD, HEAD] + [ATTITUDE_ID] == [HEAD, HEAD, ATTITUDE_ID];
    SumOfHead();
    SumSnoc([HEAD], HEAD);
    SumSnoc([HEAD, HEAD], ATTITUDE_ID);
  }

  lemma RunOverHeader(p: Parser, length: Byte)
    requires IsOpen(p.state) && 6 <= length <= FRAME_DATA_MAX
    ensures var header := Header(ATTITUDE_ID, length);
            var q := RunFrom(p, header);
            q == Parser(Data, ATTITUDE_ID, length, [], ChecksumOf(header))
  {
    RunOverHead(p);
    var head := [HEAD, HEAD, ATTITUDE_ID];
    RunSnoc(p, head, length);
    SumSnoc(head, length);
    assert head + [length] == Header(ATTITUDE_ID, length);
  }

  lemma {:induction false} RunOverData(p: Parser, length: Byte, data: seq<Byte>)
    requires IsOpen(p.state) && 6 <= length <= FRAME_DATA_MAX && |data| <= length
    ensures var bytes := Header(ATTITUDE_ID, length) + data;
            RunFrom(p, bytes) == Parser(if |data| == length then Checksum else Data, ATTITUDE_ID, length, data,
                                        ChecksumOf(bytes))
  {
    var header := Header(ATTITUDE_ID, length);
    if data == [] {
      RunOverHeader(p, length);
      assert header + data == header;
    } else {
      hide RunFrom, Sum, ChecksumOf, Add;
      var front, b := data[..|data| - 1], data[|data| - 1];
      RunOverData(p, length, front);
      RunSnoc(p, header + front, b);
      SumSnoc(header + front, b);
      assert header + data == header + front + [b] && front + [b] == data;
    }
  }

  /** From an open state the parser takes in a complete attitude frame. */
  lemma FrameRuns(prefix: seq<Byte>, data: seq<Byte>)
    requires IsAttitudeData(data) && IsOpen(RunFrom(RESET, prefix).state)
    ensures AcceptsAt(prefix + Frame(data))
    ensures RunFrom(RESET, prefix + Body(data)).data == data
  {
    hide RunFrom, ChecksumOf, Sum;
    var p, bytes := RunFrom(RESET, prefix), prefix + Frame(data);
    RunConcat(RESET, prefix, Body(data));
    RunOverData(p, |data|, data);
    assert bytes[..|bytes| - 1] == prefix + Body(data);
  }

  /** No frame is accepted with any of the bytes. */
  ghost predicate NothingAccepted(bytes: seq<Byte>) {
    forall k :: 0 <= k <= |bytes| ==> !AcceptsAt(bytes[..k])
  }

  /** A call that receives these bytes returns with the last of them. */
  ghost predicate ReturnsAt(bytes: seq<Byte>) {
    AcceptsAt(bytes) && NothingAccepted(bytes[..|bytes| - 1])
  }

  /** The data a call returns that returns at the end of these bytes. */
  function ReturnedData(bytes: seq<Byte>): seq<Byte>
    requires bytes != []
  {
    RunFrom(RESET, bytes[..|bytes| - 1]).data
  }

  /** A frame sent after `prefix` is what the call returns. */
  ghost predicate IsRead(prefix: seq<Byte>, data: seq<Byte>)
    requires IsAttitudeData(data)
  {
    ReturnsAt(prefix + Frame(data)) && ReturnedData(prefix + Frame(data)) == data
  }

  lemma NothingAcceptedSnoc(bytes: seq<Byte>, b: Byte)
    ensures NothingAccepted(bytes + [b]) <==> NothingAccepted(bytes) && !AcceptsAt(bytes + [b])
  {
    hide AcceptsAt;
    var more := bytes + [b];
    assert more[..|more|] == more;
    if NothingAccepted(more) {
      forall k | 0 <= k <= |bytes|
        ensures !AcceptsAt(bytes[..k])
      {
        assert more[..k] == bytes[..k];
      }
    } else {
      var k :| 0 <= k <= |more| && AcceptsAt(more[..k]);
      assert k <= |bytes| ==> more[..k] == bytes[..k];
    }
  }

  lemma NothingAcceptedBefore(bytes: seq<Byte>, k: nat)
    requires NothingAccepted(bytes) && k <= |bytes|
    ensures NothingAccepted(bytes[..k])
  {
    hide AcceptsAt;
    forall j | 0 <= j <= k
      ensures !AcceptsAt(bytes[..k][..j])
    {
      assert bytes[..k][..j] == bytes[..j];
    }
  }

  /** In the middle of a frame that began in an open state the parser awaits no checksum. */
  lemma MidFrame(p: Parser, data: seq<Byte>, m: nat)
    requires IsOpen(p.state) && IsAttitudeData(data) && 0 < m < |Body(data)|
    ensures RunFrom(p, Body(data)[..m]).state != Checksum
  {
    hide ChecksumOf, Sum, Add;
    var body := Body(data);
    if m == 1 {
      assert body[..1] == [] + [HEAD];
      RunSnoc(p, [], HEAD);
    } else if m == 2 {
      assert body[..2] == [] + [HEAD] + [HEAD];
      RunSnoc(p, [], HEAD);
      RunSnoc(p, [] + [HEAD], HEAD);
    } else if m == 3 {
      assert body[..3] == [HEAD, HEAD, ATTITUDE_ID];
      RunOverHead(p);
    } else {
      assert body[..m] == Header(ATTITUDE_ID, |data|) + data[..m - 4];
      RunOverData(p, |data|, data[..m - 4]);
    }
  }

  lemma {:induction false} NothingAcceptedWithin(prefix: seq<Byte>, data: seq<Byte>, m: nat)
    requires IsAttitudeData(data) && IsOpen(RunFrom(RESET, prefix).state) && NothingAccepted(prefix + [HEAD])
    requires 0 < m <= |Body(data)|
    ensures NothingAccepted(prefix + Body(data)[..m])
  {
    hide RunFrom, ChecksumOf, Sum, NothingAccepted, AcceptsAt;
    var body := Body(data);
    if m == 1 {
      assert body[..1] == [HEAD];
    } else {
      NothingAcceptedWithin(prefix, data, m - 1);
      var seen, b := prefix + body[..m - 1], body[m - 1];
      assert seen + [b] == prefix + body[..m];
      NothingAcceptedSnoc(seen, b);
      MidFrame(RunFrom(RESET, prefix), data, m - 1);
      RunConcat(RESET, prefix, body[..m - 1]);
      AcceptsNow(seen, b);
    }
  }

  /** From an open state, and unless the frame's first byte completes an earlier frame, a complete frame is what the
      call returns. */
  lemma FrameIsAccepted(prefix: seq<Byte>, data: seq<Byte>)
    requires IsAttitudeData(data) && IsOpen(RunFrom(RESET, prefix).state) && NothingAccepted(prefix + [HEAD])
    ensures IsRead(prefix, data)
  {
    hide RunFrom, ChecksumOf, Sum, NothingAccepted, AcceptsAt;
    FrameRuns(prefix, data);
    NothingAcceptedWithin(prefix, data, |Body(data)|);
    var bytes := prefix + Frame(data);
    assert bytes[..|bytes| - 1] == prefix + Body(data) && Body(data)[..|Body(data)|] == Body(data);
  }

  /** When as many bytes are in hand as were sent after `prefix`, they are those bytes, from the first one on. */
  lemma {:induction false} HeldSinceFirst(prefix: seq<Byte>, bytes: seq<Byte>)
    requires bytes != [] && |Held(RunFrom(RESET, prefix + bytes))| == |bytes|
    ensures |Held(Next(RunFrom(RESET, prefix), bytes[0]))| == 1
  {
    hide IsConsistent, Held, Next, RunFrom;
    var front, b := bytes[..|bytes| - 1], bytes[|bytes| - 1];
    RunIsConsistent(prefix + front);
    HeldStep(RunFrom(RESET, prefix + front), b);
    RunSnoc(RESET, prefix + front, b);
    assert prefix + bytes == prefix + front + [b];
    if front == [] {
      assert prefix + front == prefix;
    } else {
      HeldSinceFirst(prefix, front);
    }
  }

  lemma ReadMeansHeld(prefix: seq<Byte>, data: seq<Byte>)
    requires IsAttitudeData(data) && IsRead(prefix, data)
    ensures |Held(RunFrom(RESET, prefix + Body(data)))| == |Body(data)|
  {
    hide RunFrom, ChecksumOf;
    var bytes := prefix + Frame(data);
    assert bytes[..|bytes| - 1] == prefix + Body(data);
    RunIsConsistent(prefix + Body(data));
  }

  lemma OneHeldMeansOpen(p: Parser)
    requires |Held(Next(p, HEAD))| == 1
    ensures IsOpen(p.state)
  {
  }

  /** A complete frame is what a call returns exactly when the bytes before it leave the parser in an open state and
      neither they nor the frame's first byte complete a frame. */
  lemma FrameIsReadIff(prefix: seq<Byte>, data: seq<Byte>)
    requires IsAttitudeData(data)
    ensures IsRead(prefix, data) <==> IsOpen(RunFrom(RESET, prefix).state) && NothingAccepted(prefix + [HEAD])
  {
    hide RunFrom, ChecksumOf, Held, Next, NothingAccepted, AcceptsAt;
    if IsOpen(RunFrom(RESET, prefix).state) && NothingAccepted(prefix + [HEAD]) {
      FrameIsAccepted(prefix, data);
    }
    if IsRead(prefix, data) {
      ReadMeansHeld(prefix, data);
      HeldSinceFirst(prefix, Body(data));
      OneHeldMeansOpen(RunFrom(RESET, prefix));
      var bytes := prefix + Frame(data);
      NothingAcceptedBefore(bytes[..|bytes| - 1], |prefix| + 1);
      assert bytes[..|bytes| - 1][..|prefix| + 1] == prefix + [HEAD];
    }
  }

  lemma {:induction false} FirstAccepted(bytes: seq<Byte>) returns (k: nat)
    requires !NothingAccepted(bytes)
    ensures k <= |bytes| && ReturnsAt(bytes[..k])
  {
    hide AcceptsAt;
    k :| 0 <= k <= |bytes| && AcceptsAt(bytes[..k]);
    AcceptsAtLast(bytes[..k]);
    var front := bytes[..k - 1];
    assert bytes[..k][..k - 1] == front;
    if !NothingAccepted(front) {
      k := FirstAccepted(front);
      assert front[..k] == bytes[..k];
    }
  }

  /** After an open state no frame is missed: the call returns with its last byte at the latest, with its data or with
      those of an earlier frame. */
  lemma OpenFrameEndsCall(prefix: seq<Byte>, data: seq<Byte>) returns (k: nat)
    requires IsAttitudeData(data) && IsOpen(RunFrom(RESET, prefix).state)
    ensures k <= |prefix + Frame(data)| && ReturnsAt((prefix + Frame(data))[..k])
    ensures k == |prefix + Frame(data)| || k <= |prefix| + 1
    ensures k == |prefix + Frame(data)| ==> IsRead(prefix, data)
  {
    hide RunFrom, ChecksumOf, Sum, AcceptsAt, NothingAccepted;
    var bytes := prefix + Frame(data);
    if NothingAccepted(prefix + [HEAD]) {
      k := |bytes|;
      FrameIsAccepted(prefix, data);
      assert bytes[..k] == bytes;
    } else {
      k := FirstAccepted(prefix + [HEAD]);
      assert bytes[..k] == (prefix + [HEAD])[..k];
    }
  }

  /** So a call that times out has seen no complete frame begin in an open state. */
  lemma TimeoutMissesNone(bytes: seq<Byte>, prefix: seq<Byte>, data: seq<Byte>)
    requires NothingAccepted(bytes) && IsAttitudeData(data) && prefix + Frame(data) <= bytes
    ensures !IsOpen(RunFrom(RESET, prefix).state)
  {
    hide RunFrom, AcceptsAt, ChecksumOf;
    var seen := prefix + Frame(data);
    NothingAcceptedBefore(bytes, |seen|);
    assert bytes[..|seen|] == seen && seen[..|seen|] == seen;
    OpenFrameIsAccepted(prefix, data);
  }

  lemma OpenFrameIsAccepted(prefix: seq<Byte>, data: seq<Byte>)
    requires IsAttitudeData(data)
    ensures IsOpen(RunFrom(RESET, prefix).state) ==> AcceptsAt(prefix + Frame(data))
  {
    hide RunFrom, AcceptsAt;
    if IsOpen(RunFrom(RESET, prefix).state) {
      FrameRuns(prefix, data);
    }
  }

  lemma {:induction false} QuietKeepsLooking(p: Parser, quiet: seq<Byte>)
    requires p.state == HeadLow && HEAD !in quiet
    ensures RunFrom(p, quiet).state == HeadLow
  {
    if quiet != [] {
      QuietKeepsLooking(p, quiet[..|quiet| - 1]);
    }
  }

  /** A frame after bytes that are no head bytes is accepted. */
  lemma QuietThenFrame(prefix: seq<Byte>, data: seq<Byte>)
    requires HEAD !in prefix && IsAttitudeData(data)
    ensures IsRead(prefix, data)
  {
    hide RunFrom, IsRead;
    RunOfNothing();
    QuietKeepsLooking(RESET, prefix);
    QuietAcceptsNothing(prefix);
    AcceptsNow(prefix, HEAD);
    NothingAcceptedSnoc(prefix, HEAD);
    FrameIsAccepted(prefix, data);
  }

  lemma {:induction false} QuietAcceptsNothing(quiet: seq<Byte>)
    requires HEAD !in quiet
    ensures NothingAccepted(quiet)
  {
    hide RunFrom, NothingAccepted;
    if quiet == [] {
      EmptyAcceptsNothing();
    } else {
      var front, b := quiet[..|quiet| - 1], quiet[|quiet| - 1];
      assert quiet == front + [b];
      QuietAcceptsNothing(front);
      QuietKeepsLooking(RESET, front);
      AcceptsNow(front, b);
      NothingAcceptedSnoc(front, b);
    }
  }

  lemma EmptyAcceptsNothing()
    ensures NothingAccepted([])
  {
  }

  /** A single stray head byte before a frame costs the frame: the second head byte is taken for the identifier. When
      the data hold no head byte, nothing at all is accepted where the frame ends. */
  lemma StrayHeadLosesFrame(data: seq<Byte>)
    requires IsAttitudeData(data)
    ensures IsRead([], data) && !IsRead([HEAD], data)
    ensures HEAD !in data ==> !AcceptsAt([HEAD] + Frame(data))
  {
    hide RunFrom, ChecksumOf, Sum, Next, Frame, IsRead;
    StrayHeadMisreads(|data|);
    QuietThenFrame([], data);
    FrameIsReadIff([HEAD], data);
    if HEAD !in data {
      StrayHeadAcceptsNothing(data);
    }
  }

  lemma StrayHeadAcceptsNothing(data: seq<Byte>)
    requires IsAttitudeData(data) && HEAD !in data
    ensures !AcceptsAt([HEAD] + Frame(data))
  {
    hide RunFrom, ChecksumOf, Sum, Next, Frame;
    var lost: seq<Byte> := [HEAD, HEAD, HEAD, ATTITUDE_ID, |data|];
    StrayHeadMisreads(|data|);
    RunSnoc(RESET, lost, data[0]);
    MismatchStops(RunFrom(RESET, lost), data[0]);
    QuietKeepsLooking(RunFrom(RESET, lost + [data[0]]), data[1..]);
    RunConcat(RESET, lost + [data[0]], data[1..]);
    StrayStream(data);
  }

  lemma MismatchStops(p: Parser, b: Byte)
    requires p.state == Checksum && b != HEAD
    ensures Next(p, b).state == HeadLow
  {
  }

  lemma StrayStream(data: seq<Byte>)
    requires IsAttitudeData(data)
    ensures var stream := [HEAD] + Frame(data);
            stream != [] && stream[..|stream| - 1] == [HEAD, HEAD, HEAD, ATTITUDE_ID, |data|] + [data[0]] + data[1..]
  {
    hide ChecksumOf;
  }

  lemma RunOfNothing()
    ensures RunFrom(RESET, []) == RESET
  {
  }

  lemma StrayHeadMisreads(length: Byte)
    ensures RunFrom(RESET, [HEAD]).state == HeadHigh
    ensures RunFrom(RESET, [HEAD, HEAD, HEAD, ATTITUDE_ID, length]).state == Checksum
  {
    hide RunFrom;
    RunOfNothing();
    RunSnoc(RESET, [], HEAD);
    RunSnoc(RESET, [HEAD], HEAD);
    RunSnoc(RESET, [HEAD, HEAD], HEAD);
    RunSnoc(RESET, [HEAD, HEAD, HEAD], ATTITUDE_ID);
    RunSnoc(RESET, [HEAD, HEAD, HEAD, ATTITUDE_ID], length);
    assert [] + [HEAD] == [HEAD] && [HEAD] + [HEAD] == [HEAD, HEAD] && [HEAD, HEAD] + [HEAD] == [HEAD, HEAD, HEAD];
    assert [HEAD, HEAD, HEAD] + [ATTITUDE_ID] == [HEAD, HEAD, HEAD, ATTITUDE_ID];
    assert [HEAD, HEAD, HEAD, ATTITUDE_ID] + [length] == [HEAD, HEAD, HEAD, ATTITUDE_ID, length];
  }

  // ----- the driver call

  datatype Status = Ok | InvalidArgument | Timeout

  datatype Received = Byte(b: Byte) | Nothing

  /** One turn of the polling loop: the clock and what the receiver holds. */
  datatype Poll = Poll(now: Millis, received: Received)

  class Attitude {
    var angles: Angles
    constructor () {
      angles := Angles(0, 0, 0);
    }
  }

  /** The 32-bit clock wraps, the difference does not mind. */
  predicate InTime(start: Millis, timeout: Millis, now: Millis) {
    (now - start) % 0x1_0000_0000 < timeout
  }

  /** In terms of the time that has passed since the start, if that is less than a turn of the clock. */
  lemma InTimeIff(start: Millis, timeout: Millis, passed: Millis)
    ensures InTime(start, timeout, (start + passed) % 0x1_0000_0000) <==> passed < timeout
  {
  }

  function BytesOf(polls: seq<Poll>): seq<Byte> {
    if polls == [] then []
    else BytesOf(polls[..|polls| - 1]) +
         match polls[|polls| - 1].received { case Byte(b) => [b] case Nothing => [] }
  }

  /** The polls that happen before the time is up. */
  predicate HappensWithin(polls: seq<Poll>, start: Millis, timeout: Millis, n: nat) {
    n <= |polls| && forall i :: 0 <= i < n ==> InTime(start, timeout, polls[i].now)
  }

  /** The variables of the loop stand for a parser. */
  predicate Mirrors(p: Parser, state: State, frameId: Byte, frameLength: Byte, buffer: seq<Byte>, dataIndex: nat,
                    checksum: Byte)
  {
    && |buffer| == FRAME_DATA_MAX && dataIndex <= FRAME_DATA_MAX
    && p == Parser(state, frameId, frameLength, buffer[..dataIndex], checksum) && IsConsistent(p)
  }

  function ParserRestart(b: Byte, checksum: Byte): (State, Byte) {
    if b == HEAD then (HeadHigh, b) else (HeadLow, checksum)
  }

  /** The switch over the states; on acceptance nothing changes. */
  method Switch(state0: State, frameId0: Byte, frameLength0: Byte, frameData: array<Byte>, dataIndex0: nat,
                checksum0: Byte, b: Byte, ghost p: Parser)
    returns (accepted: bool, state: State, frameId: Byte, frameLength: Byte, dataIndex: nat, checksum: Byte)
    requires Mirrors(p, state0, frameId0, frameLength0, frameData[..], dataIndex0, checksum0)
    modifies frameData
    ensures accepted <==> Accepts(p, b)
    ensures accepted ==> Mirrors(p, state, frameId, frameLength, frameData[..], dataIndex, checksum)
    ensures !accepted ==> Mirrors(Next(p, b), state, frameId, frameLength, frameData[..], dataIndex, checksum)
  {
    hide IsConsistent;
    HeldStep(p, b);
    BufferRoom(p);
    accepted, state, frameId, frameLength := false, state0, frameId0, frameLength0;
    dataIndex, checksum := dataIndex0, checksum0;
    match state0 {
      case HeadLow =>
        if b == HEAD {
          checksum := b;
          state := HeadHigh;
        }
      case HeadHigh =>
        if b == HEAD {
          checksum := Add(checksum, b);
          state := Id;
        } else {
          var (s, c) := ParserRestart(b, checksum);
          state, checksum := s, c;
        }
      case Id =>
        frameId := b;
        checksum := Add(checksum, b);
        state := Length;
      case Length =>
        if b > FRAME_DATA_MAX {
          var (s, c) := ParserRestart(b, checksum);
          state, checksum := s, c;
        } else {
          frameLength := b;
          dataIndex := 0;
          checksum := Add(checksum, b);
          state := if frameLength == 0 then Checksum else Data;
        }
      case Data =>
        frameData[dataIndex] := b;
        dataIndex := dataIndex + 1;
        checksum := Add(checksum, b);
        if dataIndex == frameLength {
          state := Checksum;
        }
      case Checksum =>
        if b == checksum && frameId == ATTITUDE_ID && frameLength >= 6 {
          accepted := true;
        } else {
          var (s, c) := ParserRestart(b, checksum);
          state, checksum := s, c;
        }
    }
  }

  lemma BufferRoom(p: Parser)
    requires IsConsistent(p)
    ensures p.state == Data ==> |p.data| < FRAME_DATA_MAX
  {
  }

  method NewBuffer() returns (buffer: array<Byte>)
    ensures fresh(buffer) && buffer.Length == FRAME_DATA_MAX
  {
    buffer := new Byte[FRAME_DATA_MAX];
  }

  /** After `i` polls in time the parser stands at `p`, and no frame was accepted. */
  ghost predicate Polled(polls: seq<Poll>, start: Millis, timeout: Millis, i: nat, p: Parser) {
    && HappensWithin(polls, start, timeout, i) && p == RunFrom(RESET, BytesOf(polls[..i]))
    && NothingAccepted(BytesOf(polls[..i]))
  }

  ghost predicate TimeRunsOut(polls: seq<Poll>, start: Millis, timeout: Millis) {
    exists i :: 0 <= i < |polls| && !InTime(start, timeout, polls[i].now)
  }

  /** The call's first frame comes in with poll `n - 1`, in time, and holds `data`. */
  ghost predicate Delivers(polls: seq<Poll>, start: Millis, timeout: Millis, n: nat, data: seq<Byte>) {
    && HappensWithin(polls, start, timeout, n) && IsAttitudeData(data)
    && var bytes := BytesOf(polls[..n]);
       EndsWith(bytes, Frame(data)) && bytes != [] && ReturnsAt(bytes) && ReturnedData(bytes) == data
  }

  /** The time is up at poll `n`, and no frame came in before. */
  ghost predicate RunsOut(polls: seq<Poll>, start: Millis, timeout: Millis, n: nat) {
    && HappensWithin(polls, start, timeout, n) && n < |polls| && !InTime(start, timeout, polls[n].now)
    && NothingAccepted(BytesOf(polls[..n]))
  }

  lemma FirstPoll(polls: seq<Poll>, start: Millis, timeout: Millis, buffer: seq<Byte>)
    requires |buffer| == FRAME_DATA_MAX && TimeRunsOut(polls, start, timeout)
    ensures Mirrors(RESET, HeadLow, 0, 0, buffer, 0, 0)
    ensures Polled(polls, start, timeout, 0, RESET) && polls != []
  {
    assert BytesOf(polls[..0]) == [];
    EmptyAcceptsNothing();
  }

  lemma OnePoll(polls: seq<Poll>, i: nat)
    requires i < |polls|
    ensures polls[i].received == Nothing ==> BytesOf(polls[..i + 1]) == BytesOf(polls[..i])
    ensures polls[i].received.Byte? ==> BytesOf(polls[..i + 1]) == BytesOf(polls[..i]) + [polls[i].received.b]
  {
    assert polls[..i + 1][..i] == polls[..i];
  }

  lemma PollNothing(polls: seq<Poll>, start: Millis, timeout: Millis, i: nat, p: Parser)
    requires i < |polls| && Polled(polls, start, timeout, i, p) && InTime(start, timeout, polls[i].now)
    requires polls[i].received == Nothing
    ensures Polled(polls, start, timeout, i + 1, p)
  {
    hide RunFrom, NothingAccepted, BytesOf;
    OnePoll(polls, i);
  }

  lemma PollByte(polls: seq<Poll>, start: Millis, timeout: Millis, i: nat, p: Parser, b: Byte)
    requires i < |polls| && Polled(polls, start, timeout, i, p) && InTime(start, timeout, polls[i].now)
    requires polls[i].received == Received.Byte(b) && !Accepts(p, b)
    ensures Polled(polls, start, timeout, i + 1, Next(p, b))
  {
    hide RunFrom, AcceptsAt, NothingAccepted, BytesOf, Next;
    OnePoll(polls, i);
    AcceptsNow(BytesOf(polls[..i]), b);
    NothingAcceptedSnoc(BytesOf(polls[..i]), b);
    RunSnoc(RESET, BytesOf(polls[..i]), b);
  }

  lemma PollAccepted(polls: seq<Poll>, start: Millis, timeout: Millis, i: nat, p: Parser, b: Byte)
    requires i < |polls| && Polled(polls, start, timeout, i, p) && InTime(start, timeout, polls[i].now)
    requires polls[i].received == Received.Byte(b) && Accepts(p, b)
    ensures IsAttitudeData(p.data) && Delivers(polls, start, timeout, i + 1, p.data)
  {
    hide RunFrom, AcceptsAt, NothingAccepted, BytesOf, Next, EndsWith, Frame, IsAttitudeData, Accepts;
    OnePoll(polls, i);
    AcceptsNow(BytesOf(polls[..i]), b);
    AcceptedEndsInFrame(BytesOf(polls[..i]) + [b]);
  }

  lemma StillPolling(polls: seq<Poll>, start: Millis, timeout: Millis, i: nat, p: Parser)
    requires TimeRunsOut(polls, start, timeout) && Polled(polls, start, timeout, i, p)
    ensures i < |polls|
  {
  }

  lemma PollsEnded(polls: seq<Poll>, start: Millis, timeout: Millis, i: nat, p: Parser)
    requires Polled(polls, start, timeout, i, p) && i < |polls| && !InTime(start, timeout, polls[i].now)
    ensures RunsOut(polls, start, timeout, i)
  {
  }

  /** Stores the angles of the frame just completed. */
  method Store(attitude: Attitude, frameData: array<Byte>, ghost p: Parser, state: State, frameId: Byte,
               frameLength: Byte, dataIndex: nat, checksum: Byte, ghost polls: seq<Poll>, ghost start: Millis,
               ghost timeout: Millis, ghost i: nat, ghost b: Byte)
    requires Mirrors(p, state, frameId, frameLength, frameData[..], dataIndex, checksum) && Accepts(p, b)
    requires i < |polls| && Polled(polls, start, timeout, i, p) && InTime(start, timeout, polls[i].now)
    requires polls[i].received == Received.Byte(b)
    modifies attitude
    ensures IsAttitudeData(p.data) && Delivers(polls, start, timeout, i + 1, p.data)
    ensures attitude.angles == Decode(p.data) && InRange(attitude.angles) && CarryAngles(p.data, attitude.angles)
  {
    hide TenthDegrees, ReadLeI16, Polled, Delivers, Carry;
    PollAccepted(polls, start, timeout, i, p, b);
    attitude.angles := Angles(TenthDegrees(ReadLeI16(frameData[0], frameData[1])),
                              TenthDegrees(ReadLeI16(frameData[2], frameData[3])),
                              TenthDegrees(ReadLeI16(frameData[4], frameData[5])));
    DecodedInRange(p.data);
    DecodedIsCarried(p.data);
  }

  /** The polling loop. */
  method PollForFrame(attitude: Attitude, timeout: Millis, start: Millis, polls: seq<Poll>)
    returns (status: Status, ghost n: nat, ghost data: seq<Byte>)
    requires TimeRunsOut(polls, start, timeout)
    modifies attitude
    ensures status != InvalidArgument
    ensures status == Timeout ==> attitude.angles == old(attitude.angles) && RunsOut(polls, start, timeout, n)
    ensures status == Ok ==>
      && IsAttitudeData(data) && Delivers(polls, start, timeout, n, data)
      && attitude.angles == Decode(data) && InRange(attitude.angles) && CarryAngles(data, attitude.angles)
  {
    hide *;
    n, data := 0, [];
    var state, frameId: Byte, frameLength: Byte, checksum: Byte := HeadLow, 0, 0, 0;
    var dataIndex := 0;
    var frameData := NewBuffer();
    var i := 0;
    ghost var p := RESET;
    FirstPoll(polls, start, timeout, frameData[..]);
    while InTime(start, timeout, polls[i].now)
      invariant i < |polls| && Polled(polls, start, timeout, i, p)
      invariant Mirrors(p, state, frameId, frameLength, frameData[..], dataIndex, checksum)
      invariant attitude.angles == old(attitude.angles) && fresh(frameData)
      decreases |polls| - i
    {
      match polls[i].received {
        case Nothing =>
          PollNothing(polls, start, timeout, i, p);
        case Byte(b) =>
          var accepted;
          accepted, state, frameId, frameLength, dataIndex, checksum :=
            Switch(state, frameId, frameLength, frameData, dataIndex, checksum, b, p);
          if accepted {
            Store(attitude, frameData, p, state, frameId, frameLength, dataIndex, checksum, polls, start, timeout, i,
                  b);
            return Ok, i + 1, p.data;
          }
          PollByte(polls, start, timeout, i, p, b);
          p := Next(p, b);
      }
      i := i + 1;
      StillPolling(polls, start, timeout, i, p);
    }
    PollsEnded(polls, start, timeout, i, p);
    return Timeout, i, data;
  }

  /** Reads bytes until a frame is complete or the time is up, which some poll is to see. */
  method ReadAttitude(attitude: Attitude?, timeout: Millis, start: Millis, polls: seq<Poll>)
    returns (status: Status, ghost n: nat, ghost data: seq<Byte>)
    requires timeout > 0 ==> TimeRunsOut(polls, start, timeout)
    modifies attitude
    ensures status == InvalidArgument <==> attitude == null || timeout == 0
    ensures attitude != null && status != Ok ==> attitude.angles == old(attitude.angles)
    ensures status == Ok ==>
      && IsAttitudeData(data) && Delivers(polls, start, timeout, n, data)
      && attitude.angles == Decode(data) && InRange(attitude.angles) && CarryAngles(data, attitude.angles)
    ensures status == Timeout ==> RunsOut(polls, start, timeout, n)
  {
    hide *;
    if attitude == null || timeout == 0 {
      return InvalidArgument, 0, [];
    }
    status, n, data := PollForFrame(attitude, timeout, start, polls);
  }
}
