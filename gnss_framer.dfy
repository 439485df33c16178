/**
 * The byte framer of `gnss_poll`: a state machine over the receiver's serial
 * stream that collects NMEA lines (from `$` to the line feed, carriage
 * returns dropped) into a 256-byte line buffer, and skips UBX binary frames
 * (sync bytes 0xB5 0x62, class, id, little-endian length, payload, two
 * checksum bytes).
 */
module GnssFramer {
  import opened CTypes
  import opened NmeaText

  const LINEBUF_SIZE: int := 256
  const DOLLAR: byte := 0x24
  const LF: byte := 0x0A
  const CR: byte := 0x0D
  const UBX_SYNC1: byte := 0xB5
  const UBX_SYNC2: byte := 0x62
  /** The longest UBX payload the buffer admits: its size less the 8 framing bytes. */
  const UBX_MAX_PAYLOAD: int := LINEBUF_SIZE - 8

  /** The `linestate` values 0 to 6. */
  datatype FrameState = Idle | Nmea | UbxSync | UbxClass | UbxId | UbxLength | UbxPayload

  /**
   * The framer's static variables: `buf` is `linebuf[..linepos]`, the bytes
   * of the frame collected so far.
   */
  datatype Frame = Frame(buf: seq<byte>, state: FrameState, payloadLength: int)

  const START: Frame := Frame([], Idle, 0)

  /** What holds between bytes in every state. */
  ghost predicate FrameValid(f: Frame) {
    && |f.buf| < LINEBUF_SIZE
    && (f.state == Idle ==> f.buf == [])
    && (f.state == Nmea ==> |f.buf| >= 1 && f.buf[0] == DOLLAR && LF !in f.buf && CR !in f.buf)
    && (f.state == UbxSync ==> f.buf == [UBX_SYNC1])
    && (f.state == UbxClass ==> |f.buf| == 2)
    && (f.state == UbxId ==> |f.buf| == 3)
    && (f.state == UbxLength ==> 4 <= |f.buf| <= 5)
    && (f.state == UbxPayload ==>
          && 6 <= |f.buf| < 8 + f.payloadLength
          && f.payloadLength == UbxLengthOf(f.buf) <= UBX_MAX_PAYLOAD)
  }

  /** The empty buffer in the idle state, keeping the last payload length as the C statics do. */
  function Reset(f: Frame): Frame {
    Frame([], Idle, f.payloadLength)
  }

  /** One received byte: the new framer state and the NMEA line completed by it, if any. */
  function FrameStep(f: Frame, c: byte): (out: (Frame, Option<seq<byte>>))
    ensures out.1.Some? <==> f.state == Nmea && c == LF
    ensures out.1.Some? ==> out.1.value == f.buf && out.0.state == Idle
  {
    match f.state
    case Idle =>
      if c == DOLLAR then (Frame([c], Nmea, f.payloadLength), None)
      else if c == UBX_SYNC1 then (Frame([c], UbxSync, f.payloadLength), None)
      else (f, None)
    case Nmea =>
      if c == LF then (Reset(f), Some(f.buf))
      else if c == CR then (f, None)
      else if |f.buf| < LINEBUF_SIZE - 1 then (f.(buf := f.buf + [c]), None)
      else (Reset(f), None)
    case UbxSync =>
      if c == UBX_SYNC2 then (Frame(f.buf + [c], UbxClass, f.payloadLength), None)
      else (Reset(f), None)
    case UbxClass => (Frame(f.buf + [c], UbxId, f.payloadLength), None)
    case UbxId => (Frame(f.buf + [c], UbxLength, f.payloadLength), None)
    case UbxLength =>
      var b := f.buf + [c];
      if |b| == 6 then
        var len := UbxLengthOf(b);
        if len > UBX_MAX_PAYLOAD then (Frame([], Idle, len), None)
        else (Frame(b, UbxPayload, len), None)
      else (Frame(b, UbxLength, f.payloadLength), None)
    case UbxPayload =>
      if |f.buf| < LINEBUF_SIZE - 1 then
        var b := f.buf + [c];
        if |b| >= 8 + f.payloadLength then (Reset(f), None)
        else (f.(buf := b), None)
      else (Reset(f), None)
  }

  /** The framer never lets its buffer overrun, and every completed line is a `$` line with no line-end bytes. */
  lemma FrameStepKeepsValid(f: Frame, c: byte)
    requires FrameValid(f)
    ensures FrameValid(FrameStep(f, c).0)
    ensures var line := FrameStep(f, c).1;
      line.Some? ==> |line.value| >= 1 && line.value[0] == DOLLAR && LF !in line.value && CR !in line.value
  {
    if f.state == UbxLength && |f.buf| == 5 {
      var b := f.buf + [c];
      assert b[4] == f.buf[4] && b[5] == c;
    }
  }

  /** The bytes of a stream fed one at a time: the final state and the lines completed, in order. */
  function Feed(f: Frame, bytes: seq<byte>): (seq<seq<byte>>, Frame)
    decreases |bytes|
  {
    if bytes == [] then ([], f)
    else
      var step := FrameStep(f, bytes[0]);
      var rest := Feed(step.0, bytes[1..]);
      (Emitted(step.1) + rest.0, rest.1)
  }

  function Emitted(line: Option<seq<byte>>): seq<seq<byte>> {
    if line.Some? then [line.value] else []
  }

  /** The bytes a line keeps: everything but carriage returns. */
  function DropCR(bytes: seq<byte>): (r: seq<byte>)
    ensures CR !in r
    ensures |r| <= |bytes|
  {
    if bytes == [] then [] else (if bytes[0] == CR then [] else [bytes[0]]) + DropCR(bytes[1..])
  }

  /** Inside a line, bytes other than the line feed are collected while the buffer has room. */
  lemma {:induction false} NmeaBodyCollected(f: Frame, body: seq<byte>)
    requires f.state == Nmea && LF !in body && |f.buf + DropCR(body)| < LINEBUF_SIZE
    ensures Feed(f, body) == ([], f.(buf := f.buf + DropCR(body)))
    decreases |body|
  {
    if body == [] {
      assert f.buf + [] == f.buf;
    } else {
      var c := body[0];
      var f1 := FrameStep(f, c).0;
      var rest := DropCR(body[1..]);
      assert body[0..] == body;
      FeedSkip(f, body, 0);
      if c == CR {
        assert DropCR(body) == rest;
        NmeaBodyCollected(f1, body[1..]);
      } else {
        assert DropCR(body) == [c] + rest;
        assert f.buf + DropCR(body) == (f.buf + [c]) + rest;
        assert f1 == f.(buf := f.buf + [c]);
        NmeaBodyCollected(f1, body[1..]);
      }
    }
  }

  /**
   * A `$` line that fits the buffer, fed from the idle state, comes out whole
   * with its carriage returns removed, and the framer is idle again.
   */
  lemma NmeaLineRoundTrip(f: Frame, body: seq<byte>)
    requires f.state == Idle && LF !in body && 1 + |DropCR(body)| < LINEBUF_SIZE
    ensures Feed(f, [DOLLAR] + body + [LF]) == ([[DOLLAR] + DropCR(body)], Reset(f))
  {
    var bytes := [DOLLAR] + body + [LF];
    var f1 := Frame([DOLLAR], Nmea, f.payloadLength);
    assert bytes[0] == DOLLAR && bytes[1..] == body + [LF];
    assert bytes[0..] == bytes;
    FeedSkip(f, bytes, 0);
    FeedAppend(f1, body, [LF]);
    NmeaBodyCollected(f1, body);
    var fb := f1.(buf := [DOLLAR] + DropCR(body));
    assert [LF][1..] == [];
    assert [fb.buf] + [] == [fb.buf];
    assert Feed(fb, [LF]) == ([[DOLLAR] + DropCR(body)], Reset(f));
    assert [] + [[DOLLAR] + DropCR(body)] == [[DOLLAR] + DropCR(body)];
  }

  /** Feeding two pieces one after the other. */
  lemma {:induction false} FeedAppend(f: Frame, a: seq<byte>, b: seq<byte>)
    ensures Feed(f, a + b) == (Feed(f, a).0 + Feed(Feed(f, a).1, b).0, Feed(Feed(f, a).1, b).1)
    decreases |a|
  {
    if a == [] {
      assert a + b == b;
      assert [] + Feed(f, b).0 == Feed(f, b).0;
    } else {
      assert (a + b)[1..] == a[1..] + b;
      assert (a + b)[0] == a[0];
      var step := FrameStep(f, a[0]);
      assert Feed(f, a + b) == (Emitted(step.1) + Feed(step.0, a[1..] + b).0, Feed(step.0, a[1..] + b).1);
      assert Feed(f, a) == (Emitted(step.1) + Feed(step.0, a[1..]).0, Feed(step.0, a[1..]).1);
      FeedAppend(step.0, a[1..], b);
      var x := Feed(step.0, a[1..]);
      assert Emitted(step.1) + (x.0 + Feed(x.1, b).0) == (Emitted(step.1) + x.0) + Feed(x.1, b).0;
    }
  }

  /** The rest of a UBX payload and its checksum are consumed, ending idle. */
  lemma {:induction false} UbxPayloadConsumed(f: Frame, rest: seq<byte>)
    requires f.state == UbxPayload && FrameValid(f) && |f.buf| + |rest| == 8 + f.payloadLength
    ensures Feed(f, rest) == ([], Frame([], Idle, f.payloadLength))
    decreases |rest|
  {
    var f1 := FrameStep(f, rest[0]).0;
    FrameStepKeepsValid(f, rest[0]);
    assert rest[0..] == rest;
    FeedSkip(f, rest, 0);
    if |rest| > 1 {
      UbxPayloadConsumed(f1, rest[1..]);
    }
  }

  /** One byte that completes no line moves the stream on by one. */
  lemma FeedSkip(f: Frame, b: seq<byte>, i: int)
    requires 0 <= i < |b| && FrameStep(f, b[i]).1.None?
    ensures Feed(f, b[i..]) == Feed(FrameStep(f, b[i]).0, b[i + 1..])
  {
    assert b[i..][0] == b[i];
    assert b[i..][1..] == b[i + 1..];
    var rest := Feed(FrameStep(f, b[i]).0, b[i + 1..]);
    assert [] + rest.0 == rest.0;
  }

  /** The length field of a UBX header: little-endian in bytes 4 and 5. */
  function UbxLengthOf(header: seq<byte>): int
    requires |header| >= 6
  {
    header[4] as int + 256 * (header[5] as int)
  }

  /** The six header bytes of a UBX frame read from the idle state. */
  lemma {:induction false} UbxHeaderRead(f: Frame, header: seq<byte>, tail: seq<byte>)
    requires f.state == Idle && |header| == 6 && header[0] == UBX_SYNC1 && header[1] == UBX_SYNC2
    ensures UbxLengthOf(header) <= UBX_MAX_PAYLOAD ==>
      Feed(f, header + tail) == Feed(Frame(header, UbxPayload, UbxLengthOf(header)), tail)
    ensures UbxLengthOf(header) > UBX_MAX_PAYLOAD ==>
      Feed(f, header + tail) == Feed(Frame([], Idle, UbxLengthOf(header)), tail)
  {
    var b := header + tail;
    assert b[0..] == b;
    assert b[..6] == header;
    assert b[6..] == tail;
    var f1 := FrameStep(f, b[0]).0;
    FeedSkip(f, b, 0);
    assert f1 == Frame(b[..1], UbxSync, f.payloadLength);
    var f2 := FrameStep(f1, b[1]).0;
    FeedSkip(f1, b, 1);
    assert f2 == Frame(b[..2], UbxClass, f.payloadLength);
    var f3 := FrameStep(f2, b[2]).0;
    FeedSkip(f2, b, 2);
    assert f3 == Frame(b[..3], UbxId, f.payloadLength);
    var f4 := FrameStep(f3, b[3]).0;
    FeedSkip(f3, b, 3);
    assert f4 == Frame(b[..4], UbxLength, f.payloadLength);
    var f5 := FrameStep(f4, b[4]).0;
    FeedSkip(f4, b, 4);
    assert f5 == Frame(b[..5], UbxLength, f.payloadLength);
    FeedSkip(f5, b, 5);
    assert b[..5] + [b[5]] == header;
  }

  /**
   * A UBX frame whose length field is at most 248, fed from the idle state,
   * is consumed entirely, yields no line and leaves the framer idle.
   */
  lemma UbxFrameSkipped(f: Frame, header: seq<byte>, payload: seq<byte>, checksum: seq<byte>)
    requires f.state == Idle && |header| == 6 && header[0] == UBX_SYNC1 && header[1] == UBX_SYNC2
    requires |payload| == UbxLengthOf(header) <= UBX_MAX_PAYLOAD && |checksum| == 2
    ensures Feed(f, header + payload + checksum) == ([], Frame([], Idle, |payload|))
  {
    assert header + payload + checksum == header + (payload + checksum);
    UbxHeaderRead(f, header, payload + checksum);
    UbxPayloadConsumed(Frame(header, UbxPayload, |payload|), payload + checksum);
  }

  /** A UBX length field above 248 drops the frame as soon as the length is read. */
  lemma UbxOversizeDropped(f: Frame, header: seq<byte>)
    requires f.state == Idle && |header| == 6 && header[0] == UBX_SYNC1 && header[1] == UBX_SYNC2
    requires UbxLengthOf(header) > UBX_MAX_PAYLOAD
    ensures Feed(f, header) == ([], Frame([], Idle, UbxLengthOf(header)))
  {
    assert header + [] == header;
    UbxHeaderRead(f, header, []);
  }

  /** The C string the parser sees in the line buffer: the bytes before the first NUL, as characters. */
  function LineText(line: seq<byte>): (s: CString)
    ensures |s| <= |line|
    ensures forall i | 0 <= i < |s| :: s[i] as int == line[i]
    ensures |s| == |line| || line[|s|] == 0
  {
    if line == [] || line[0] == 0 then [] else [line[0] as char] + LineText(line[1..])
  }

  /**
   * The framer's static buffer and variables, updated in place one byte at a
   * time.
   */
  class LineFramer {
    const linebuf: array<byte>
    var linepos: int
    var linestate: FrameState
    var ubxPayloadLength: int

    ghost function Abstract(): Frame
      reads this, linebuf
      requires 0 <= linepos <= linebuf.Length
    {
      Frame(linebuf[..linepos], linestate, ubxPayloadLength)
    }

    ghost predicate Valid()
      reads this, linebuf
    {
      linebuf.Length == LINEBUF_SIZE && 0 <= linepos < LINEBUF_SIZE && FrameValid(Abstract())
    }

    constructor ()
      ensures Valid() && Abstract() == START && fresh(linebuf)
    {
      linebuf := new byte[LINEBUF_SIZE](_ => 0);
      linepos := 0;
      linestate := Idle;
      ubxPayloadLength := 0;
    }

    /** The body of the `switch (linestate)` for one received byte `c`. */
    method Step(c: byte) returns (line: Option<seq<byte>>)
      requires Valid()
      modifies this, linebuf
      ensures Valid()
      ensures (Abstract(), line) == FrameStep(old(Abstract()), c)
    {
      FrameStepKeepsValid(Abstract(), c);
      line := None;
      match linestate {
        case Idle => StepIdle(c);
        case Nmea => line := StepNmea(c);
        case UbxSync => StepUbxSync(c);
        case UbxClass => StoreHeaderByte(c, UbxId);
        case UbxId => StoreHeaderByte(c, UbxLength);
        case UbxLength => StepUbxLength(c);
        case UbxPayload => StepUbxPayload(c);
      }
    }

    /** Back to the idle state with an empty buffer. */
    method ResetLine()
      requires linebuf.Length == LINEBUF_SIZE && 0 <= linepos <= LINEBUF_SIZE
      modifies this
      ensures linepos == 0
      ensures Abstract() == Reset(old(Abstract()))
    {
      linestate := Idle;
      linepos := 0;
    }

    /** `linebuf[linepos++] = c` */
    method Store(c: byte)
      requires linebuf.Length == LINEBUF_SIZE && 0 <= linepos < LINEBUF_SIZE - 1
      modifies this, linebuf
      ensures linepos == old(linepos) + 1 && linestate == old(linestate)
      ensures ubxPayloadLength == old(ubxPayloadLength)
      ensures linebuf[..linepos] == old(linebuf[..linepos]) + [c]
    {
      linebuf[linepos] := c;
      linepos := linepos + 1;
    }

    method StepIdle(c: byte)
      requires Valid() && linestate == Idle
      modifies this, linebuf
      ensures 0 <= linepos <= linebuf.Length
      ensures Abstract() == FrameStep(old(Abstract()), c).0
    {
      if c == DOLLAR || c == UBX_SYNC1 {
        Store(c);
        linestate := if c == DOLLAR then Nmea else UbxSync;
      }
    }

    method StepNmea(c: byte) returns (line: Option<seq<byte>>)
      requires Valid() && linestate == Nmea
      modifies this, linebuf
      ensures 0 <= linepos <= linebuf.Length
      ensures (Abstract(), line) == FrameStep(old(Abstract()), c)
    {
      line := None;
      if c == LF {
        line := Some(linebuf[..linepos]);
        linebuf[linepos] := 0;
        ResetLine();
      } else if c == CR {
      } else if linepos < LINEBUF_SIZE - 1 {
        Store(c);
      } else {
        ResetLine();
      }
    }

    method StepUbxSync(c: byte)
      requires Valid() && linestate == UbxSync
      modifies this, linebuf
      ensures 0 <= linepos <= linebuf.Length
      ensures Abstract() == FrameStep(old(Abstract()), c).0
    {
      if c == UBX_SYNC2 {
        Store(c);
        linestate := UbxClass;
      } else {
        ResetLine();
      }
    }

    /** The class and id bytes: stored unconditionally. */
    method StoreHeaderByte(c: byte, next: FrameState)
      requires Valid() && (linestate, next) in {(UbxClass, UbxId), (UbxId, UbxLength)}
      modifies this, linebuf
      ensures 0 <= linepos <= linebuf.Length
      ensures Abstract() == FrameStep(old(Abstract()), c).0
    {
      Store(c);
      linestate := next;
    }

    method StepUbxLength(c: byte)
      requires Valid() && linestate == UbxLength
      modifies this, linebuf
      ensures 0 <= linepos <= linebuf.Length
      ensures Abstract() == FrameStep(old(Abstract()), c).0
    {
      ghost var b := Abstract().buf + [c];
      Store(c);
      if linepos == 6 {
        assert linebuf[4] == b[4] && linebuf[5] == b[5];
        ubxPayloadLength := linebuf[4] as int + 256 * (linebuf[5] as int);
        if ubxPayloadLength > UBX_MAX_PAYLOAD {
          ResetLine();
        } else {
          linestate := UbxPayload;
        }
      }
    }

    method StepUbxPayload(c: byte)
      requires Valid() && linestate == UbxPayload
      modifies this, linebuf
      ensures 0 <= linepos <= linebuf.Length
      ensures Abstract() == FrameStep(old(Abstract()), c).0
    {
      if linepos < LINEBUF_SIZE - 1 {
        Store(c);
        if linepos >= 8 + ubxPayloadLength {
          ResetLine();
        }
      } else {
        ResetLine();
      }
    }
  }
}
