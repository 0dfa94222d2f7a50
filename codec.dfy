/**
 * The shed controller's wire format (shed.js): the 2-byte request frame a
 * command becomes, and the three fixed little-endian reply layouts that recv
 * decodes, selected by the command character in byte 1.
 */
module Codec {
  import opened Wrappers
  import opened Bytes

  /** Byte 0 of every request frame. */
  const RequestTag: Byte := 2

  /** Minimum reply lengths: anything shorter is dropped. */
  const InfoLength: nat := 40
  const CountersLength: nat := 34
  const PersistedLength: nat := 24

  /** Offset and width of the task-name window of a persisted reply. */
  const TaskOffset: nat := 15
  const TaskWidth: nat := 8

  /**
   * A decoded reply, with the field names of the object recv builds. The nine
   * measurements of an info reply are IEEE-754 singles; they are kept here as
   * their raw 32-bit words.
   */
  datatype Reading =
    | InfoReading(kind: char, flags: nat, relay: bool,
                  insideTemp: nat, pressure: nat, humidity: nat, outsideTemp: nat, light: nat,
                  laserInletTemp: nat, laserOutletTemp: nat, laserTubeTemp: nat, laserCaseTemp: nat)
    | CountersReading(kind: char, goodpackets: nat, junk: nat, csumerrs: nat, linklost: nat,
                      overflows: nat, ethPackets: nat, relayOperations: nat, restarts: nat)
    | PersistedReading(kind: char, restarts: nat, exceptions: nat, excAddr: nat, excType: nat,
                       excTask: string)

  /** What recv makes of one datagram. */
  datatype Received =
    | Malformed                          // under 2 bytes: reading the command byte faults
    | TooShort(kind: char, minimum: nat) // a known kind below its minimum length: dropped
    | Unknown(kind: char)                // the switch's default branch
    | Parsed(reading: Reading)

  /** The command characters recv has a layout for. */
  predicate Known(c: char) {
    c == 'E' || c == 'C' || c == 'c' || c == 'P' || c == 'p'
  }

  function MinLength(c: char): nat
    requires Known(c)
  {
    if c == 'E' then InfoLength else if c == 'C' || c == 'c' then CountersLength else PersistedLength
  }

  // ---------------------------------------------------------------- requests

  /** The request send(cmd) transmits: the tag, then the command's character code. */
  function Frame(cmd: char): (f: seq<Byte>)
    requires cmd as int < 256
    ensures |f| == 2
  {
    [RequestTag, cmd as int]
  }

  /** The command a request frame carries, as the device reads it. */
  function RequestCommand(f: seq<Byte>): (c: Option<char>)
    ensures c.Some? <==> |f| == 2 && f[0] == RequestTag
    ensures c.Some? ==> c.value as int == f[1]
  {
    if |f| == 2 && f[0] == RequestTag then Some(f[1] as char) else None
  }

  /** A frame carries exactly its command, and it is the only frame that does. */
  lemma FrameRoundTrip(cmd: char, f: seq<Byte>)
    requires cmd as int < 256
    ensures RequestCommand(Frame(cmd)) == Some(cmd)
    ensures RequestCommand(f) == Some(cmd) ==> f == Frame(cmd)
  {
  }

  // ---------------------------------------------------------------- task name

  /** Node's 'ascii' decoding of one byte: the high bit is cleared. */
  function AsciiChar(b: Byte): (c: char)
    ensures c as int < 128
    ensures c == '\0' <==> b % 128 == 0
  {
    (b % 128) as char
  }

  /** String.prototype.indexOf for one character: the first position, or -1. */
  function IndexOf(s: string, c: char): (i: int)
    ensures -1 <= i < |s|
    ensures i >= 0 ==> s[i] == c && c !in s[..i]
    ensures i == -1 ==> c !in s
  {
    if s == [] then -1
    else if s[0] == c then 0
    else
      var j := IndexOf(s[1..], c);
      if j < 0 then -1 else j + 1
  }

  /** The 8 bytes at offsets 15..22 as an ASCII string, cut before its first NUL. */
  function TaskName(msg: seq<Byte>): (t: string)
    requires |msg| >= TaskOffset + TaskWidth
    ensures |t| <= TaskWidth && '\0' !in t
    ensures forall k :: 0 <= k < |t| ==> t[k] == AsciiChar(msg[TaskOffset + k])
    ensures |t| < TaskWidth ==> AsciiChar(msg[TaskOffset + |t|]) == '\0'
  {
    var window := seq(TaskWidth, k requires 0 <= k < TaskWidth => AsciiChar(msg[TaskOffset + k]));
    var ni := IndexOf(window, '\0');
    if ni >= 0 then window[..ni] else window
  }

  // ---------------------------------------------------------------- replies

  /** The nine measurement words of an info reading, in wire order. */
  function InfoWords(r: Reading): seq<nat>
    requires r.InfoReading?
  {
    [r.insideTemp, r.pressure, r.humidity, r.outsideTemp, r.light,
     r.laserInletTemp, r.laserOutletTemp, r.laserTubeTemp, r.laserCaseTemp]
  }

  /** The eight counters of a counters reading, in wire order. */
  function CounterWords(r: Reading): seq<nat>
    requires r.CountersReading?
  {
    [r.goodpackets, r.junk, r.csumerrs, r.linklost, r.overflows, r.ethPackets,
     r.relayOperations, r.restarts]
  }

  /** The three leading words of a persisted reading, in wire order. */
  function PersistedWords(r: Reading): seq<nat>
    requires r.PersistedReading?
  {
    [r.restarts, r.exceptions, r.excAddr]
  }

  predicate AllU32(ws: seq<nat>) {
    forall k :: 0 <= k < |ws| ==> ws[k] < U32Limit
  }

  /**
   * The readings the wire format can express: the kind is one that selects
   * the reading's layout, every field fits its width, relay is bit 0 of the
   * flags, and the task name is at most 8 non-NUL 7-bit characters.
   */
  predicate WellFormed(r: Reading) {
    match r
    case InfoReading(kind, flags, relay, _, _, _, _, _, _, _, _, _) =>
      kind == 'E' && flags < 0x1_0000 && relay == (flags % 2 == 1) && AllU32(InfoWords(r))
    case CountersReading(kind, _, _, _, _, _, _, _, _) =>
      (kind == 'C' || kind == 'c') && AllU32(CounterWords(r))
    case PersistedReading(kind, _, _, _, excType, excTask) =>
      (kind == 'P' || kind == 'p') && AllU32(PersistedWords(r)) && excType < 256 &&
      |excTask| <= TaskWidth && forall k :: 0 <= k < |excTask| ==> 0 < excTask[k] as int < 128
  }

  /** The 'E' branch of recv, past its length check. */
  function DecodeInfo(msg: seq<Byte>): (r: Reading)
    requires |msg| >= InfoLength && msg[1] == 'E' as int
    ensures r.InfoReading? && WellFormed(r)
  {
    var flags := U16At(msg, 2);
    InfoReading(msg[1] as char, flags, flags % 2 == 1,
                U32At(msg, 4), U32At(msg, 8), U32At(msg, 12), U32At(msg, 16), U32At(msg, 20),
                U32At(msg, 24), U32At(msg, 28), U32At(msg, 32), U32At(msg, 36))
  }

  /** The 'C'/'c' branch of recv, past its length check. */
  function DecodeCounters(msg: seq<Byte>): (r: Reading)
    requires |msg| >= CountersLength && (msg[1] == 'C' as int || msg[1] == 'c' as int)
    ensures r.CountersReading? && r.kind == msg[1] as char && WellFormed(r)
  {
    CountersReading(msg[1] as char,
                    U32At(msg, 2), U32At(msg, 6), U32At(msg, 10), U32At(msg, 14),
                    U32At(msg, 18), U32At(msg, 22), U32At(msg, 26), U32At(msg, 30))
  }

  /** The 'P'/'p' branch of recv, past its length check. */
  function DecodePersisted(msg: seq<Byte>): (r: Reading)
    requires |msg| >= PersistedLength && (msg[1] == 'P' as int || msg[1] == 'p' as int)
    ensures r.PersistedReading? && r.kind == msg[1] as char && WellFormed(r)
  {
    PersistedReading(msg[1] as char, U32At(msg, 2), U32At(msg, 6), U32At(msg, 10), msg[14],
                     TaskName(msg))
  }

  /**
   * recv's decoding step. Byte 0, the declared length, is read but never
   * used; byte 1 selects the layout.
   */
  function Decode(msg: seq<Byte>): (d: Received)
    ensures d.Malformed? <==> |msg| < 2
    ensures d.Unknown? <==> |msg| >= 2 && !Known(msg[1] as char)
    ensures d.TooShort? <==> |msg| >= 2 && Known(msg[1] as char) && |msg| < MinLength(msg[1] as char)
    ensures d.TooShort? ==> d.kind == msg[1] as char && d.minimum == MinLength(d.kind)
    ensures d.Unknown? ==> d.kind == msg[1] as char
    ensures d.Parsed? ==> d.reading.kind == msg[1] as char && WellFormed(d.reading)
  {
    if |msg| < 2 then Malformed
    else
      var cmd := msg[1] as char;
      if cmd == 'E' then
        if |msg| < InfoLength then TooShort(cmd, InfoLength) else Parsed(DecodeInfo(msg))
      else if cmd == 'C' || cmd == 'c' then
        if |msg| < CountersLength then TooShort(cmd, CountersLength) else Parsed(DecodeCounters(msg))
      else if cmd == 'P' || cmd == 'p' then
        if |msg| < PersistedLength then TooShort(cmd, PersistedLength) else Parsed(DecodePersisted(msg))
      else Unknown(cmd)
  }

  // ---------------------------------------------------------------- reference encoder

  /** The task-name window the device sends: the name's bytes, NUL-padded to 8. */
  function TaskField(t: string): (f: seq<Byte>)
    requires |t| <= TaskWidth && forall k :: 0 <= k < |t| ==> t[k] as int < 128
    ensures |f| == TaskWidth
  {
    seq(TaskWidth, k requires 0 <= k < TaskWidth => if k < |t| then t[k] as int else 0)
  }

  /**
   * The reply the device sends for a reading: the layout recv expects, at its
   * minimum length, with that length in byte 0 and byte 23 of a persisted
   * reply left zero.
   */
  function Encode(r: Reading): (msg: seq<Byte>)
    requires WellFormed(r)
    ensures |msg| == MinLength(r.kind) && msg[1] == r.kind as int
  {
    match r
    case InfoReading(kind, flags, _, _, _, _, _, _, _, _, _, _) =>
      [InfoLength, kind as int] + ToLE(flags, 2) + LE32s(InfoWords(r))
    case CountersReading(kind, _, _, _, _, _, _, _, _) =>
      [CountersLength, kind as int] + LE32s(CounterWords(r))
    case PersistedReading(kind, _, _, _, excType, excTask) =>
      [PersistedLength, kind as int] + LE32s(PersistedWords(r)) + ([excType] + TaskField(excTask) + [0])
  }

  /** The first NUL of a NUL-free name followed by NUL padding is where the padding starts. */
  lemma {:induction false} IndexOfPadding(t: string, pad: string)
    requires '\0' !in t && forall k :: 0 <= k < |pad| ==> pad[k] == '\0'
    ensures IndexOf(t + pad, '\0') == if pad == [] then -1 else |t|
  {
    if t != [] {
      assert (t + pad)[1..] == t[1..] + pad;
      IndexOfPadding(t[1..], pad);
    } else if pad == [] {
      assert t + pad == [];
    }
  }

  /** The task name recv reads from the device's padded window is the name that was padded. */
  lemma TaskNameOfField(msg: seq<Byte>, t: string)
    requires |t| <= TaskWidth && forall k :: 0 <= k < |t| ==> 0 < t[k] as int < 128
    requires |msg| >= TaskOffset + TaskWidth && msg[TaskOffset..TaskOffset + TaskWidth] == TaskField(t)
    ensures TaskName(msg) == t
  {
    var window := seq(TaskWidth, k requires 0 <= k < TaskWidth => AsciiChar(msg[TaskOffset + k]));
    var pad := seq(TaskWidth - |t|, k => '\0');
    forall k | 0 <= k < TaskWidth
      ensures window[k] == (t + pad)[k]
    {
      assert window[k] == AsciiChar(msg[TaskOffset + k]);
      assert msg[TaskOffset + k] == TaskField(t)[k];
      if k < |t| {
        assert TaskField(t)[k] == t[k] as int && AsciiChar(t[k] as int) == t[k];
      } else {
        assert TaskField(t)[k] == 0 && (t + pad)[k] == pad[k - |t|];
      }
    }
    assert window == t + pad;
    IndexOfPadding(t, pad);
    assert (t + pad)[..|t|] == t;
  }

  lemma DecodeEncodeInfo(r: Reading)
    requires r.InfoReading? && WellFormed(r)
    ensures Decode(Encode(r)) == Parsed(r)
  {
    var msg := Encode(r);
    var head: seq<Byte> := [InfoLength, r.kind as int] + ToLE(r.flags, 2);
    var ws := InfoWords(r);
    assert msg == head + LE32s(ws) + [];
    assert msg[2..4] == ToLE(r.flags, 2);
    Pow256Small();
    FromToLE(r.flags, 2);
    WordAt(head, ws, [], 0); WordAt(head, ws, [], 1); WordAt(head, ws, [], 2);
    WordAt(head, ws, [], 3); WordAt(head, ws, [], 4); WordAt(head, ws, [], 5);
    WordAt(head, ws, [], 6); WordAt(head, ws, [], 7); WordAt(head, ws, [], 8);
  }

  lemma DecodeEncodeCounters(r: Reading)
    requires r.CountersReading? && WellFormed(r)
    ensures Decode(Encode(r)) == Parsed(r)
  {
    var msg := Encode(r);
    var d := DecodeCounters(msg);
    var head: seq<Byte> := [CountersLength, r.kind as int];
    assert msg == head + LE32s(CounterWords(r));
    assert msg[2..CountersLength] == LE32s(CounterWords(r));
    LE32sOfRead(msg, CounterWords(d), 2);
    LE32sInjective(CounterWords(d), CounterWords(r));
  }

  lemma DecodeEncodePersisted(r: Reading)
    requires r.PersistedReading? && WellFormed(r)
    ensures Decode(Encode(r)) == Parsed(r)
  {
    var msg := Encode(r);
    var head: seq<Byte> := [PersistedLength, r.kind as int];
    var ws := PersistedWords(r);
    var tail := [r.excType] + TaskField(r.excTask) + [0];
    assert msg == head + LE32s(ws) + tail;
    WordAt(head, ws, tail, 0); WordAt(head, ws, tail, 1); WordAt(head, ws, tail, 2);
    assert msg[14] == r.excType;
    assert msg[TaskOffset..TaskOffset + TaskWidth] == TaskField(r.excTask);
    TaskNameOfField(msg, r.excTask);
  }

  /** Decoding what the device encodes for a well-formed reading gives the reading back. */
  lemma DecodeEncode(r: Reading)
    requires WellFormed(r)
    ensures Decode(Encode(r)) == Parsed(r)
  {
    match r
    case InfoReading(_, _, _, _, _, _, _, _, _, _, _, _) => DecodeEncodeInfo(r);
    case CountersReading(_, _, _, _, _, _, _, _, _) => DecodeEncodeCounters(r);
    case PersistedReading(_, _, _, _, _, _) => DecodeEncodePersisted(r);
  }

  lemma U32AtAgree(m1: seq<Byte>, m2: seq<Byte>, off: nat)
    requires off + 4 <= |m1| && off + 4 <= |m2|
    requires forall k :: off <= k < off + 4 ==> m1[k] == m2[k]
    ensures U32At(m1, off) == U32At(m2, off)
  {
    assert m1[off..off + 4] == m2[off..off + 4];
  }

  /**
   * A reply's reading depends only on bytes 1 up to its kind's minimum length:
   * neither the declared length in byte 0 nor any trailing bytes matter.
   */
  lemma DependsOnlyOnLayout(m1: seq<Byte>, m2: seq<Byte>)
    requires |m1| >= 2 && |m2| >= 2 && m1[1] == m2[1] && Known(m1[1] as char)
    requires |m1| >= MinLength(m1[1] as char) && |m2| >= MinLength(m1[1] as char)
    requires forall k :: 1 <= k < MinLength(m1[1] as char) ==> m1[k] == m2[k]
    ensures Decode(m1) == Decode(m2)
  {
    var cmd := m1[1] as char;
    if cmd == 'E' {
      assert m1[2..4] == m2[2..4];
      U32AtAgree(m1, m2, 4); U32AtAgree(m1, m2, 8); U32AtAgree(m1, m2, 12);
      U32AtAgree(m1, m2, 16); U32AtAgree(m1, m2, 20); U32AtAgree(m1, m2, 24);
      U32AtAgree(m1, m2, 28); U32AtAgree(m1, m2, 32); U32AtAgree(m1, m2, 36);
    } else if cmd == 'C' || cmd == 'c' {
      U32AtAgree(m1, m2, 2); U32AtAgree(m1, m2, 6); U32AtAgree(m1, m2, 10);
      U32AtAgree(m1, m2, 14); U32AtAgree(m1, m2, 18); U32AtAgree(m1, m2, 22);
      U32AtAgree(m1, m2, 26); U32AtAgree(m1, m2, 30);
    } else {
      U32AtAgree(m1, m2, 2); U32AtAgree(m1, m2, 6); U32AtAgree(m1, m2, 10);
      var w1 := seq(TaskWidth, k requires 0 <= k < TaskWidth => AsciiChar(m1[TaskOffset + k]));
      var w2 := seq(TaskWidth, k requires 0 <= k < TaskWidth => AsciiChar(m2[TaskOffset + k]));
      assert w1 == w2;
    }
  }

  /** The declared length in byte 0 is never checked: overwriting it changes nothing. */
  lemma LengthTagIgnored(msg: seq<Byte>, tag: Byte)
    requires |msg| >= 1
    ensures Decode([tag] + msg[1..]) == Decode(msg)
  {
    var m2 := [tag] + msg[1..];
    if |msg| >= 2 && Known(msg[1] as char) && |msg| >= MinLength(msg[1] as char) {
      DependsOnlyOnLayout(msg, m2);
    }
  }

  /** Bytes past a kind's layout are ignored. */
  lemma TrailingBytesIgnored(msg: seq<Byte>, extra: seq<Byte>)
    requires Decode(msg).Parsed? || Decode(msg).Unknown?
    ensures Decode(msg + extra) == Decode(msg)
  {
    if Decode(msg).Parsed? {
      DependsOnlyOnLayout(msg, msg + extra);
    }
  }

  /** Re-encoding a decoded E reply reproduces its bytes 1 to 39: every field comes from its own offset. */
  lemma ReEncodeInfo(msg: seq<Byte>)
    requires |msg| >= InfoLength && msg[1] == 'E' as int
    ensures Encode(DecodeInfo(msg))[1..InfoLength] == msg[1..InfoLength]
  {
    var r := DecodeInfo(msg);
    var ws := InfoWords(r);
    LE32sOfRead(msg, ws, 4);
    ToFromLE(msg[2..4]);
    assert msg[1..InfoLength] == [msg[1]] + msg[2..4] + msg[4..InfoLength];
  }

  /** Re-encoding a decoded C/c reply reproduces its bytes 1 to 33. */
  lemma ReEncodeCounters(msg: seq<Byte>)
    requires |msg| >= CountersLength && (msg[1] == 'C' as int || msg[1] == 'c' as int)
    ensures Encode(DecodeCounters(msg))[1..CountersLength] == msg[1..CountersLength]
  {
    var r := DecodeCounters(msg);
    LE32sOfRead(msg, CounterWords(r), 2);
    assert msg[1..CountersLength] == [msg[1]] + msg[2..CountersLength];
  }

  /**
   * Re-encoding a decoded P/p reply reproduces its bytes 1 to 14 (kind,
   * restarts, exceptions, exc_addr, exc_type), and the task name's bytes with
   * their high bit cleared.
   */
  lemma ReEncodePersisted(msg: seq<Byte>)
    requires |msg| >= PersistedLength && (msg[1] == 'P' as int || msg[1] == 'p' as int)
    ensures Encode(DecodePersisted(msg))[1..TaskOffset] == msg[1..TaskOffset]
    ensures forall k :: TaskOffset <= k < TaskOffset + |DecodePersisted(msg).excTask| ==>
              Encode(DecodePersisted(msg))[k] == msg[k] % 128
  {
    var r := DecodePersisted(msg);
    var e := Encode(r);
    var tail := [r.excType] + TaskField(r.excTask) + [0];
    LE32sOfRead(msg, PersistedWords(r), 2);
    assert e == [PersistedLength, r.kind as int] + msg[2..14] + tail;
    assert msg[1..TaskOffset] == [msg[1]] + msg[2..14] + [msg[14]];
    forall k | TaskOffset <= k < TaskOffset + |r.excTask|
      ensures e[k] == msg[k] % 128
    {
      assert e[k] == TaskField(r.excTask)[k - TaskOffset];
      assert r.excTask[k - TaskOffset] == AsciiChar(msg[k]);
    }
  }

  /**
   * Every parsed reply agrees with the encoding of its reading on the bytes
   * its fields are read from: bytes 1 up to the minimum length for E and C/c,
   * bytes 1 to 14 for P/p.
   */
  lemma ReEncode(msg: seq<Byte>)
    requires Decode(msg).Parsed?
    ensures var r := Decode(msg).reading;
      var n := if r.PersistedReading? then TaskOffset else MinLength(r.kind);
      Encode(r)[1..n] == msg[1..n]
  {
    if msg[1] == 'E' as int {
      ReEncodeInfo(msg);
    } else if msg[1] == 'C' as int || msg[1] == 'c' as int {
      ReEncodeCounters(msg);
    } else {
      ReEncodePersisted(msg);
    }
  }

  /** The relay flag of an info reply is bit 0 of byte 2, the low byte of the flags. */
  lemma RelayIsBitZeroOfByteTwo(msg: seq<Byte>)
    requires Decode(msg).Parsed? && Decode(msg).reading.InfoReading?
    ensures Decode(msg).reading.relay <==> msg[2] % 2 == 1
  {
    LowBitInFirstByte(msg[2..4]);
  }
}
