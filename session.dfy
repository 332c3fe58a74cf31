/** The session loop of src/websocket/mod.rs: after the handshake, each read
    is parsed as one frame and answered; the loop ends on end of stream, a
    read error, a Close frame or an opcode the server does not know. */
module WebSocket {
  import opened Wire
  import opened Frames

  /** One call of `stream.read`: the bytes it delivered (none at end of
      stream) or an I/O error. */
  datatype ReadResult = Received(data: seq<byte>) | ReadFailed

  /** What one read leads to: the buffers handed to `write_all`, in order,
      the inbound buffer afterwards, and whether the loop goes on. */
  datatype Outcome = Outcome(writes: seq<seq<byte>>, buffer: seq<Frame>, proceed: bool)

  /** The reason text of the Close frame sent for an unknown opcode. */
  const UnknownOpcodeReason: string := "Unknown OpCode"

  /** The Close body sent for an unknown opcode: status 1011 and the reason. */
  function UnknownOpcodeClosePayload(): seq<byte>
  {
    CloseFramePayload(Unexpected, UnknownOpcodeReason)
  }

  predicate IsData(f: Frame)
  {
    f.opcode == Text || f.opcode == Continuation
  }

  /** The inbound buffer only ever receives Text and Continuation frames. */
  predicate DataOnly(buffer: seq<Frame>)
  {
    forall i :: 0 <= i < |buffer| ==> IsData(buffer[i])
  }

  /** Whether a read ends the session, whatever the buffer holds. */
  predicate Terminates(ev: ReadResult)
  {
    match ev
    case ReadFailed => true
    case Received(data) =>
      data == [] || (Decode(data).Ok? && Decode(data).value.opcode in {Close, Unknown})
  }

  /** One turn of the loop in `start_websocket_session`, on the inbound
      buffer as a value: end of stream and read errors stop the loop, a
      buffer that does not parse is skipped. */
  function Next(buffer: seq<Frame>, ev: ReadResult): (o: Outcome)
    requires DataOnly(buffer)
    ensures DataOnly(o.buffer)
    ensures o.proceed <==> !Terminates(ev)
    ensures ev.ReadFailed? || ev.data == [] || Decode(ev.data).Err? ==> o.writes == [] && o.buffer == buffer
  {
    match ev
    case ReadFailed => Outcome([], buffer, false)
    case Received(data) =>
      if data == [] then Outcome([], buffer, false)
      else
        match Decode(data)
        case Err(_) => Outcome([], buffer, true)
        case Ok(frame) => Respond(buffer, frame)
  }

  /** How the loop answers one parsed frame: Ping and Pong get a Pong with
      the same payload; Close flushes the buffer and echoes the Close; an
      unknown opcode gets a Close with status 1011; data frames are buffered
      and the buffer is echoed when the frame is final. */
  function Respond(buffer: seq<Frame>, frame: Frame): (o: Outcome)
    requires DataOnly(buffer) && WellFormed(frame)
    ensures DataOnly(o.buffer)
    ensures o.proceed <==> frame.opcode !in {Close, Unknown}
  {
    match frame.opcode
    case Ping => Outcome([Encode(SingleFrame(Pong, frame.payload))], buffer, true)
    case Pong => Outcome([Encode(SingleFrame(Pong, frame.payload))], buffer, true)
    case Close =>
      Outcome([EncodeAll(buffer), Encode(SingleFrame(Close, frame.payload))], DrainAll(buffer), false)
    case Unknown =>
      Outcome([Encode(SingleFrame(Close, UnknownOpcodeClosePayload()))], buffer, false)
    case _ =>
      var grown := buffer + [frame];
      if frame.fin then Outcome([EncodeAll(grown)], DrainAll(grown), true)
      else Outcome([], grown, true)
  }

  /** `build_message(opcode, payload).serialize()`: a one-frame reply. */
  method Reply(opcode: OpCode, payload: seq<byte>) returns (bytes: seq<byte>)
    requires opcode != Unknown && |payload| < 0x1_0000_0000_0000_0000
    ensures bytes == Encode(SingleFrame(opcode, payload))
  {
    var msg := BuildMessage(opcode, payload);
    bytes := msg.Serialize();
    EncodeAllSnoc([], SingleFrame(opcode, payload));
    assert [] + [SingleFrame(opcode, payload)] == [SingleFrame(opcode, payload)];
  }

  /** One iteration of the loop on the inbound message: the read result in,
      the writes and the decision to go on out. */
  method Step(inbound: Message, ev: ReadResult) returns (writes: seq<seq<byte>>, proceed: bool)
    requires DataOnly(inbound.frames)
    modifies inbound
    ensures DataOnly(inbound.frames)
    ensures Outcome(writes, inbound.frames, proceed) == Next(old(inbound.frames), ev)
  {
    if ev.ReadFailed? || |ev.data| == 0 {
      return [], false;
    }
    var parsed := ParseFrame(ev.data);
    if parsed.Err? {
      return [], true;
    }
    writes, proceed := Handle(inbound, parsed.value);
  }

  /** The match on the opcode of a parsed frame. */
  method Handle(inbound: Message, frame: Frame) returns (writes: seq<seq<byte>>, proceed: bool)
    requires DataOnly(inbound.frames) && WellFormed(frame)
    modifies inbound
    ensures Outcome(writes, inbound.frames, proceed) == Respond(old(inbound.frames), frame)
  {
    if frame.opcode == Ping || frame.opcode == Pong {
      var bytes := Reply(Pong, frame.payload);
      writes, proceed := [bytes], true;
    } else if frame.opcode == Close {
      var buffered := inbound.Serialize();
      var bytes := Reply(Close, frame.payload);
      writes, proceed := [buffered, bytes], false;
    } else if frame.opcode == Unknown {
      var bytes := Reply(Close, CloseFramePayload(Unexpected, UnknownOpcodeReason));
      writes, proceed := [bytes], false;
    } else {
      inbound.frames := inbound.frames + [frame];
      if frame.fin {
        var msg := inbound.Serialize();
        writes := [msg];
      } else {
        writes := [];
      }
      proceed := true;
    }
  }

  /** What a session does with a sequence of reads: everything it writes, the
      inbound buffer at the end, and how many reads it consumed before
      stopping. Reads after the one that stops the loop are never made. */
  datatype Trace = Trace(writes: seq<seq<byte>>, buffer: seq<Frame>, consumed: nat)

  function Run(buffer: seq<Frame>, events: seq<ReadResult>): (t: Trace)
    requires DataOnly(buffer)
    ensures DataOnly(t.buffer)
    ensures t.consumed <= |events| && (events != [] ==> t.consumed >= 1)
    ensures forall j :: 0 <= j < t.consumed - 1 ==> !Terminates(events[j])
    ensures t.consumed < |events| ==> Terminates(events[t.consumed - 1])
    decreases |events|
  {
    if events == [] then Trace([], buffer, 0)
    else
      var o := Next(buffer, events[0]);
      if !o.proceed then Trace(o.writes, o.buffer, 1)
      else
        var t := Run(o.buffer, events[1..]);
        Trace(o.writes + t.writes, t.buffer, 1 + t.consumed)
  }

  /** One step of a run. */
  lemma RunUnfold(buffer: seq<Frame>, events: seq<ReadResult>)
    requires DataOnly(buffer) && events != []
    ensures var o, t := Next(buffer, events[0]), Run(buffer, events);
            && (!o.proceed ==> t.writes == o.writes && t.consumed == 1)
            && (o.proceed ==> t.writes == o.writes + Run(o.buffer, events[1..]).writes
                              && t.consumed == 1 + Run(o.buffer, events[1..]).consumed)
  {
  }

  /** `start_websocket_session`: a fresh, empty inbound message, then one
      step per read until a step says stop or the reads run out. */
  method RunSession(events: seq<ReadResult>) returns (writes: seq<seq<byte>>, consumed: nat)
    ensures writes == Run([], events).writes && consumed == Run([], events).consumed
  {
    var inbound := new Message([]);
    ghost var full := Run([], events);
    writes := [];
    var i := 0;
    var proceed := true;
    while i < |events| && proceed
      invariant 0 <= i <= |events| && DataOnly(inbound.frames)
      invariant proceed ==> && writes + Run(inbound.frames, events[i..]).writes == full.writes
                            && i + Run(inbound.frames, events[i..]).consumed == full.consumed
      invariant !proceed ==> writes == full.writes && i == full.consumed
      decreases |events| - i
    {
      ghost var before := inbound.frames;
      var w, go := Step(inbound, events[i]);
      RunUnfold(before, events[i..]);
      assert events[i..][0] == events[i] && events[i..][1..] == events[i + 1..];
      if go {
        AppendAssociative(writes, w, Run(inbound.frames, events[i + 1..]).writes);
      }
      writes := writes + w;
      proceed := go;
      i := i + 1;
    }
    consumed := i;
  }

  /** Ping and Pong are both answered with one Pong carrying the same
      payload; the buffer is left alone and the loop goes on. */
  lemma PingAnsweredWithPong(buffer: seq<Frame>, frame: Frame)
    requires DataOnly(buffer) && WellFormed(frame) && frame.opcode in {Ping, Pong}
    ensures var o := Respond(buffer, frame);
            && |o.writes| == 1 && o.buffer == buffer && o.proceed
            && Decode(o.writes[0]) == Ok(Frame(true, Pong, false, |frame.payload|, frame.payload))
  {
  }

  /** Close writes the buffered frames, then echoes the Close with its
      payload, and stops; the buffered frames are drained by the write. */
  lemma CloseFlushesThenEchoes(buffer: seq<Frame>, frame: Frame)
    requires DataOnly(buffer) && WellFormed(frame) && frame.opcode == Close
    ensures var o := Respond(buffer, frame);
            && |o.writes| == 2 && o.writes[0] == EncodeAll(buffer) && !o.proceed
            && Decode(o.writes[1]) == Ok(Frame(true, Close, false, |frame.payload|, frame.payload))
            && o.buffer == DrainAll(buffer)
  {
  }

  /** An unknown opcode is answered with one Close frame whose body is status
      1011 (bytes 03 F3) and the UTF-8 reason "Unknown OpCode", and the loop
      stops. */
  lemma UnknownOpcodeAnsweredWith1011(buffer: seq<Frame>, frame: Frame)
    requires DataOnly(buffer) && WellFormed(frame) && frame.opcode == Unknown
    ensures var o, p := Respond(buffer, frame), UnknownOpcodeClosePayload();
            && |o.writes| == 1 && o.buffer == buffer && !o.proceed
            && Decode(o.writes[0]) == Ok(Frame(true, Close, false, |p|, p))
            && p[..2] == [0x03, 0xF3] && p[2..] == Utf8(UnknownOpcodeReason)
  {
    UnexpectedCloseCodeBytes(UnknownOpcodeReason);
  }

  /** A data frame is appended to the buffer. When it is final the whole
      buffer is written, frame after frame, ending with this frame, which the
      client parses back at the offset where the earlier frames end; every
      buffered frame is drained. A non-final frame writes nothing. */
  lemma DataFrameBufferedThenEchoed(buffer: seq<Frame>, frame: Frame)
    requires DataOnly(buffer) && WellFormed(frame) && IsData(frame)
    ensures var o := Respond(buffer, frame);
            && o.proceed && |o.buffer| == |buffer| + 1
            && (!frame.fin ==> o.writes == [] && o.buffer == buffer + [frame])
            && (frame.fin ==> && o.writes == [EncodeAll(buffer) + Encode(frame)]
                              && Decode(o.writes[0][|EncodeAll(buffer)|..]) == Ok(frame.(mask := false))
                              && forall k :: 0 <= k < |o.buffer| ==> o.buffer[k].payload == [])
  {
    if frame.fin {
      EncodeAllSnoc(buffer, frame);
      var out := EncodeAll(buffer) + Encode(frame);
      assert out[|EncodeAll(buffer)|..] == Encode(frame) + [];
      DecodeEncode(frame, []);
    }
  }

  /** The number of reads among `events` whose frame goes into the buffer. */
  function DataFrameCount(events: seq<ReadResult>): nat
  {
    if events == [] then 0
    else
      var e := events[0];
      (if e.Received? && Decode(e.data).Ok? && IsData(Decode(e.data).value) then 1 else 0)
      + DataFrameCount(events[1..])
  }

  /** The inbound buffer is never emptied: every data frame read stays in it
      for the rest of the session. */
  lemma {:induction false} BufferKeepsEveryDataFrame(buffer: seq<Frame>, events: seq<ReadResult>)
    requires DataOnly(buffer)
    ensures var t := Run(buffer, events);
            |t.buffer| == |buffer| + DataFrameCount(events[..t.consumed])
    decreases |events|
  {
    if events != [] {
      var e, o, t := events[0], Next(buffer, events[0]), Run(buffer, events);
      NextGrowsBufferByDataFrame(buffer, e);
      if o.proceed {
        BufferKeepsEveryDataFrame(o.buffer, events[1..]);
        var rest := Run(o.buffer, events[1..]);
        var prefix := events[..t.consumed];
        assert prefix[0] == e && prefix[1..] == events[1..][..rest.consumed];
      } else {
        assert events[..1] == [e];
      }
    }
  }

  /** One read adds its frame to the buffer when it is a data frame, and
      nothing otherwise. */
  lemma NextGrowsBufferByDataFrame(buffer: seq<Frame>, e: ReadResult)
    requires DataOnly(buffer)
    ensures |Next(buffer, e).buffer| == |buffer| + DataFrameCount([e])
  {
    assert [e][1..] == [];
  }

  // The buffer is never cleared, and serialising it drains the payloads of
  // its frames while keeping their declared lengths. A second complete
  // message therefore echoes the first one's headers with no payload bytes
  // behind them, and the client reads the new bytes as the old frame's
  // payload. The corrected loop below starts a new message after each echo.

  /** The two-byte text frame "hi", unmasked, as a client may send it. */
  const Hi: seq<byte> := [0x81, 0x02, 0x68, 0x69]

  function HiFrame(): Frame
  {
    Frame(true, Text, false, 2, [0x68, 0x69])
  }

  lemma HiFrameBytes()
    ensures Encode(HiFrame()) == Hi
    ensures Decode(Hi) == Ok(HiFrame())
  {
    assert HeaderByte(true, Text) == 0x81;
    assert LengthField(2) == [2];
    DecodeEncodeExact(HiFrame());
  }

  /** Two "hi" messages in a row: the first echo is right, the second is the
      drained header of the first followed by "hi", which the client parses
      as one text frame whose payload is the bytes 81 02. */
  lemma StaleEchoWitness()
    ensures Run([], [Received(Hi), Received(Hi)]).writes == [Hi, [0x81, 0x02] + Hi]
    ensures Decode([0x81, 0x02] + Hi) == Ok(Frame(true, Text, false, 2, [0x81, 0x02]))
  {
    var e := Received(Hi);
    FirstHi();
    SecondHi();
    RunUnfold([], [e, e]);
    assert [e, e][1..] == [e];
    RunUnfold([StaleHi()], [e]);
    assert [e][1..] == [];
    assert [[0x81, 0x02] + Hi] + [] == [[0x81, 0x02] + Hi];
    StaleEchoParse();
  }

  /** "hi" after it has been written: the header stays, the payload is gone. */
  function StaleHi(): Frame
  {
    HiFrame().(payload := [])
  }

  lemma NextOnHi(buffer: seq<Frame>)
    requires DataOnly(buffer)
    ensures Next(buffer, Received(Hi)) == Respond(buffer, HiFrame())
    ensures NextClearing(buffer, Received(Hi)) == RespondClearing(buffer, HiFrame())
  {
    HiFrameBytes();
  }

  /** The first "hi" is echoed as sent, in both loops. */
  lemma FirstHi()
    ensures Next([], Received(Hi)) == Outcome([Hi], [StaleHi()], true)
    ensures NextClearing([], Received(Hi)) == Outcome([Hi], [], true)
  {
    var f := HiFrame();
    NextOnHi([]);
    EchoOfFinalFrame([], f);
    HiFrameBytes();
    assert Encodings([]) == [];
    assert [] + [f] == [f] && DrainAll([f]) == [StaleHi()] && [] + Hi == Hi;
  }

  /** The second "hi" is echoed behind the drained first one. */
  lemma SecondHi()
    ensures Next([StaleHi()], Received(Hi)).writes == [[0x81, 0x02] + Hi]
    ensures Next([StaleHi()], Received(Hi)).proceed
  {
    var f, g := HiFrame(), StaleHi();
    NextOnHi([g]);
    EchoOfFinalFrame([g], f);
    HiFrameBytes();
    EncodeAllSnoc([], g);
    assert Encodings([]) == [];
    assert [] + [g] == [g];
    assert Encode(g) == [0x81, 0x02] by {
      assert HeaderByte(true, Text) == 0x81 && LengthField(2) == [2];
    }
    assert EncodeAll([]) == [];
    assert EncodeAll([g]) == [0x81, 0x02];
  }

  /** The answer to a final data frame, as the witnesses use it. */
  lemma EchoOfFinalFrame(buffer: seq<Frame>, frame: Frame)
    requires DataOnly(buffer) && WellFormed(frame) && IsData(frame) && frame.fin
    ensures Respond(buffer, frame) == Outcome([EncodeAll(buffer) + Encode(frame)], DrainAll(buffer + [frame]), true)
    ensures RespondClearing(buffer, frame) == Outcome([EncodeAll(buffer) + Encode(frame)], [], true)
  {
    EncodeAllSnoc(buffer, frame);
  }

  lemma StaleEchoParse()
    ensures Decode([0x81, 0x02] + Hi) == Ok(Frame(true, Text, false, 2, [0x81, 0x02]))
  {
    var h := Frame(true, Text, false, 2, [0x81, 0x02]);
    assert Encode(h) == [0x81, 0x02, 0x81, 0x02] by {
      assert HeaderByte(true, Text) == 0x81 && LengthField(2) == [2];
    }
    assert [0x81, 0x02] + Hi == Encode(h) + [0x68, 0x69];
    DecodeEncode(h, [0x68, 0x69]);
  }

  /** Every buffered frame still holds the payload its header declares. */
  predicate AllWellFormed(buffer: seq<Frame>)
  {
    forall i :: 0 <= i < |buffer| ==> WellFormed(buffer[i])
  }

  /** The corrected answer to a frame: the same, except that once the buffer
      has been written it is replaced by an empty message. */
  function RespondClearing(buffer: seq<Frame>, frame: Frame): (o: Outcome)
    requires DataOnly(buffer) && WellFormed(frame)
    ensures DataOnly(o.buffer)
    ensures o.proceed <==> frame.opcode !in {Close, Unknown}
  {
    match frame.opcode
    case Ping => Outcome([Encode(SingleFrame(Pong, frame.payload))], buffer, true)
    case Pong => Outcome([Encode(SingleFrame(Pong, frame.payload))], buffer, true)
    case Close => Outcome([EncodeAll(buffer), Encode(SingleFrame(Close, frame.payload))], [], false)
    case Unknown => Outcome([Encode(SingleFrame(Close, UnknownOpcodeClosePayload()))], buffer, false)
    case _ =>
      var grown := buffer + [frame];
      if frame.fin then Outcome([EncodeAll(grown)], [], true) else Outcome([], grown, true)
  }

  function NextClearing(buffer: seq<Frame>, ev: ReadResult): (o: Outcome)
    requires DataOnly(buffer)
    ensures DataOnly(o.buffer)
    ensures o.proceed <==> !Terminates(ev)
    ensures ev.ReadFailed? || ev.data == [] || Decode(ev.data).Err? ==> o.writes == [] && o.buffer == buffer
  {
    match ev
    case ReadFailed => Outcome([], buffer, false)
    case Received(data) =>
      if data == [] then Outcome([], buffer, false)
      else
        match Decode(data)
        case Err(_) => Outcome([], buffer, true)
        case Ok(frame) => RespondClearing(buffer, frame)
  }

  function RunClearing(buffer: seq<Frame>, events: seq<ReadResult>): (t: Trace)
    requires DataOnly(buffer)
    ensures DataOnly(t.buffer)
    ensures t.consumed <= |events|
    decreases |events|
  {
    if events == [] then Trace([], buffer, 0)
    else
      var o := NextClearing(buffer, events[0]);
      if !o.proceed then Trace(o.writes, o.buffer, 1)
      else
        var t := RunClearing(o.buffer, events[1..]);
        Trace(o.writes + t.writes, t.buffer, 1 + t.consumed)
  }

  /** With the buffer cleared, no buffered frame ever loses its payload. */
  lemma ClearingKeepsFramesWhole(buffer: seq<Frame>, ev: ReadResult)
    requires DataOnly(buffer) && AllWellFormed(buffer)
    ensures AllWellFormed(NextClearing(buffer, ev).buffer)
  {
  }

  /** With the buffer cleared, the echo of a complete message is its frames
      written one after the other: the client parses frame k, unmasked, at
      the offset where the frames before it end. */
  lemma ClearedEchoParses(buffer: seq<Frame>, frame: Frame)
    requires DataOnly(buffer) && AllWellFormed(buffer) && WellFormed(frame)
    requires IsData(frame) && frame.fin
    ensures var o, msg := RespondClearing(buffer, frame), buffer + [frame];
            && o.writes == [EncodeAll(msg)] && o.buffer == [] && o.proceed
            && forall k :: 0 <= k < |msg| ==>
                 Encodable(msg[..k]) && |EncodeAll(msg[..k])| <= |EncodeAll(msg)|
                 && Decode(EncodeAll(msg)[|EncodeAll(msg[..k])|..]) == Ok(msg[k].(mask := false))
  {
    var msg := buffer + [frame];
    assert Encodable(msg) && AllWellFormed(msg);
    forall k | 0 <= k < |msg|
      ensures Encodable(msg[..k]) && |EncodeAll(msg[..k])| <= |EncodeAll(msg)|
      ensures Decode(EncodeAll(msg)[|EncodeAll(msg[..k])|..]) == Ok(msg[k].(mask := false))
    {
      DecodeAtFrameBoundary(msg, k);
    }
  }

  /** The corrected loop echoes the second "hi" as "hi". */
  lemma ClearingEchoWitness()
    ensures RunClearing([], [Received(Hi), Received(Hi)]).writes == [Hi, Hi]
  {
    var e := Received(Hi);
    FirstHi();
    RunClearingUnfold([], [e, e]);
    assert [e, e][1..] == [e];
    RunClearingUnfold([], [e]);
    assert [e][1..] == [];
    assert [Hi] + [] == [Hi];
  }

  lemma RunClearingUnfold(buffer: seq<Frame>, events: seq<ReadResult>)
    requires DataOnly(buffer) && events != []
    ensures var o, t := NextClearing(buffer, events[0]), RunClearing(buffer, events);
            && (!o.proceed ==> t.writes == o.writes)
            && (o.proceed ==> t.writes == o.writes + RunClearing(o.buffer, events[1..]).writes)
  {
  }
}
