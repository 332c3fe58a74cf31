/** The frame codec of src/websocket/frame.rs: the base framing of section 5.2
    of RFC 6455 as this server reads it (masked or not) and writes it (never
    masked), the two opcode maps, single-frame messages and the Close body of
    section 5.5.1. */
module Frames {
  import opened Wire

  /** The opcodes the server tells apart; every other 4-bit value is Unknown
      (Binary, opcode 2, among them). */
  datatype OpCode = Text | Continuation | Ping | Pong | Close | Unknown

  /** `deserialize_opcode`: the 4-bit opcode field to an opcode. */
  function DeserializeOpcode(op: byte): (c: OpCode)
    ensures c != Unknown <==> op == 0 || op == 1 || op == 8 || op == 9 || op == 10
  {
    match op
    case 0 => Continuation
    case 1 => Text
    case 8 => Close
    case 9 => Ping
    case 10 => Pong
    case _ => Unknown
  }

  /** `serialize_opcode`: the wire value of a known opcode. The source reaches
      `unreachable!` on Unknown, so Unknown is excluded here. */
  function SerializeOpcode(c: OpCode): (op: byte)
    requires c != Unknown
    ensures op < 0x10
    ensures DeserializeOpcode(op) == c
  {
    match c
    case Continuation => 0
    case Text => 1
    case Close => 8
    case Ping => 9
    case Pong => 10
  }

  /** The other direction: a known opcode field is written back unchanged. */
  lemma OpcodeRoundTrip(op: byte)
    requires DeserializeOpcode(op) != Unknown
    ensures SerializeOpcode(DeserializeOpcode(op)) == op
  {
  }

  /** One frame. `payload` is already unmasked; `mask` records whether the
      frame arrived masked. A parsed frame has exactly `payloadLen` payload
      bytes; a serialised one has none left (see Message.SerializeFrame). */
  datatype Frame = Frame(fin: bool, opcode: OpCode, mask: bool, payloadLen: u64, payload: seq<byte>)

  /** The reasons `parse_frame` gives for refusing a buffer. */
  datatype ParseError =
    | HeaderTooShort            // fewer than 2 bytes
    | ExtendedLength16TooShort  // sentinel 126 without its 2 length bytes
    | ExtendedLength64TooShort  // sentinel 127 without its 8 length bytes
    | MaskingKeyTooShort        // mask bit set without 4 key bytes
    | PayloadTooShort           // fewer bytes left than the declared length

  /** The number of extended-length bytes that the second header byte announces. */
  function ExtendedLengthSize(b1: byte): nat
  {
    if b1 % 0x80 == 126 then 2 else if b1 % 0x80 == 127 then 8 else 0
  }

  /** The header length the second byte announces: two fixed bytes, the
      extended length and the masking key. */
  function HeaderSize(b1: byte): nat
  {
    2 + ExtendedLengthSize(b1) + (if b1 >= 0x80 then 4 else 0)
  }

  /** The payload length a header declares: the 7-bit field, or the big-endian
      number that follows sentinel 126 or 127. */
  function DeclaredLength(buf: seq<byte>): (n: u64)
    requires |buf| >= 2 && |buf| >= 2 + ExtendedLengthSize(buf[1])
    ensures buf[1] % 0x80 <= 125 ==> n == buf[1] % 0x80
    ensures buf[1] % 0x80 == 126 ==> n == buf[2] as int * 0x100 + buf[3] as int
    ensures buf[1] % 0x80 == 127 ==> n == FromBigEndian(buf[2..10])
  {
    Pow256Values();
    if buf[1] % 0x80 == 126 then
      FromBigEndianPair(buf[2..4]);
      FromBigEndian(buf[2..4])
    else if buf[1] % 0x80 == 127 then FromBigEndian(buf[2..10])
    else buf[1] % 0x80
  }

  /** The masking key: the four bytes before the payload of a masked frame. */
  function MaskingKey(buf: seq<byte>): (key: seq<byte>)
    requires |buf| >= 2 && |buf| >= HeaderSize(buf[1])
    ensures buf[1] >= 0x80 ==> |key| == 4
  {
    if buf[1] >= 0x80 then buf[HeaderSize(buf[1]) - 4..HeaderSize(buf[1])] else []
  }

  /** Payload bytes XOR-ed with the masking key byte at i mod 4 when masked,
      copied verbatim otherwise (section 5.3 of RFC 6455). */
  function Unmask(data: seq<byte>, masked: bool, key: seq<byte>): (r: seq<byte>)
    requires masked ==> |key| == 4
    ensures |r| == |data|
  {
    seq(|data|, i requires 0 <= i < |data| => if masked then Xor(data[i], key[i % 4]) else data[i])
  }

  /** What `parse_frame` computes from a buffer, stage by stage. */
  function Decode(buf: seq<byte>): (r: Result<Frame, ParseError>)
    ensures r.Ok? ==> |buf| >= 2 && |buf| >= HeaderSize(buf[1]) + r.value.payloadLen
    ensures r.Ok? ==> |r.value.payload| == r.value.payloadLen
  {
    if |buf| < 2 then Err(HeaderTooShort)
    else if |buf| < 2 + ExtendedLengthSize(buf[1]) then
      if buf[1] % 0x80 == 126 then Err(ExtendedLength16TooShort) else Err(ExtendedLength64TooShort)
    else if |buf| < HeaderSize(buf[1]) then Err(MaskingKeyTooShort)
    else
      var h, len := HeaderSize(buf[1]), DeclaredLength(buf);
      if |buf| < h + len then Err(PayloadTooShort)
      else
        var masked := buf[1] >= 0x80;
        Ok(Frame(buf[0] >= 0x80, DeserializeOpcode(buf[0] % 0x10), masked, len,
                 Unmask(buf[h..h + len], masked, MaskingKey(buf))))
  }

  /** `parse_frame`: reads the header fields, advancing a byte offset, then
      copies (and unmasks) the payload one byte at a time. */
  method ParseFrame(buf: seq<byte>) returns (r: Result<Frame, ParseError>)
    ensures r == Decode(buf)
  {
    if |buf| < 2 {
      return Err(HeaderTooShort);
    }
    var partOne, partTwo := buf[0], buf[1];
    var isFin := partOne >= 0x80;
    var opCode := partOne % 0x10;
    var isMasked := partTwo >= 0x80;
    var payloadLen: nat := partTwo % 0x80;
    var offset := 2;

    if payloadLen == 126 {
      if |buf| < offset + 2 {
        return Err(ExtendedLength16TooShort);
      }
      payloadLen := FromBigEndian([buf[offset], buf[offset + 1]]);
      assert [buf[2], buf[3]] == buf[2..4];
      offset := offset + 2;
    } else if payloadLen == 127 {
      if |buf| < offset + 8 {
        return Err(ExtendedLength64TooShort);
      }
      payloadLen := FromBigEndian(buf[offset..offset + 8]);
      offset := offset + 8;
    }
    assert offset == 2 + ExtendedLengthSize(partTwo);
    assert payloadLen == DeclaredLength(buf);

    var maskingKey: seq<byte> := [];
    if isMasked {
      if |buf| < offset + 4 {
        return Err(MaskingKeyTooShort);
      }
      maskingKey := buf[offset..offset + 4];
      offset := offset + 4;
    }
    assert offset == HeaderSize(partTwo) && maskingKey == MaskingKey(buf);

    if |buf| < offset + payloadLen {
      return Err(PayloadTooShort);
    }

    var payload := CopyPayload(buf, offset, payloadLen, isMasked, maskingKey);
    return Ok(Frame(isFin, DeserializeOpcode(opCode), isMasked, payloadLen, payload));
  }

  /** The payload loop of `parse_frame`: the bytes after the header pushed one
      at a time, each XOR-ed with the masking key when the frame is masked. */
  method CopyPayload(buf: seq<byte>, offset: nat, len: nat, masked: bool, key: seq<byte>)
    returns (payload: seq<byte>)
    requires offset + len <= |buf| && (masked ==> |key| == 4)
    ensures payload == Unmask(buf[offset..offset + len], masked, key)
  {
    payload := [];
    var i := 0;
    while i < len
      invariant 0 <= i <= len
      invariant |payload| == i
      invariant forall j :: 0 <= j < i ==>
                  payload[j] == if masked then Xor(buf[offset + j], key[j % 4]) else buf[offset + j]
    {
      var b := buf[offset + i];
      if masked {
        b := Xor(b, key[i % 4]);
      }
      payload := payload + [b];
      i := i + 1;
    }
  }

  /** The header fields of a parsed frame: fin is bit 7 of the first byte, the
      opcode its low nibble, the mask flag bit 7 of the second byte, and the
      length the one the header declares. */
  lemma DecodeHeader(buf: seq<byte>)
    requires Decode(buf).Ok?
    ensures Decode(buf).value.fin == (buf[0] >= 0x80)
    ensures Decode(buf).value.opcode == DeserializeOpcode(buf[0] % 0x10)
    ensures Decode(buf).value.mask == (buf[1] >= 0x80)
    ensures Decode(buf).value.payloadLen == DeclaredLength(buf)
  {
  }

  /** Whether a buffer holds a whole frame: at least the header its first two
      bytes announce and the payload length that header declares. */
  predicate HoldsWholeFrame(buf: seq<byte>)
  {
    && |buf| >= 2
    && |buf| >= HeaderSize(buf[1])
    && |buf| >= HeaderSize(buf[1]) + DeclaredLength(buf)
  }

  /** `parse_frame` fails exactly on buffers that stop short of the header or
      of the payload, and each shortfall has its own error. */
  lemma DecodeFailsIffShort(buf: seq<byte>)
    ensures Decode(buf).Ok? <==> HoldsWholeFrame(buf)
    ensures |buf| < 2 ==> Decode(buf) == Err(HeaderTooShort)
    ensures |buf| >= 2 && buf[1] % 0x80 == 126 && |buf| < 4 ==> Decode(buf) == Err(ExtendedLength16TooShort)
    ensures |buf| >= 2 && buf[1] % 0x80 == 127 && |buf| < 10 ==> Decode(buf) == Err(ExtendedLength64TooShort)
    ensures |buf| >= 2 && |buf| >= 2 + ExtendedLengthSize(buf[1]) && |buf| < HeaderSize(buf[1])
            ==> Decode(buf) == Err(MaskingKeyTooShort)
    ensures |buf| >= 2 && |buf| >= HeaderSize(buf[1]) && |buf| < HeaderSize(buf[1]) + DeclaredLength(buf)
            ==> Decode(buf) == Err(PayloadTooShort)
  {
  }

  /** The payload of a parsed frame, byte by byte: the bytes after the header,
      each XOR-ed with key byte i mod 4 when the frame is masked. */
  lemma DecodePayload(buf: seq<byte>, i: nat)
    requires Decode(buf).Ok? && i < Decode(buf).value.payloadLen
    ensures HeaderSize(buf[1]) + i < |buf|
    ensures var h := HeaderSize(buf[1]);
            var k := 2 + ExtendedLengthSize(buf[1]);
            Decode(buf).value.payload[i] == if buf[1] >= 0x80 then Xor(buf[h + i], buf[k + i % 4]) else buf[h + i]
  {
  }

  /** Bytes after a complete frame do not change what is parsed. */
  lemma DecodeIgnoresTrailingBytes(buf: seq<byte>, extra: seq<byte>)
    requires Decode(buf).Ok?
    ensures Decode(buf + extra) == Decode(buf)
  {
    var b := buf + extra;
    assert b[0] == buf[0] && b[1] == buf[1];
    DeclaredLengthPrefix(buf, extra);
    MaskingKeyPrefix(buf, extra);
    var h, n := HeaderSize(buf[1]), Decode(buf).value.payloadLen;
    assert b[h..h + n] == buf[h..h + n];
  }

  lemma DeclaredLengthPrefix(buf: seq<byte>, extra: seq<byte>)
    requires |buf| >= 2 && |buf| >= 2 + ExtendedLengthSize(buf[1])
    ensures DeclaredLength(buf + extra) == DeclaredLength(buf)
  {
    var b := buf + extra;
    if buf[1] % 0x80 == 127 {
      assert b[2..10] == buf[2..10];
    }
  }

  lemma MaskingKeyPrefix(buf: seq<byte>, extra: seq<byte>)
    requires |buf| >= 2 && |buf| >= HeaderSize(buf[1])
    ensures MaskingKey(buf + extra) == MaskingKey(buf)
  {
    var b, h := buf + extra, HeaderSize(buf[1]);
    if buf[1] >= 0x80 {
      assert b[h - 4..h] == buf[h - 4..h];
    }
  }

  /** The reserved bits 4-6 of the first byte are ignored: clearing them does
      not change the parse. */
  lemma DecodeIgnoresReservedBits(buf: seq<byte>)
    requires |buf| >= 1
    ensures Decode(buf[0 := (buf[0] / 0x80) * 0x80 + buf[0] % 0x10]) == Decode(buf)
  {
    var b := buf[0 := (buf[0] / 0x80) * 0x80 + buf[0] % 0x10];
    assert b[0] % 0x10 == buf[0] % 0x10 && (b[0] >= 0x80) == (buf[0] >= 0x80);
    if |buf| >= 2 && |buf| >= 2 + ExtendedLengthSize(buf[1]) {
      assert b[1] == buf[1];
      if buf[1] % 0x80 == 127 {
        assert b[2..10] == buf[2..10];
      }
      assert DeclaredLength(b) == DeclaredLength(buf);
      var h, n := HeaderSize(buf[1]), DeclaredLength(buf);
      if |buf| >= h {
        if buf[1] >= 0x80 {
          assert b[h - 4..h] == buf[h - 4..h];
        }
        assert MaskingKey(b) == MaskingKey(buf);
        if |buf| >= h + n {
          assert b[h..h + n] == buf[h..h + n];
        }
      }
    }
  }

  /** A header with the 64-bit length form, all its length bytes FF (the
      largest length, 2^64 - 1) and no payload behind it, is refused as too
      short. */
  lemma AllOnesLengthRefused()
    ensures var buf: seq<byte> := [0x81, 0x7F, 0xFF, 0xFF, 0xFF, 0xFF, 0xFF, 0xFF, 0xFF, 0xFF];
            DeclaredLength(buf) >= 0xFF && Decode(buf) == Err(PayloadTooShort)
  {
    var buf: seq<byte> := [0x81, 0x7F, 0xFF, 0xFF, 0xFF, 0xFF, 0xFF, 0xFF, 0xFF, 0xFF];
    var len := buf[2..10];
    assert FromBigEndian(len) == FromBigEndian(len[..7]) * 256 + 0xFF;
    assert HeaderSize(buf[1]) == 10;
  }

  /** `(fin << 7) | opcode`: the opcode has only its four low bits, so the OR
      is a sum. */
  function HeaderByte(fin: bool, opcode: OpCode): byte
    requires opcode != Unknown
  {
    (if fin then 0x80 else 0) + SerializeOpcode(opcode)
  }

  /** The second header byte (mask bit clear) and the extended length: the
      length itself up to 125, else 126 and two big-endian bytes when it fits
      in 16 bits, else 127 and eight big-endian bytes. */
  function LengthField(n: u64): (r: seq<byte>)
    ensures |r| == 1 + (if n <= 125 then 0 else if n < 0x1_0000 then 2 else 8)
    ensures r[0] < 0x80
  {
    if n <= 125 then [n]
    else if n < 0x1_0000 then [126] + BigEndian(n, 2)
    else [127] + BigEndian(n, 8)
  }

  /** The server's encoding of a frame: header byte, length field, payload.
      No masking key is written. */
  function Encode(f: Frame): seq<byte>
    requires f.opcode != Unknown
  {
    [HeaderByte(f.fin, f.opcode)] + LengthField(f.payloadLen) + f.payload
  }

  /** The length encoding at its boundaries: 125 in the base byte, 126 and
      65535 with the 16-bit form, 65536 with the 64-bit form. */
  lemma LengthFieldBoundaries()
    ensures LengthField(125) == [125]
    ensures LengthField(126) == [126, 0, 126]
    ensures LengthField(0xFFFF) == [126, 0xFF, 0xFF]
    ensures LengthField(0x1_0000) == [127, 0, 0, 0, 0, 0, 1, 0, 0]
  {
  }

  /** The first header byte gives back fin (bit 7) and the opcode (low nibble). */
  lemma HeaderByteFields(fin: bool, opcode: OpCode)
    requires opcode != Unknown
    ensures (HeaderByte(fin, opcode) >= 0x80) == fin
    ensures DeserializeOpcode(HeaderByte(fin, opcode) % 0x10) == opcode
  {
    assert HeaderByte(fin, opcode) % 0x10 == SerializeOpcode(opcode);
  }

  /** The length field, with the mask bit set or not, read back by the parser
      from bytes 1 onwards of a buffer: it gives the length and the mask flag,
      and the header ends after the key when there is one. */
  lemma {:induction false} LengthFieldRoundTrip(n: u64, maskBit: bool, buf: seq<byte>)
    requires |buf| >= 1 + |LengthField(n)|
    requires buf[1] == LengthField(n)[0] + (if maskBit then 0x80 else 0)
    requires buf[2..1 + |LengthField(n)|] == LengthField(n)[1..]
    ensures (buf[1] >= 0x80) == maskBit
    ensures HeaderSize(buf[1]) == 1 + |LengthField(n)| + (if maskBit then 4 else 0)
    ensures DeclaredLength(buf) == n
  {
    var lf := LengthField(n);
    assert buf[1] % 0x80 == lf[0];
    Pow256Values();
    if n > 125 {
      var w := |lf| - 1;
      assert buf[2..2 + w] == BigEndian(n, w);
      BigEndianRoundTrip(n, w);
      if w == 2 {
        FromBigEndianPair(buf[2..4]);
      }
    }
  }

  /** Parsing exactly what the server writes gives back the frame, unmasked. */
  lemma DecodeEncodeExact(f: Frame)
    requires f.opcode != Unknown && |f.payload| == f.payloadLen
    ensures Decode(Encode(f)) == Ok(f.(mask := false))
  {
    var n, lf, b0 := f.payloadLen, LengthField(f.payloadLen), HeaderByte(f.fin, f.opcode);
    var buf, m := Encode(f), 1 + |LengthField(f.payloadLen)|;
    assert buf[0] == b0 && buf[1] == lf[0] && buf[2..m] == lf[1..] && buf[m..] == f.payload by {
      assert buf == [b0] + lf + f.payload;
    }
    LengthFieldRoundTrip(n, false, buf);
    HeaderByteFields(f.fin, f.opcode);
    assert buf[m..m + n] == f.payload;
    UnmaskedIsCopy(f.payload, MaskingKey(buf));
  }

  /** Without the mask bit the payload is copied as it is. */
  lemma UnmaskedIsCopy(data: seq<byte>, key: seq<byte>)
    ensures Unmask(data, false, key) == data
  {
  }

  /** Parsing what the server writes gives back the frame (now unmasked), for
      every known opcode and every payload that matches its length, whatever
      follows it in the buffer. */
  lemma DecodeEncode(f: Frame, rest: seq<byte>)
    requires f.opcode != Unknown && |f.payload| == f.payloadLen
    ensures Decode(Encode(f) + rest) == Ok(f.(mask := false))
  {
    DecodeEncodeExact(f);
    DecodeIgnoresTrailingBytes(Encode(f), rest);
  }

  /** What a client writes: the same header with the mask bit set, the
      masking key, then the payload masked with it (section 5.3 of RFC 6455).
      The server never writes this; it states what the parser undoes. */
  ghost function ClientEncode(f: Frame, key: seq<byte>): seq<byte>
    requires f.opcode != Unknown && |key| == 4
  {
    var lf := LengthField(f.payloadLen);
    [HeaderByte(f.fin, f.opcode)] + [lf[0] + 0x80] + lf[1..] + key + Unmask(f.payload, true, key)
  }

  /** A frame masked by a client with any key parses back to the original
      payload: unmasking undoes masking. */
  lemma DecodeClientEncode(f: Frame, key: seq<byte>)
    requires f.opcode != Unknown && |f.payload| == f.payloadLen && |key| == 4
    ensures Decode(ClientEncode(f, key)) == Ok(f.(mask := true))
  {
    var n, lf, b0 := f.payloadLen, LengthField(f.payloadLen), HeaderByte(f.fin, f.opcode);
    var masked := Unmask(f.payload, true, key);
    var buf, m := ClientEncode(f, key), 1 + |LengthField(f.payloadLen)|;
    assert buf[0] == b0 && buf[1] == lf[0] + 0x80 && buf[2..m] == lf[1..]
        && buf[m..m + 4] == key && buf[m + 4..] == masked by {
      assert buf == [b0] + [lf[0] + 0x80] + lf[1..] + key + masked;
    }
    LengthFieldRoundTrip(n, true, buf);
    HeaderByteFields(f.fin, f.opcode);
    assert MaskingKey(buf) == key;
    assert buf[m + 4..m + 4 + n] == masked;
    UnmaskInvolution(f.payload, key);
  }

  /** Unmasking with the key a payload was masked with restores it. */
  lemma UnmaskInvolution(data: seq<byte>, key: seq<byte>)
    requires |key| == 4
    ensures Unmask(Unmask(data, true, key), true, key) == data
  {
    var masked := Unmask(data, true, key);
    forall i | 0 <= i < |data|
      ensures Unmask(masked, true, key)[i] == data[i]
    {
      XorInvolution(data[i], key[i % 4]);
    }
  }

  /** A masked frame worked through: key 01 02 03 04 over 10 20 30 40 50 unmasks to
      11 22 33 44 51. */
  lemma MaskingExample()
    ensures Decode([0x81, 0x85, 0x01, 0x02, 0x03, 0x04, 0x10, 0x20, 0x30, 0x40, 0x50])
         == Ok(Frame(true, Text, true, 5, [0x11, 0x22, 0x33, 0x44, 0x51]))
  {
    var buf: seq<byte> := [0x81, 0x85, 0x01, 0x02, 0x03, 0x04, 0x10, 0x20, 0x30, 0x40, 0x50];
    assert HeaderSize(buf[1]) == 6 && DeclaredLength(buf) == 5;
    assert MaskingKey(buf) == [0x01, 0x02, 0x03, 0x04];
    assert buf[6..11] == [0x10, 0x20, 0x30, 0x40, 0x50];
    assert Decode(buf) == Ok(Frame(true, Text, true, 5, Unmask(buf[6..11], true, MaskingKey(buf))));
    MaskingExamplePayload();
  }

  lemma MaskingExamplePayload()
    ensures Unmask([0x10, 0x20, 0x30, 0x40, 0x50], true, [0x01, 0x02, 0x03, 0x04]) == [0x11, 0x22, 0x33, 0x44, 0x51]
  {
    MaskingExampleBytes();
  }

  lemma MaskingExampleBytes()
    ensures Xor(0x10, 0x01) == 0x11 && Xor(0x20, 0x02) == 0x22 && Xor(0x30, 0x03) == 0x33
    ensures Xor(0x40, 0x04) == 0x44 && Xor(0x50, 0x01) == 0x51
  {
  }

  /** A frame after `Frame::serialize`: its payload has been moved out into
      the output, its length field is kept. */
  function Drained(f: Frame): (d: Frame)
    ensures d.payload == [] && d.payloadLen == f.payloadLen
    ensures d.fin == f.fin && d.opcode == f.opcode && d.mask == f.mask
  {
    f.(payload := [])
  }

  function DrainAll(fs: seq<Frame>): (ds: seq<Frame>)
    ensures |ds| == |fs|
    ensures forall i :: 0 <= i < |fs| ==> ds[i] == Drained(fs[i])
  {
    seq(|fs|, i requires 0 <= i < |fs| => Drained(fs[i]))
  }

  predicate Encodable(fs: seq<Frame>)
  {
    forall i :: 0 <= i < |fs| ==> fs[i].opcode != Unknown
  }

  /** The encodings of the frames, one per frame. */
  function Encodings(fs: seq<Frame>): (cs: seq<seq<byte>>)
    requires Encodable(fs)
    ensures |cs| == |fs|
  {
    seq(|fs|, i requires 0 <= i < |fs| => Encode(fs[i]))
  }

  /** The frames encoded one after the other, in order, each keeping its own
      header: no payloads are merged. */
  function EncodeAll(fs: seq<Frame>): seq<byte>
    requires Encodable(fs)
  {
    Concat(Encodings(fs))
  }

  /** The encoding of a sequence splits at any frame boundary. */
  lemma EncodeAllAppend(fs: seq<Frame>, gs: seq<Frame>)
    requires Encodable(fs) && Encodable(gs)
    ensures Encodable(fs + gs)
    ensures EncodeAll(fs + gs) == EncodeAll(fs) + EncodeAll(gs)
  {
    var all := fs + gs;
    assert Encodable(all) by {
      forall i | 0 <= i < |all|
        ensures all[i].opcode != Unknown
      {
        if i < |fs| {
          assert all[i] == fs[i];
        } else {
          assert all[i] == gs[i - |fs|];
        }
      }
    }
    assert Encodings(all) == Encodings(fs) + Encodings(gs) by {
      forall i | 0 <= i < |all|
        ensures Encodings(all)[i] == (Encodings(fs) + Encodings(gs))[i]
      {
        if i < |fs| {
          assert all[i] == fs[i];
        } else {
          assert all[i] == gs[i - |fs|];
        }
      }
    }
    ConcatAppend(Encodings(fs), Encodings(gs));
  }

  /** One more frame adds its own encoding at the end. */
  lemma EncodeAllSnoc(fs: seq<Frame>, f: Frame)
    requires Encodable(fs) && f.opcode != Unknown
    ensures Encodable(fs + [f])
    ensures EncodeAll(fs + [f]) == EncodeAll(fs) + Encode(f)
  {
    EncodeAllAppend(fs, [f]);
    assert Encodings([f]) == [Encode(f)];
    assert Concat([Encode(f)]) == Encode(f) by {
      assert [Encode(f)][..0] == [];
    }
  }

  /** A frame whose payload holds exactly the bytes its length declares. */
  predicate WellFormed(f: Frame)
  {
    |f.payload| == f.payloadLen
  }

  /** Frame k of a well-formed sequence is what the parser reads at the
      offset where the frames before it end. */
  lemma DecodeAtFrameBoundary(fs: seq<Frame>, k: nat)
    requires Encodable(fs) && k < |fs|
    requires forall i :: 0 <= i < |fs| ==> WellFormed(fs[i])
    ensures Encodable(fs[..k]) && |EncodeAll(fs[..k])| <= |EncodeAll(fs)|
    ensures Decode(EncodeAll(fs)[|EncodeAll(fs[..k])|..]) == Ok(fs[k].(mask := false))
  {
    EncodeAllAround(fs, k);
    var rest := EncodeAll(fs[k + 1..]);
    assert EncodeAll(fs)[|EncodeAll(fs[..k])|..] == Encode(fs[k]) + rest;
    DecodeEncode(fs[k], rest);
  }

  /** The encoding of a sequence around its frame k. */
  lemma EncodeAllAround(fs: seq<Frame>, k: nat)
    requires Encodable(fs) && k < |fs|
    ensures Encodable(fs[..k]) && Encodable(fs[k + 1..])
    ensures EncodeAll(fs) == EncodeAll(fs[..k]) + (Encode(fs[k]) + EncodeAll(fs[k + 1..]))
  {
    var pre, post := fs[..k], fs[k + 1..];
    assert Encodable(pre) && Encodable(post);
    var cs := Encodings(fs);
    assert cs == Encodings(pre) + ([cs[k]] + Encodings(post));
    ConcatAppend(Encodings(pre), [cs[k]] + Encodings(post));
    ConcatCons(cs[k], Encodings(post));
  }

  /** `Message`: the frames of one message, in order. Its `serialize` drains
      every frame it writes, so the object is updated in place. */
  class Message {
    var frames: seq<Frame>

    constructor (frames: seq<Frame>)
      ensures this.frames == frames
    {
      this.frames := frames;
    }

    /** `Frame::serialize` on the frame at position i: header byte, length
        byte with the mask bit clear, extended length, then the payload, which
        `Vec::append` moves out of the frame. */
    method SerializeFrame(i: nat) returns (out: seq<byte>)
      requires i < |frames| && frames[i].opcode != Unknown
      modifies this
      ensures out == Encode(old(frames[i]))
      ensures frames == old(frames)[i := Drained(old(frames[i]))]
    {
      var frame := frames[i];
      var serialized: seq<byte> := [];
      var fin := if frame.fin then 1 else 0;
      var opcode := SerializeOpcode(frame.opcode);
      serialized := serialized + [fin * 0x80 + opcode];

      var mask := 0;
      var payloadLen: byte :=
        if frame.payloadLen <= 125 then frame.payloadLen
        else if frame.payloadLen < 0x1_0000 then 126
        else 127;
      var extendedLenBytes: seq<byte> := [];
      if payloadLen == 126 {
        extendedLenBytes := BigEndian(frame.payloadLen, 2);
      } else if payloadLen == 127 {
        extendedLenBytes := BigEndian(frame.payloadLen, 8);
      }

      serialized := serialized + [mask + payloadLen];
      serialized := serialized + extendedLenBytes;
      serialized := serialized + frame.payload;
      frames := frames[i := frame.(payload := [])];
      out := serialized;
    }

    /** `Message::serialize`: every frame serialised in turn and the results
        concatenated; afterwards every frame of the message is drained. */
    method Serialize() returns (out: seq<byte>)
      requires Encodable(frames)
      modifies this
      ensures out == EncodeAll(old(frames))
      ensures frames == DrainAll(old(frames))
    {
      ghost var original := frames;
      var output: seq<byte> := [];
      var i := 0;
      while i < |frames|
        invariant 0 <= i <= |frames| == |original|
        invariant forall j :: 0 <= j < i ==> frames[j] == Drained(original[j])
        invariant forall j :: i <= j < |frames| ==> frames[j] == original[j]
        invariant output == EncodeAll(original[..i])
      {
        var bytes := SerializeFrame(i);
        EncodeAllSnoc(original[..i], original[i]);
        assert original[..i + 1] == original[..i] + [original[i]];
        output := output + bytes;
        i := i + 1;
      }
      assert original[..i] == original;
      assert frames == DrainAll(original);
      out := output;
    }
  }

  /** The one frame `build_message` puts in a message: final, unmasked, with
      the given opcode and payload. */
  function SingleFrame(opcode: OpCode, payload: seq<byte>): (f: Frame)
    requires |payload| < 0x1_0000_0000_0000_0000
    ensures WellFormed(f) && f.fin && !f.mask && f.opcode == opcode
    ensures opcode != Unknown ==> Decode(Encode(f)) == Ok(Frame(true, opcode, false, |payload|, payload))
  {
    var f := Frame(true, opcode, false, |payload|, payload);
    if opcode != Unknown then
      assert Encode(f) + [] == Encode(f);
      DecodeEncode(f, []);
      f
    else f
  }

  /** `build_message`: a message of exactly one frame. The source converts
      the length to `u64` with `unwrap`, which cannot fail for a slice. */
  method BuildMessage(opcode: OpCode, payload: seq<byte>) returns (m: Message)
    requires |payload| < 0x1_0000_0000_0000_0000
    ensures fresh(m)
    ensures m.frames == [SingleFrame(opcode, payload)]
  {
    var frame := Frame(true, opcode, false, |payload|, payload);
    m := new Message([frame]);
  }

  /** The close status codes of section 7.4.1 of RFC 6455 that the server
      uses: only 1011, "unexpected condition". */
  datatype StatusCode = Unexpected
  {
    /** `StatusCode::serialize`. */
    function Serialize(): (code: u16)
      ensures code == 1011
    {
      match this
      case Unexpected => 1011
    }
  }

  /** `build_close_frame_payload`: the Close body of section 5.5.1 of RFC
      6455, a big-endian two-byte status code then the UTF-8 reason. */
  function CloseFramePayload(code: StatusCode, reason: string): (p: seq<byte>)
    ensures |p| == 2 + |Utf8(reason)|
    ensures FromBigEndian(p[..2]) == code.Serialize()
    ensures p[2..] == Utf8(reason)
  {
    var p := BigEndian(code.Serialize(), 2) + Utf8(reason);
    Pow256Values();
    BigEndianRoundTrip(code.Serialize(), 2);
    assert p[..2] == BigEndian(code.Serialize(), 2);
    p
  }

  /** Status 1011 is written as the bytes 0x03 0xF3. */
  lemma UnexpectedCloseCodeBytes(reason: string)
    ensures CloseFramePayload(Unexpected, reason)[..2] == [0x03, 0xF3]
  {
    var p := CloseFramePayload(Unexpected, reason);
    FromBigEndianPair(p[..2]);
  }
}
