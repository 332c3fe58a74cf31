# websockets-rs in Dafny

A model of the core of a minimal WebSocket server (RFC 6455) written in Rust.
The model has three parts.

- The opening handshake (`src/http.rs`). A request text is parsed into a method, a URI and a
  header map. A `ResponseBuilder` object collects a status code, headers and a body, and
  renders them as an HTTP/1.1 response. `handle_handshake` decides between the 101
  switching response and three refusals.
- The frame codec (`src/websocket/frame.rs`). Frames are parsed, with or without a masking
  key, and written unmasked with the 7-bit, 16-bit or 64-bit length forms. It also covers
  the two opcode maps, single-frame messages and the body of a Close frame.
- The session loop (`src/websocket/mod.rs`). Each read is parsed as one frame and answered:
  - Ping and Pong get a Pong;
  - Close flushes the buffered message and echoes the Close;
  - an unknown opcode gets a Close with status 1011;
  - data frames are buffered and echoed when a final frame arrives.

The project has five modules.

- `Wire` (`wire.dfy`): bytes, `u16`/`u64`, big-endian order, XOR, UTF-8 and a `Result`/`Option` pair.
- `Text` (`text.dfy`): the Rust string operations the handshake relies on:
  - `to_ascii_lowercase`, `trim` and `split_once`;
  - the first piece of `split`;
  - `lines`;
  - decimal formatting.
- `Frames` (`frame.dfy`): the frame codec. `Message` is a class, because `Message::serialize`
  updates its frames in place: `Vec::append` moves each payload out.
- `WebSocket` (`session.dfy`): the loop, stated as a function `Next` on the inbound buffer.
  The methods `Step`, `Handle` and `RunSession` are proved to follow it.
- `Http` (`http.rs` → `http.dfy`):
  - the request parser, as a function `RequestOf` and the method `ParseRequest`;
  - `ResponseBuilder` as a class, with `Render` as the specification of `to_string`;
  - `Handshake` as a function of the parsed request, and `HandleHandshake` as the method that
    parses and builds.

Parsing is proved against encoding:
- every frame the server writes whose payload matches its declared length parses back. A
  frame whose payload has already been drained does not (see "## Findings");
- every frame a client masks parses back to its payload;
- a rendered response, read back with the request parser's own header loop, gives back the
  builder's headers plus a `content-length` entry when there is a body. This holds when every
  header name is lower-case and trimmed and holds no ':' or line feed, and every value is
  trimmed and holds no line feed.

## Model

| member | source | states |
|---|---|---|
| Wire.XorInvolution | src/websocket/frame.rs:136-143 | XOR with the same key byte twice gives back the byte, so masking and unmasking are one operation |
| Wire.BigEndianRoundTrip | src/websocket/frame.rs:102-115 | reading back the w big-endian bytes of a number below 256^w gives the number (`from_be_bytes` after `to_be_bytes`) |
| Wire.FromBigEndianRoundTrip | src/websocket/frame.rs:56-65 | writing back the value of a byte string in as many bytes reproduces the string |
| Wire.FromBigEndianPair | src/websocket/frame.rs:106 | `u16::from_be_bytes` of two bytes is first * 256 + second |
| Wire.Utf8 | src/websocket/frame.rs:210 | `as_bytes` gives between one and four bytes per character |
| Wire.Utf8Ascii | src/http.rs:124 | an ASCII string has one byte per character, each its code, so `len()` is the character count |
| Text.AsciiLowerNormalises | src/http.rs:35 | lower-casing leaves no ASCII capital and is idempotent |
| Text.Trim | src/http.rs:56 | the trimmed string neither starts nor ends with whitespace |
| Text.TrimRemovesEndSpace | src/http.rs:56 | the trimmed string is a slice of the input with only whitespace cut off before and after |
| Text.TrimTrimmed | src/http.rs:56 | trimming a trimmed string changes nothing, and one leading space is all it removes from a space-prefixed one |
| Text.FirstPiece | src/http.rs:36-39 | the first piece of `split(' ')` is a prefix holding no separator and followed by one when shorter than the input |
| Text.SplitOnce | src/http.rs:53 | `split_once(':')` fails exactly when there is no ':'; otherwise the parts are the text before and after the first ':' |
| Text.SplitOnceJoins | src/http.rs:53 | the two parts of a split rejoined around the separator give the line back, and the first part holds no separator |
| Text.Lines | src/http.rs:27 | no line of `lines()` holds a line feed, and only the empty text has no lines |
| Text.LinesOfJoinCrlf | src/http.rs:27 | CRLF-terminated lines followed by a text are read back by `lines()` as those lines and then the text's lines, for any lines without a line feed (a line ending in '\r' keeps it) |
| Text.JoinCrlfAppend | src/http.rs:120-128 | writing two runs of CRLF lines is writing one run after the other |
| Text.Decimal | src/http.rs:113-124 | `Display` of an integer gives at least one digit, only digits, and no leading zero |
| Text.DecimalRoundTrip | src/http.rs:124 | reading back the decimal digits of n gives n |
| Frames.DeserializeOpcode | src/websocket/frame.rs:155-164 | the opcode is known exactly for the fields 0, 1, 8, 9 and 10 |
| Frames.SerializeOpcode | src/websocket/frame.rs:166-175 | a known opcode is written as a 4-bit value that reads back as the same opcode |
| Frames.OpcodeRoundTrip | src/websocket/frame.rs:155-175 | a known opcode field is written back unchanged |
| Frames.Decode | src/websocket/frame.rs:86-153 | a parsed frame fits in the buffer with its header and holds exactly the payload length its header declares |
| Frames.ParseFrame | src/websocket/frame.rs:86-153 | the method that advances an offset through the header and copies the payload computes `Decode` |
| Frames.CopyPayload | src/websocket/frame.rs:134-144 | the payload loop yields the bytes after the header, each XOR-ed with key byte i mod 4 when masked |
| Frames.DecodeHeader | src/websocket/frame.rs:95-98 | fin is bit 7 of byte 0, the opcode its low nibble, the mask flag bit 7 of byte 1, the length the declared one |
| Frames.DecodeFailsIffShort | src/websocket/frame.rs:87-132 | parsing succeeds exactly when the buffer holds the header and payload it announces, and each shortfall has its own error |
| Frames.DecodePayload | src/websocket/frame.rs:130-144 | payload byte i is header byte h+i, XOR-ed with key byte i mod 4 when the frame is masked |
| Frames.AllOnesLengthRefused | src/websocket/frame.rs:108-132 | the buffer 81 7F FF FF FF FF FF FF FF FF declares a 64-bit length with no payload behind it and is refused as too short |
| Frames.DecodeIgnoresTrailingBytes | src/websocket/frame.rs:86-153 | bytes after a complete frame do not change the parse |
| Frames.DecodeIgnoresReservedBits | src/websocket/frame.rs:95-96 | the reserved bits RSV1-3 are ignored by the parser |
| Frames.LengthField | src/websocket/frame.rs:44-69 | the length field has 1, 3 or 9 bytes by the 125 / 16-bit thresholds, with the mask bit clear |
| Frames.LengthFieldBoundaries | src/websocket/frame.rs:45-65 | 125, 126, 65535 and 65536 are written as 7D, 7E 00 7E, 7E FF FF and 7F 00 00 00 00 00 01 00 00 |
| Frames.HeaderByteFields | src/websocket/frame.rs:39-42 | the header byte `(fin << 7) OR opcode` reads back as fin and the opcode |
| Frames.LengthFieldRoundTrip | src/websocket/frame.rs:44-69 | the parser reads back the written length field, mask bit set or not |
| Frames.DecodeEncodeExact | src/websocket/frame.rs:35-73 | parsing exactly what the server writes gives back the frame, unmasked |
| Frames.DecodeEncode | src/websocket/frame.rs:35-73 | parsing what the server writes gives back the frame whatever bytes follow it |
| Frames.DecodeClientEncode | src/websocket/frame.rs:117-144 | a frame a client masks with any 4-byte key parses back to its original payload, flagged masked |
| Frames.UnmaskInvolution | src/websocket/frame.rs:136-143 | unmasking a masked payload with its key restores it |
| Frames.MaskingExample | src/websocket/frame.rs:117-144 | a concrete masked text frame parses to its unmasked payload |
| Frames.Drained | src/websocket/frame.rs:70 | a serialised frame has lost its payload and kept its header fields and declared length |
| Frames.EncodeAllAppend | src/websocket/frame.rs:12-20 | the serialisation of a message splits at any frame boundary |
| Frames.EncodeAllSnoc | src/websocket/frame.rs:15-19 | one more frame adds its own encoding at the end |
| Frames.DecodeAtFrameBoundary | src/websocket/frame.rs:12-20 | frame k of a serialised message of whole frames parses at the offset where the earlier frames end |
| Frames.Message.constructor | src/websocket/frame.rs:7-9 | a message holds the frames it is given |
| Frames.Message.SerializeFrame | src/websocket/frame.rs:35-73 | `Frame::serialize` returns the frame's encoding, and the frame is left drained |
| Frames.Message.Serialize | src/websocket/frame.rs:12-20 | returns the frames' encodings concatenated in order, and leaves every frame drained |
| Frames.SingleFrame | src/websocket/frame.rs:181-187 | the frame is final, unmasked, whole, with the given opcode, and parses back to the payload |
| Frames.BuildMessage | src/websocket/frame.rs:177-192 | a new message holding exactly that one frame |
| Frames.StatusCode.Serialize | src/websocket/frame.rs:198-204 | Unexpected is 1011 |
| Frames.CloseFramePayload | src/websocket/frame.rs:206-213 | two bytes read big-endian as the status code, then the reason in UTF-8 |
| Frames.UnexpectedCloseCodeBytes | src/websocket/frame.rs:199-209 | status 1011 is written as 03 F3 |
| WebSocket.Next | src/websocket/mod.rs:9-73 | the loop goes on unless the read fails, is empty, or parses to Close or an unknown opcode; a failed read, an empty read and a frame that does not parse write nothing and leave the buffer as it was; only data frames are ever buffered |
| WebSocket.Respond | src/websocket/mod.rs:18-63 | after a parsed frame, the loop stops exactly on Close and unknown opcodes |
| WebSocket.Reply | src/websocket/mod.rs:20-21 | `build_message(..).serialize()` is the encoding of the one frame |
| WebSocket.Handle | src/websocket/mod.rs:18-63 | the writes, the new buffer and the go-on flag are those of `Respond` |
| WebSocket.Step | src/websocket/mod.rs:10-71 | one loop iteration's writes, new buffer and go-on flag are those of `Next` |
| WebSocket.Run | src/websocket/mod.rs:9-73 | the session consumes reads up to and including the first that ends it, and no further |
| WebSocket.RunUnfold | src/websocket/mod.rs:9-73 | a run is its first step's writes, then the rest of the run when that step goes on |
| WebSocket.RunSession | src/websocket/mod.rs:5-74 | the loop's writes and the number of reads it makes are those of `Run` from an empty buffer |
| WebSocket.PingAnsweredWithPong | src/websocket/mod.rs:19-23 | Ping and Pong get one Pong that parses back with the same payload; the buffer is untouched and the loop goes on |
| WebSocket.CloseFlushesThenEchoes | src/websocket/mod.rs:24-33 | Close writes the buffered frames, then a Close with the same payload, and stops |
| WebSocket.UnknownOpcodeAnsweredWith1011 | src/websocket/mod.rs:34-48 | an unknown opcode gets one Close frame with body 03 F3 and "Unknown OpCode", and the loop stops |
| WebSocket.DataFrameBufferedThenEchoed | src/websocket/mod.rs:50-62 | a data frame is appended; a final one makes the whole buffer be written, ending with this frame parsed back where the earlier frames end |
| WebSocket.BufferKeepsEveryDataFrame | src/websocket/mod.rs:54 | the buffer at the end holds one frame per data frame read: it is never emptied |
| WebSocket.NextGrowsBufferByDataFrame | src/websocket/mod.rs:50-62 | a read adds one frame to the buffer when it is a data frame, and none otherwise |
| WebSocket.StaleEchoWitness | src/websocket/mod.rs:54-60 | two reads of the frame 81 02 68 69 make the second echo 81 02 81 02 68 69, which parses as a text frame carrying 81 02 |
| WebSocket.RespondClearing | src/websocket/mod.rs:18-63 | the corrected answer stops exactly on Close and unknown opcodes and buffers only data frames |
| WebSocket.ClearingKeepsFramesWhole | src/websocket/mod.rs:50-62 | with the buffer cleared after each echo, every buffered frame keeps the payload its header declares |
| WebSocket.ClearedEchoParses | src/websocket/mod.rs:56-61 | with the buffer cleared, the echo of a complete message is its frames, each parsing back at its own offset |
| WebSocket.ClearingEchoWitness | src/websocket/mod.rs:54-60 | the corrected loop echoes the same two reads as 81 02 68 69 twice |
| Http.RequestLineTokens | src/http.rs:35-39 | the method and URI tokens hold no space, are read from the start of the line, and are followed by a space or the end |
| Http.ParseRequest | src/http.rs:25-62 | the parsed request is `RequestOf` the text |
| Http.ParseHeaders | src/http.rs:48-58 | the loop builds the header map of the lines before the first empty one |
| Http.HeaderEntry | src/http.rs:53-57 | a line gives a header exactly when it holds ':'; the name is lower-case and trimmed, the value trimmed |
| Http.FirstBlank | src/http.rs:48-51 | the header loop stops at the first empty line, or runs to the end |
| Http.GetIffRequestLineStartsWithGet | src/http.rs:35-45 | the method is Get exactly when the lower-cased request line starts with "get " |
| Http.HeaderEntryOfLine | src/http.rs:53-56 | a line `name:value` with no ':' in name gives the lower-cased trimmed name and the trimmed value |
| Http.EntryMapLastWins | src/http.rs:54-56 | a key is in the map exactly when some line sets it, and the last such line gives its value |
| Http.HeaderMapLastWins | src/http.rs:48-58 | the same for header lines: a repeated header keeps its last value |
| Http.HeaderSectionStopsAtBlank | src/http.rs:49-51 | nothing after the first empty line is read as a header |
| Http.LookupCode | src/http.rs:107-111 | the reason phrase is that of the first entry for the code, or "Unknown" when there is none |
| Http.StatusText | src/http.rs:3-7 | 200 is "Ok", 101 "Switching protocols", 404 "Bad Request", and every other code "Unknown" |
| Http.HeaderLines | src/http.rs:98-101 | one line "name: value" per key, in the visiting order |
| Http.RenderStartsWithStatusLine | src/http.rs:113-118 | the response starts with "HTTP/1.1 code reason" and CRLF |
| Http.RenderEndsWithBody | src/http.rs:127-132 | the head lines are followed by an empty line and then the body |
| Http.ContentLengthIffBody | src/http.rs:122-125 | a Content-Length line is written exactly when the body is non-empty |
| Http.ContentLengthReadBack | src/http.rs:124 | the Content-Length line reads back as "content-length" with the body's byte count |
| Http.HeaderLineReadBack | src/http.rs:99 | a header line of a lower-case trimmed name and a trimmed value reads back as that name and value |
| Http.LinesOfRender | src/http.rs:106-135 | the lines of a rendered response are its head lines, an empty line, then the body's lines |
| Http.ResponseHeadersReadBack | src/http.rs:95-135 | parsing a rendered response's headers with the request parser gives the builder's headers, plus content-length when there is a body |
| Http.HeaderLinesReadBack | src/http.rs:95-104 | header lines written in any order in which every key is visited once read back as the map |
| Http.ResponseBuilder.constructor | src/http.rs:71-77 | a new builder has status 200, no headers and an empty body |
| Http.ResponseBuilder.Status | src/http.rs:79-82 | only the status changes |
| Http.ResponseBuilder.AddHeader | src/http.rs:84-88 | the value is stored under the lower-cased name, replacing an earlier one; nothing else changes |
| Http.ResponseBuilder.SetBody | src/http.rs:90-93 | only the body changes |
| Http.ResponseBuilder.StringifyHeaders | src/http.rs:95-104 | one CRLF-terminated header line per key, every key exactly once, in some order |
| Http.ResponseBuilder.ToString | src/http.rs:106-135 | the text is `Render` of the builder's state in the order the headers were visited; with names stored lower-cased, a Content-Length line is there exactly when the body is non-empty |
| Http.RenderLayout | src/http.rs:113-132 | a rendered response is status line, header lines, Content-Length line if any, blank line, body |
| Http.HandshakeAccepts | src/http.rs:157-173 | accepted exactly for a GET with upgrade, connection and sec-websocket-key; the answer is 101 with exactly the three upgrade headers, the accept value hashed from the key and the GUID, and no body |
| Http.HandshakeRefusals | src/http.rs:174-190 | a non-GET gets 200 with a server header; a key-less upgrade gets 404 with a server header; any other GET gets 200 with the greeting as text/plain |
| Http.HandleHandshake | src/http.rs:149-192 | the answer is Ok exactly when `Handshake` accepts the parsed request, and its text is the rendered response, headers in some visiting order |

## Left out

- `src/main.rs` is not part of this model. It holds the TCP listener, the first read, and the writing of the handshake answer.
- SHA-1 and base64 in `hash_websocket_key` are foreign code. They are the parameter `hashKey` of `Handshake` and `HandleHandshake`.
- `String::from_utf8(..).unwrap()` in `parse_request` is not modelled: the request arrives as text, so the panic on invalid UTF-8 is outside the model.
- Http.ParseRequest: requires a second space-separated token on the first line. The source unwraps it and panics without one.
- `HTTP_VERSION` is an `f32`. It is modelled as the text "1.1", which is what `format!` writes for it.
- The 1024-byte read buffers are not modelled. Each read is an event carrying the bytes it delivered. A frame split across reads, or two frames in one read, is parsed as `parse_frame` would parse that one buffer.
- `println!` output and the ignored results of `write_all` are left out. The writes are returned as a list of buffers.
- Frames.Decode: the payload length is compared with the unbounded buffer length, so a declared length the buffer cannot hold is always `PayloadTooShort`. The source computes `offset + payload_len as usize` (src/websocket/frame.rs:130). On a 32-bit target the cast truncates. On a 64-bit target the add overflows for declared lengths within `offset` of 2^64, for example the buffer 81 7F FF FF FF FF FF FF FF FF. A debug build panics on the add. A release build wraps past the check and then panics in `Vec::with_capacity` (src/websocket/frame.rs:134). Either way the session task dies without a Close frame. The model instead returns `Err(PayloadTooShort)` (`AllOnesLengthRefused`), and `Next` goes on with no write.
- Frames.SerializeOpcode: Unknown is excluded by a precondition. The source reaches `unreachable!` on it, and the loop never serialises such a frame.
- Binary frames (opcode 2) map to Unknown, as in the source, so the model has no separate Binary case.
- WebSocket.Run: models a finite sequence of reads. A session whose reads run out before it stops is cut off there.
- Http.ResponseBuilder.Status: the `&mut Self` chaining is not modelled, and neither is it for `AddHeader` or `SetBody`. Each call is a separate method on the builder.
- Http.ResponseBuilder.StringifyHeaders: `HashMap` iteration order is unspecified. The method also returns the order it visited the keys in, proved only to visit every key once.
- The request's URI is parsed but never used by the handshake. The model keeps it in `Request.uri`.
- The request body is ignored, as in the source.
- WebSocket.Step: follows the loop as written, with the buffer never cleared. The corrected behaviour is `RespondClearing`, `NextClearing` and `RunClearing`, and is not wired into the methods.

## Findings

| source | as written | input that shows it | evidently intended | confidence | as-written member | corrected member |
|---|---|---|---|---|---|---|
| src/websocket/mod.rs:54-60 | the inbound message is never cleared after it is echoed. Serialising it moves each payload out while keeping the declared length. A second message is echoed after the drained headers of the first, so the client reads the new bytes as the old frame's payload. | two reads, each the unmasked text frame 81 02 68 69 ("hi"). The second write is 81 02 81 02 68 69, which parses as a text frame carrying 81 02. | echo 81 02 68 69 again and start a new message after each echo | not executed | WebSocket.StaleEchoWitness | WebSocket.ClearedEchoParses |
