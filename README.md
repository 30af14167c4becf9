# WebSocket stack: frame codec, SHA-1, Base64, handshake and client registry

This project models the byte-level core of a small hand-written WebSocket
stack in C++, and proves properties of that model. The stack has three
programs:

- a chat server (`src/websocket_server.cc`);
- a chat client (`src/websocket_client.cc`);
- a real-time file monitor that pushes a file's contents to browser clients
  (`src/realtime_file_monitor.cc`).

Two headers are shared between them:

- `src/core.h` holds the frame codec;
- `src/util.h` holds header extraction, a one-shot SHA-1 and a Base64
  encoder.

Socket I/O is not modelled. What a `recv` stored and what it returned become
method parameters, and what a `send` would send becomes a result.

The modules are:

- `Bytes`: octet strings, `std::string::find`, the C-string cut at the first
  NUL, and big-endian words.
- `Frame`: `WSOpcode`, `BuildWSFrame` and `ParseWSFrame`. The frame format is
  the base framing of section 5.2 of RFC 6455, with the masking of section
  5.3. The specification is a total `Decode` function; the round trip is
  proved for unmasked and for masked frames.
- `Sha1`: the hash as functions: padding, message schedule, the 80 rounds
  and the big-endian digest, as in section 6.1 of FIPS 180-4.
  - `OneShotSha1`: `ComputeSHA1Hash` of `src/util.h`, proved equal to
    `Sha1.Hash`.
  - `Sha1Stream`: the monitor's `Sha1Ctx` with `Sha1Init`, `Sha1Update`,
    `Sha1Final` and `Sha1Transform`, also proved equal to `Sha1.Hash`. Its
    invariant ties `state`, `count` and `buffer` to everything absorbed.
- `Base64`: the encoding of section 4 of RFC 4648 as a function, with a
  decoder that inverts it.
  - `UtilBase64`: `EncodeBase64` of `src/util.h`.
  - `MonitorBase64`: `Base64Encode` of the monitor.
  - Both are proved equal to the function, and so to each other.
- `HttpHeader`: `ExtractHTTPHeaderValue`, both as the source writes it and
  with its trimming corrected (see Findings).
- `Handshake`: the accept key of section 1.3 of RFC 6455, and the exact
  request and response texts both programs build.
- `Server`, `Client`: each program's side of the opening handshake, and the
  frame that a console line sends. The client's chat payload is also
  modelled here.
- `FileMonitor`: `SendWsMessage`, `HandleHandshake`, the key extraction of
  `ProcessNewConnection`, and the `Clients` list. The list is modelled as
  the class `Registry`, with `AddClient`, `RemoveClient`,
  `ProcessClientMessages` and `BroadcastToClients`.

## Model

| member | source | states |
|---|---|---|
| Bytes.Find | src/util.h:31 | the result of `find` is the first position at or after `from` where the pattern occurs; None (`npos`) means it occurs nowhere after `from` |
| Bytes.CString | src/websocket_server.cc:33 | `std::string(buffer)` is the prefix of the buffer before its first NUL, and holds no NUL |
| Bytes.BigEndian32RoundTrip | src/websocket_client.cc:138-142 | reading back the four octets of `htonl(x)` gives `x` |
| Frame.Code | src/core.h:12-20 | every opcode value fits in the low nibble |
| Frame.BuildWSFrame | src/core.h:25-44 | octet 0 is `0x80 \| opcode`, so FIN is set and the low nibble is the opcode; up to 0xFFFF octets the mask bit is clear; below 126 octets the frame is `[0x80\|op, len] ++ m`; up to 0xFFFF it is `[0x80\|op, 126, len>>8, len&0xFF] ++ m`; above 0xFFFF it has no length field; the frame always ends with the message |
| Frame.ParseWSFrame | src/core.h:49-87 | the result is the payload `Decode` gives, or "" wherever `Decode` fails |
| Frame.ParseHeader | src/core.h:51-67 | the mask bit, length and payload offset equal `ReadHeader` |
| Frame.UnmaskPayload | src/core.h:69-79 | octet i of the message is payload octet i XOR key octet i mod 4 |
| Frame.CopyPayload | src/core.h:80-85 | the unmasked message is the declared slice of the buffer |
| Frame.ReadHeader | src/core.h:51-67 | a header that is read starts its key or payload at offset 2 or 4, inside the buffer |
| Frame.DecodeFailures | src/core.h:51-82 | decoding fails for fewer than 2 octets, for length code 127, and for code 126 with fewer than 4 octets; with a header, it fails exactly when the buffer is shorter than the header, plus the mask key if masked, plus the declared length |
| Frame.DecodeMasked | src/core.h:69-79 | a masked payload has exactly the declared length, lies inside the buffer, and octet i is `buffer[pos+4+i] ^ buffer[pos + i%4]` |
| Frame.DecodedFitsBuffer | src/core.h:71-85 | a decoded payload never reaches past the buffer |
| Frame.DecodeEncode | src/core.h:25-87 | round trip: parsing a built frame of at most 0xFFFF octets gives back the message, for every opcode and whatever octets follow |
| Frame.MaskInvolution | src/core.h:75-78 | masking twice with the same key gives back the data |
| Frame.DecodeMaskedEncode | src/core.h:69-79 | a payload masked with any key is recovered by parsing |
| Frame.FirstOctetIgnored | src/core.h:52-53 | octet 0 (FIN and opcode) never affects the parsed payload |
| Base64.ValueOfSymbol | src/util.h:152-153 | the 64 alphabet symbols are distinct, and none of them is '=' |
| Base64.SumIsOr | src/realtime_file_monitor.cc:124-128 | the `+` of `src/util.h` and the `\|` of the monitor give the same sextets, because the bits are disjoint |
| Base64.EncodeLength | src/util.h:158-184 | the output has `4 * ceil(n / 3)` symbols, so the empty input gives "" |
| Base64.WholeGroupSymbols | src/util.h:163-169 | encoding whole 3-octet groups gives only alphabet symbols, never '=' |
| Base64.EncodeSymbols | src/util.h:152-184 | every output symbol is in the alphabet or is '=' |
| Base64.EncodePadding | src/util.h:173-184 | one leftover octet ends the output with "==", two leftover octets with "=", none with no '='; '=' appears nowhere else |
| Base64.DecodeEncode | src/util.h:148-186 | decoding the output gives back the input, so the encoding loses nothing |
| Base64.EncodeAppend | src/util.h:158-172 | encoding whole groups and then the rest is encoding the concatenation |
| Base64.SplitTail | src/util.h:173-184 | the output is the whole groups' encoding followed by the encoding of the last `n mod 3` octets |
| Base64.TailGroup | src/util.h:175-183 | the `i + 1` sextets of the zero-filled tail group, then `3 - i` '=', are the encoding of the tail |
| Base64.EmitSymbols | src/util.h:169 | the symbols emitted are the alphabet entries of the sextets, in order |
| UtilBase64.EncodeBase64 | src/util.h:148-186 | the output is `Base64.Encode(input)` |
| UtilBase64.EmitGroup | src/util.h:163-169 | the four symbols of a full group |
| UtilBase64.AppendGroup | src/util.h:161-171 | a full group appends its four symbols, so the output stays the encoding of the groups read so far |
| UtilBase64.EmitTail | src/util.h:175-183 | the symbols of the zero-filled last group, then '=' up to four, are the encoding of the leftover octets |
| UtilBase64.FinishTail | src/util.h:173-184 | the output after the tail is the encoding of the whole input |
| MonitorBase64.Base64Encode | src/realtime_file_monitor.cc:114-146 | the output is `Base64.Encode(input)` |
| MonitorBase64.EmitGroup | src/realtime_file_monitor.cc:124-130 | the four symbols of a full group |
| MonitorBase64.AppendGroup | src/realtime_file_monitor.cc:123-132 | a full group appends its four symbols, so the output stays the encoding of the groups read so far |
| MonitorBase64.EmitTail | src/realtime_file_monitor.cc:135-143 | the symbols of the zero-filled last group, then '=' up to four, are the encoding of the leftover octets; `char_array_4[3]` is never computed |
| MonitorBase64.FinishTail | src/realtime_file_monitor.cc:134-144 | the output after the tail is the encoding of the whole input |
| MonitorBase64.EncodersAgree | src/realtime_file_monitor.cc:114-146 | the monitor's encoder and the one in `src/util.h` return the same text for every input, of length `4 * ceil(n / 3)` |
| Sha1.BlockWords | src/util.h:68-72 | a block gives sixteen words |
| Sha1.ChMajStandard | src/util.h:84-94 | the OR forms of Ch and Maj used in the rounds equal the XOR forms of section 4.1.1 of FIPS 180-4 |
| Sha1.ScheduleFrom | src/util.h:73-77 | the schedule has 80 words, keeps the first sixteen, and every later word is `rotl1(w[t-3]^w[t-8]^w[t-14]^w[t-16])` |
| Sha1.ScheduleUnique | src/util.h:68-77 | any 80 words that start with the block's words and follow the recurrence are the schedule |
| Sha1.ProcessBlocksPrefix | src/util.h:62-114 | the hash value after n blocks depends only on the first 64n octets |
| Sha1.PadLength | src/util.h:54-61 | the padded message is the input, then 0x80, then fewer than 64 zeros reaching 56 mod 64, then 8 length octets; its length is a multiple of 64 |
| Sha1.PadPrefix | src/util.h:55-56 | the padded message starts with the input and then 0x80 |
| Sha1.PadZeros | src/util.h:57 | the octets after 0x80 are zeros, up to the length field |
| Sha1.PadSuffix | src/util.h:58-61 | the last eight octets are the bit length modulo 2^64, most significant first |
| Sha1.ZeroCountReaches56 | src/util.h:57 | the zero count is below 64, and it brings the length to 56 mod 64 |
| Sha1.ZeroCountUnique | src/util.h:57 | the padding loop's stopping point is the only zero count below 64 that works |
| Sha1.LengthByteAt | src/util.h:58-61 | octet 7 - i of the length field is `(len >> 8i) & 0xFF` |
| Sha1.Digest | src/util.h:115-141 | the digest has 20 octets |
| Sha1.Hash | src/util.h:50-143 | the hash has 20 octets |
| OneShotSha1.BitPaddingTest | src/util.h:57 | the test `(size*8) % 512 != 448` is the test `size % 64 != 56` |
| OneShotSha1.ComputeSHA1Hash | src/util.h:50-143 | the result is `Sha1.Hash(input)` |
| OneShotSha1.PadMessage | src/util.h:54-61 | the padded string is `Sha1.Pad(input)`, a multiple of 64 octets |
| OneShotSha1.AppendZeros | src/util.h:56-57 | 0x80, then exactly the zeros that reach 56 mod 64 |
| OneShotSha1.AppendLength | src/util.h:58-61 | the eight octets of the bit length, most significant first |
| OneShotSha1.ChunkCount | src/util.h:62 | `size*8/512` is the number of 64-octet blocks |
| OneShotSha1.ProcessChunks | src/util.h:62-114 | h0..h4 after the loop are the hash value of all blocks, from the standard initial values |
| OneShotSha1.ProcessChunk | src/util.h:63-113 | one chunk's schedule, rounds and addition modulo 2^32 are the compression function |
| OneShotSha1.ScheduleChunk | src/util.h:65-77 | `w[80]` is the message schedule of the chunk |
| OneShotSha1.ScheduleStep | src/util.h:73-77 | each new word keeps the recurrence for all words so far |
| OneShotSha1.RunRounds | src/util.h:78-108 | a..e after the loop are the 80 rounds, with the f and k of section 6.1.2 of FIPS 180-4 |
| OneShotSha1.SerializeDigest | src/util.h:115-141 | the 20 octets are h0..h4, each most significant octet first |
| OneShotSha1.AppendWord | src/util.h:137-140 | the inner loop appends one word's four octets, most significant first |
| OneShotSha1.DigestWord | src/util.h:115-141 | octets 4i..4i+3 of the digest are word i |
| Sha1Stream.Sha1Transform | src/realtime_file_monitor.cc:289-329 | the new state is the old state compressed with the block |
| Sha1Stream.CopyInto | src/realtime_file_monitor.cc:355 | `memcpy` changes exactly the octets it copies |
| Sha1Stream.Sha1Ctx.constructor | src/realtime_file_monitor.cc:41-45 | a context with a 5-word state and a 64-octet buffer |
| Sha1Stream.Sha1Ctx.Init | src/realtime_file_monitor.cc:331-338 | the context is valid and has absorbed nothing |
| Sha1Stream.Sha1Ctx.AddBitCount | src/realtime_file_monitor.cc:341-343 | with the carry, count[1]:count[0] is the total bit length modulo 2^64 |
| Sha1Stream.Sha1Ctx.Update | src/realtime_file_monitor.cc:340-356 | the invariant is kept and the data is appended to what was absorbed: the state holds every whole block, in order; the buffer holds the remaining `total mod 64` octets; the count is the bit length, and SameAbsorbedSameContext draws the consequence for split updates |
| Sha1Stream.SameAbsorbedSameContext | src/realtime_file_monitor.cc:340-356 | two valid contexts that absorbed the same octets hold the same block count, state words, count words and pending buffer octets, so `Update(a); Update(b)` ends where `Update(a ++ b)` does |
| Sha1Stream.Sha1Ctx.CompressThrough | src/realtime_file_monitor.cc:345-351 | filling the buffer and compressing it, then every whole block of the data, compresses exactly the blocks that are complete |
| Sha1Stream.Sha1Ctx.TransformBlocks | src/realtime_file_monitor.cc:349-350 | the block loop stops with fewer than 64 octets left, every whole block compressed in order |
| Sha1Stream.Sha1Ctx.KeepRest | src/realtime_file_monitor.cc:355 | the octets after the last whole block go into the buffer after the ones it keeps, and the invariant holds for everything absorbed |
| Sha1Stream.Sha1Ctx.Final | src/realtime_file_monitor.cc:358-371 | the digest is `Sha1.Hash` of everything absorbed, so `Init; Update(x); Final` computes the same hash as `ComputeSHA1Hash(x)`; what was absorbed is now the padded message |
| Sha1Stream.Sha1Ctx.CountOctets | src/realtime_file_monitor.cc:359-362 | `final_count` is the length field of the padding |
| Sha1Stream.Sha1Ctx.AppendZeros | src/realtime_file_monitor.cc:365-366 | the loop adds exactly the zeros that reach 56 octets mod 64 |
| Sha1Stream.Sha1Ctx.PadZero | src/realtime_file_monitor.cc:366 | one pass of the padding loop absorbs one more zero octet and keeps the context invariant |
| Sha1Stream.Sha1Ctx.WriteDigest | src/realtime_file_monitor.cc:368-370 | digest[i] is octet `3 - i%4` of `state[i/4]`, which is the big-endian digest |
| Sha1Stream.CountCarry | src/realtime_file_monitor.cc:342-343 | adding `len<<3` with a carry and then `len>>29` is adding `8*len` modulo 2^64 |
| Sha1Stream.PendingOctets | src/realtime_file_monitor.cc:341 | `(count[0] >> 3) & 63` is the number of octets pending in the buffer |
| Sha1Stream.FinalCountOctet | src/realtime_file_monitor.cc:360-362 | octet i of `final_count` is octet i of the big-endian 64-bit bit count |
| Sha1Stream.BitLengthAdd | src/realtime_file_monitor.cc:342-343 | the bit length modulo 2^64 can be kept by adding modulo 2^64 |
| HttpHeader.Lines | src/util.h:29 | `getline` splits at LF, and no line holds an LF |
| HttpHeader.FirstNonBlank | src/util.h:37 | `find_first_not_of(" \t")` |
| HttpHeader.LastNonTrailing | src/util.h:38 | `find_last_not_of(" \r\n")` |
| HttpHeader.Substr | src/util.h:40 | `substr` clamps the count at the end of the string |
| HttpHeader.ExtractHTTPHeaderValue | src/util.h:23-45 | the loop returns the value of the source's reading, `HeaderValueAsWritten` |
| HttpHeader.GetLine | src/util.h:29 | each `getline` takes the next line and moves past its LF |
| HttpHeader.ValueOfLine | src/util.h:31-41 | a line yields a value exactly when it contains the search text and its trimmed value after the first colon exists |
| HttpHeader.LineValueExists | src/util.h:33-40 | a matching line gives a value exactly when, after its first colon, some character outside " \t" comes no later than some character outside " \r\n" |
| HttpHeader.LineValueTrimmed | src/util.h:36-40 | a value is non-empty, never starts with ' ' or '\t', and never ends with ' ', '\r' or '\n' |
| HttpHeader.TrimTrimmed | src/util.h:36-40 | what the corrected trimming keeps is non-empty, starts with a character other than ' ' or '\t', and ends with one other than ' ', '\r' or '\n' |
| HttpHeader.ScanFirstValue | src/util.h:29-43 | the result is the value of the first line that gives one |
| HttpHeader.ScanAsWrittenFirstValue | src/util.h:29-43 | the same for the source's reading |
| HttpHeader.ScanNoValue | src/util.h:44 | "" when no line gives a value, so a line of blanks is skipped |
| HttpHeader.ScanTrimmed | src/util.h:29-44 | the corrected result is "" or trimmed on both sides, with no line break |
| HttpHeader.HeaderValueTrimmed | src/util.h:23-45 | the same for a whole header text |
| HttpHeader.HeaderValueNotFound | src/util.h:28-44 | when no line contains `key:` (a case-sensitive substring test), the result is "" |
| HttpHeader.ScanAsWrittenNoMatch | src/util.h:29-44 | "" when no line matches, in the source's reading |
| HttpHeader.LineValueAgrees | src/util.h:36-40 | outside the start-after-end case (the first character the trim keeps lies after the last one), the source's reading and the corrected one agree |
| HttpHeader.ScanAgrees | src/util.h:29-43 | on headers without a start-after-end line (count 0 or wrapped), the source computes the corrected value |
| HttpHeader.WrapCounterexample | src/util.h:37-40 | for the line "K:\t \r" the count wraps and the source returns "\r", where the corrected reading returns "" |
| HttpHeader.AdjacentCounterexample | src/util.h:29-43 | for the lines "K:\t\r" and "K: v\r" the count is 0, so the source returns "" from the first line and never reads the second, where the corrected reading returns "v" |
| Handshake.AcceptKeyShape | src/websocket_server.cc:45-48 | the accept key has 28 symbols: 27 from the alphabet, then '='; it has no blank, no CR and no NUL |
| Handshake.DigestEncodingShape | src/websocket_server.cc:47-48 | the Base64 text of any 20 octets has that shape |
| Handshake.HeaderLineValue | src/util.h:33-40 | `name: v\r` gives `v` for a token `v`, in both readings |
| Handshake.FirstColon | src/util.h:33 | in `name:rest`, for a name without a colon, the first colon follows the name |
| Handshake.TrimToken | src/util.h:36-40 | trimming `" " ++ v ++ "\r"` gives `v` for a token `v` |
| Handshake.LineWithout | src/util.h:31 | a line without the search text gives no value |
| Handshake.ResponseLines | src/websocket_server.cc:51-55 | the response's lines are the status line, Upgrade, Connection, Sec-WebSocket-Accept, then a blank line |
| Handshake.FixedLinesNoAccept | src/websocket_server.cc:52-54 | no fixed line of the response mentions `Sec-WebSocket-Accept:` |
| Handshake.ResponseAccept | src/websocket_server.cc:51-55 | extracting `Sec-WebSocket-Accept` from the response gives the accept key unchanged |
| Handshake.ResponseSwitching | src/websocket_server.cc:52 | the response contains "101 Switching Protocols" |
| Handshake.ResponseNoNul | src/websocket_server.cc:56-59 | the response has no NUL, so a receiver's C string is all of it |
| Handshake.Digits | src/websocket_client.cc:23 | the port is printed as decimal digits |
| Handshake.DigitsRoundTrip | src/websocket_client.cc:23 | reading the printed digits gives back the port |
| Handshake.Decimal | src/websocket_client.cc:23 | a printed integer holds only digits and '-' |
| Handshake.RequestLines | src/websocket_client.cc:22-27 | the request is CRLF-separated lines: GET, Host, Upgrade, Connection, Sec-WebSocket-Key, Sec-WebSocket-Version, then a blank line |
| Handshake.RequestLinesNoKey | src/websocket_client.cc:22-25 | no line before the key line mentions `Sec-WebSocket-Key:` |
| Handshake.RequestKey | src/websocket_client.cc:26 | extracting `Sec-WebSocket-Key` from the request gives the key unchanged |
| Handshake.RequestNoNul | src/websocket_client.cc:28-29 | the request has no NUL |
| Server.DoHandshake | src/websocket_server.cc:19-61 | with recv ≤ 0, or with an empty key, it returns false and sends nothing; otherwise it sends the 101 response carrying `Base64(SHA1(key ++ GUID))` and returns true |
| Server.ReplyAccept | src/websocket_server.cc:45-55 | the reply carries the accept key of the request's key, and says 101 Switching Protocols |
| Server.NoKeyNoReply | src/websocket_server.cc:36-42 | a request with no `Sec-WebSocket-Key:` line gets no reply |
| Server.ConsoleLine | src/websocket_server.cc:146-157 | "/quit" sends `[0x88, 0x00]`, an empty close frame, and ends the loop; any other line is sent as a text frame that parses back to the line |
| Client.DoHandshake | src/websocket_client.cc:18-62 | the request is the fixed text with the fixed key; it returns true exactly when recv > 0, the response contains "101 Switching Protocols", and its `Sec-WebSocket-Accept` is `Base64(SHA1(key ++ GUID))` |
| Client.ClientKeyToken | src/websocket_client.cc:21 | the fixed key has no blanks, no CR and no NUL |
| Client.HandshakeSucceeds | src/websocket_client.cc:41-58 | for any dotted host and any port, the server's reply to the client's request is one the client accepts |
| Client.MonitorAcceptsClient | src/realtime_file_monitor.cc:246-252 | the file monitor reads the client's own key from the client's request |
| Client.PayloadLayout | src/websocket_client.cc:136-144 | the chat payload's first four octets read back as the name's length; the name and then the message follow |
| Client.ConsoleLine | src/websocket_client.cc:127-148 | "/quit" sends `[0x88, 0x00]` and stops; any other line is sent as an unmasked text frame that parses back to the chat payload |
| FileMonitor.SendWsMessage | src/realtime_file_monitor.cc:68-84 | up to 0xFFFF octets it sends exactly `BuildWSFrame(data, TEXT)`; above that it sends the header 0x81, 126 and the length modulo 2^16, then the data |
| FileMonitor.TextFrame | src/realtime_file_monitor.cc:69-81 | the text frame is 0x81, then the length octet, or 126 and two length octets, then the data |
| FileMonitor.SentFrameDecodes | src/realtime_file_monitor.cc:68-84 | every message of up to 0xFFFF octets that is sent parses back to itself |
| FileMonitor.LongMessageTruncated | src/realtime_file_monitor.cc:76-80 | above 0xFFFF octets, a reader takes only the first `len mod 2^16` octets as the payload |
| FileMonitor.Snprintf | src/realtime_file_monitor.cc:101-108 | `snprintf` keeps a prefix shorter than the buffer |
| FileMonitor.HandleHandshake | src/realtime_file_monitor.cc:89-109 | it sends the 101 response carrying `Base64(SHA1(clientKey ++ GUID))`, computed through the streaming context and the monitor's encoder |
| FileMonitor.StreamDigest | src/realtime_file_monitor.cc:90-97 | Init, one Update and Final compute `Sha1.Hash` |
| FileMonitor.ResponseFits | src/realtime_file_monitor.cc:101-108 | the response is 129 octets, so neither `snprintf` into 256 octets nor `strlen` cuts it |
| FileMonitor.UpgradeKey | src/realtime_file_monitor.cc:246-252 | a key is found only in a request that contains "Upgrade: websocket"; the key holds no CR |
| FileMonitor.UpgradeKeyPlace | src/realtime_file_monitor.cc:247-252 | the key is the untrimmed text between the first occurrence of "Sec-WebSocket-Key: " (no earlier position holds it) and the next CR (the key holds no CR) |
| FileMonitor.KeyFieldFirst | src/realtime_file_monitor.cc:247 | in the client's request, "Sec-WebSocket-Key: " is first found at the key line |
| FileMonitor.KeyEndFirst | src/realtime_file_monitor.cc:250 | the first CR after it ends the key |
| FileMonitor.UpgradeKeyOfRequest | src/realtime_file_monitor.cc:246-252 | the key extracted from the client's request is the key the request carries |
| FileMonitor.UpgradeInRequest | src/realtime_file_monitor.cc:246 | the client's request contains "Upgrade: websocket" |
| FileMonitor.Registry.constructor | src/realtime_file_monitor.cc:37 | the list starts empty |
| FileMonitor.Registry.AddClient | src/realtime_file_monitor.cc:172 | the socket is appended at the end |
| FileMonitor.Registry.RemoveClient | src/realtime_file_monitor.cc:177-180 | every occurrence of the socket is removed, the rest keep their order, and the socket is closed |
| FileMonitor.Registry.ProcessNewConnection | src/realtime_file_monitor.cc:229-263 | a failed accept does nothing; recv ≤ 0 closes the socket; an upgrade request with a key gets the handshake response, and the socket joins the end of the list; any other request gets the HTML page, and the socket is closed and not added |
| FileMonitor.Registry.BroadcastToClients | src/realtime_file_monitor.cc:163-167 | one send per listed socket, in list order, each carrying what `SendWsMessage` sends |
| FileMonitor.Registry.ProcessClientMessages | src/realtime_file_monitor.cc:269-282 | exactly the ready sockets whose recv returned ≤ 0 are erased and closed, once each and in list order; the others stay in order |
| FileMonitor.WalkStep | src/realtime_file_monitor.cc:270-281 | one step of the erase-while-iterating walk, whether it erases the socket or steps over it, extends both the kept list and the closed list |
| FileMonitor.WithoutOnly | src/realtime_file_monitor.cc:269-282 | together, the kept sockets and the erased sockets are the old list as a multiset; no kept socket is in the erased set, and every erased one is |
| FileMonitor.WithoutKeepsOrder | src/realtime_file_monitor.cc:269-282 | the kept list is picked from the old list at increasing positions |
| FileMonitor.RemovedEverywhere | src/realtime_file_monitor.cc:177-180 | after `remove`, the socket appears nowhere; every other socket keeps its count |

## Left out

- Sockets, `select`, `accept`, `recv`, `send` and `close` are not modelled. Received octets and recv's result are parameters; sent octets are results; a close is a flag or a list of sockets.
- The `main` loops of the three programs are not modelled (`src/realtime_file_monitor.cc:376-467`, `src/websocket_server.cc:63-163`, `src/websocket_client.cc:64-153`). Only the decisions inside them are modelled: the console line, and the calls listed above.
- The console `getline` and the prints to `cout`/`cerr` are not modelled.
- The file monitor's inotify handling is not modelled.
- `LoadFile` (an `ifstream` read) is not modelled.
- `GenerateHtmlResponse` (`snprintf` HTML templating) is not modelled. The page is the parameter `html` of `ProcessNewConnection`.
- `htons`/`htonl` are written as explicit big-endian octets.
- The `std::list` iterator of `ProcessClientMessages` is an index into a sequence.
- The shift `chunkData[i*4] << 24` on a promoted signed int is modelled as an unsigned big-endian word.
- The known-answer example of section 1.3 of RFC 6455 (key "dGhlIHNhbXBsZSBub25jZQ==" gives "s3pPLMBiTxaQ9kYGzzhZRbK+xOo=") is not proved. Evaluating SHA-1 on a literal inside the verifier is too costly. The accept key is proved to be `Base64(SHA1(key ++ GUID))` by the definition of SHA-1.
- Partial frames across reads, 64-bit lengths, and PING/PONG handling are absent from the code and so from the model.
- Sha1Stream.Sha1Ctx.Update: requires `len + 63 < 2^32`. In the source, `j + len > 63` is computed in 32 bits and would wrap near 2^32. The model does not cover that case.
- FileMonitor.HandleHandshake: requires the key plus the GUID to satisfy the same bound, because it calls `Update` once with them.
- FileMonitor.StreamDigest: the same bound as `Update`.
- Sha1Stream.Sha1Ctx.AppendZeros: the loop test `(count[0] & 504) != 448` is written as `(count[0] / 8) % 64 != 56`. The two read the same bits of the count, but that bit-mask identity is not proved.
- MonitorBase64.Base64Encode: `input_len` is an `int` in the source; a negative length is not modelled (the input is a sequence).
- Server.ConsoleLine: the round trip is stated only for lines of at most 0xFFFF octets. Above that, `BuildWSFrame` emits no length field, as `Frame.BuildWSFrame` states.
- Client.ConsoleLine: the round trip is stated only for payloads of at most 0xFFFF octets, for the same reason.

## Findings

| source | as written | input that shows it | evidently intended | confidence | as-written member | corrected member |
|---|---|---|---|---|---|---|
| src/util.h:37-40 | the value after the colon is cut at `start = find_first_not_of(" \t")` for `end - start + 1` characters, computed in `size_t`. When start > end + 1 (the first non-blank character lies two or more places after the last non-trailing one), the count wraps and `substr` returns everything from `start` | the header line "K:\t \r" with key "K": start is 2 (the CR), end is 0 (the tab), and the source returns "\r" | a value that is only blanks and line ends is skipped like an all-blank value, so the result never ends with CR | not executed | HttpHeader.WrapCounterexample | HttpHeader.HeaderValueTrimmed |
| src/util.h:37-40 | when start == end + 1 (the first non-blank character directly follows the last non-trailing one), the count `end - start + 1` is 0, `substr` returns "" and the function returns "" from that line at once | the header lines "K:\t\r" then "K: v\r" with key "K": start is 1 (the CR), end is 0 (the tab), and the source returns "" without reading the second line | such a line is skipped like an all-blank value, so a later line with the key gives its value, here "v" | not executed | HttpHeader.AdjacentCounterexample | HttpHeader.ScanFirstValue |

The as-written reading is `HttpHeader.HeaderValueAsWritten`, and the server and client models use it. The corrected reading is `HttpHeader.HeaderValue`. `HttpHeader.ScanAgrees` proves the two agree on every header without a start-after-end line, and `HttpHeader.LineValueExists` says exactly which lines the corrected reading skips. `Handshake.RequestKey` and `Handshake.ResponseAccept` show that both readings give the same value on the request and the response the programs build.
