# Verified models of the weather-station firmware

Dafny models of the algorithms in the firmware that carry the most logic, with proofs of what they
are for. `dafny verify dfyconfig.toml` checks all of it. Each C function that works on an index, a
buffer or a field by steps is a method (in a class where the C keeps state), proved against a
function of its inputs or of the state before; the laws are lemmas about those functions.

- **JSON** (`Utf8`, `JsonGrammar`, `JsonScan`, `JsonTokens`, `JsonCollection`, `JsonComplete`,
  `JsonSound`, `JsonText`, `JsonUnique`, `JsonPartial`, `JsonDepth`, `JsonSearch`, `JsonLookup`): the validator of
  `core_json.c`, an iterative machine with a 32-entry bracket stack, against derivation trees of
  RFC 8259. The library accepts more than the RFC: the comma before a nested collection may be
  missing (and in an object its key), and a backslash before a control character is an escape. The
  grammar says so with a flag on the tree, and since it is unambiguous, "accepted but no RFC text"
  is decided exactly, and so is which of the four statuses a text gets. Search and iteration are compared with a recursive walk of the tree.
- **AT dispatcher** (`Dispatcher`, `DispatcherProtocol`, `DispatcherRuns`, `DispatcherAnswers`): the
  slot and subscriber table as a class; around it a transition system of any number of senders, one
  receiver, timeouts, two mutexes and a semaphore for each call, with the fate of every frame, what
  every call holds and the absence of deadlock.
- **WebSocket** (`WebSocketFrame`, `WebSocketCommands`, `WebSocketStream`): the frame parser that
  unmasks in place and the two senders, against the frame layout of section 5.2 of RFC 6455; the
  receive loop over every way of cutting the stream into pieces, with the file upload it collects
  and the frames it answers with.
- **CRCs** (`ByteBits`, `Crc16`, `ReflectedCrc`, `ReflectedBursts`, `CrcChecks`): the bit-serial CRC-16 with two augmenting zero
  bytes, its 256-entry table, the byte-swapped Modbus CRC and the nibble table of littlefs, all
  against shifting one bit at a time; what they detect, and their published check values.
- **COBS** (`Cobs`), **calendar** (`Calendar`), **YMODEM receiver** (`Ymodem`, `YmodemHeader`,
  `YmodemBytes`, `YmodemSession`, `YmodemReplies`, `YmodemLine`), **Modbus read path** (`Modbus`), **shell line editor**
  (`Shell`, `ShellHistory`, `ShellTyping`).

Where the code and its own description differ, the model follows the code:

- `JSON_Validate` accepts `[1 [2]]`, `{"a":1{}}` and a backslash before a tab (`JsonUnique.BeyondRfc`),
  and its header's "JSONPartial if potentially valid but incomplete" does not describe `[1,`, which it
  calls illegal (`JsonText.TrailingCommaIllegal`): partial are exactly white space alone and the texts
  that closing brackets alone complete (`JsonPartial.PartialExact`).
- `download_file` returns 0, its success value, exactly at an end of transmission, an empty header or
  an announced size over the limit (`YmodemSession.ZeroReturned`), so also with nothing written
  (`LimitReturnsZero`, `EarlyEndReturnsZero`); a caller has to compare the length
  (`YmodemLine.WholeFileMeansLength`).
- With 256 blocks or more the YMODEM packet counter wraps and the 256th block is taken for a header
  (`YmodemSession.WholeFileIff`); with exactly 255 a late repetition is written twice
  (`YmodemSession.RepeatWritten`).
- The receiver checks a packet whose body is cut short, or whose read fails, against what the packet
  before left in its buffer. Cut behind its number and complement it always passes, under its own
  number, and the block before is written again in its place (`YmodemLine.CutWritten`); for any cut
  `YmodemLine.CutAccepted` has the exact condition. A failed read accepts the packet before under its
  old number (`Ymodem.StalePacket`), which the counter then refuses (`YmodemSession.RepeatRefused`).
  That the file is a prefix of what was sent is therefore proved for lines on which no body is cut
  short (`YmodemLine.FileIsPrefix`).
- `dispatcher_send_sync` can return -1 with a frame already in the caller's buffer and index
  (`DispatcherAnswers.FailureMayHaveDelivered`).
- The WebSocket parser's length test passes for every header whose 64-bit sum wraps, and for no other
  header wrongly (`WebSocketFrame.WrapExact`). A Pong is always empty, so it answers a Ping as section
  5.5.3 of RFC 6455 wants only when that is empty too (`WebSocketCommands.PongEchoes`).
- A Modbus read with more values than the caller has registers succeeds and stores nothing
  (`Modbus.RegistersRead`); the answers to writes and exceptions are shorter than the master waits
  for (`Modbus.ShortAnswersRefused`).
- A character that arrives while the shell's line holds 63, or a NUL, leaves the editor in no valid
  state (`Shell.Editor.HandleKey`).
- The first Down key after Up shows an older line, not the newer one (`ShellHistory.DownsAfterUps`).
- The WebSocket senders shift a `size_t` by up to 56; lengths are taken as 64-bit here.

## Model

| member | source | states |
|---|---|---|
| Utf8.CountHighBits | application/http_server/core_json.c:100-112 | the loop returns the number of leading one bits of the byte |
| Utf8.SkipUTF8MultiByte | application/http_server/core_json.c:189-241 | succeeds exactly when a multi-byte sequence of the ABNF of section 4 of RFC 3629 stands here, advances by its length, and the value it accumulates re-encodes to the same bytes |
| Utf8.ShortestIsAbnf | application/http_server/core_json.c:131-164 | for a lead byte with its tails, the range test on the decoded value accepts exactly the ABNF's sequences (no overlong form, no surrogate, nothing past U+10FFFF) |
| Utf8.MultiEndUnique | application/http_server/core_json.c:189-241 | at most one multi-byte sequence can stand at an offset |
| JsonScan.SkipSpace | application/http_server/core_json.c:73-90 | stops at the first byte that is no white space |
| JsonScan.SkipUTF8 | application/http_server/core_json.c:253-275 | takes one ASCII byte or one multi-byte sequence, nothing else |
| JsonScan.HexToInt | application/http_server/core_json.c:285-311 | the value of a hexadecimal digit, and the not-a-digit value for exactly all other bytes |
| JsonScan.SkipOneHexEscape | application/http_server/core_json.c:327-369 | succeeds exactly on `\uXXXX` other than zero and outputs its value |
| JsonScan.SkipHexEscape | application/http_server/core_json.c:391-429 | one escape that is no surrogate, or a high surrogate followed by a low one |
| JsonScan.SkipEscape | application/http_server/core_json.c:443-498 | the escapes the library takes, with the index left alone on failure |
| JsonScan.SkipString | application/http_server/core_json.c:510-563 | ends behind the closing quote of a well-formed string or leaves the index alone |
| JsonScan.StrnEq | application/http_server/core_json.c:575-592 | compares exactly the first n bytes |
| JsonScan.SkipLiteral | application/http_server/core_json.c:606-628 | advances by the literal exactly when it stands here |
| JsonScan.SkipAnyLiteral | application/http_server/core_json.c:640-667 | true, false or null |
| JsonScan.SkipDigits | application/http_server/core_json.c:685-732 | advances over all digits; outputs their exact value up to 2147483639 and -1 beyond, without overflow of a 32-bit int |
| JsonScan.SkipDecimals | application/http_server/core_json.c:741-760 | a fraction only where a digit follows the point |
| JsonScan.SkipExponent | application/http_server/core_json.c:769-793 | an exponent only where a digit follows the mark and sign |
| JsonScan.SkipNumber | application/http_server/core_json.c:805-849 | the end of a number without leading zeros |
| JsonScan.SkipAnyScalar | application/http_server/core_json.c:861-885 | a string, literal or number, tried in this order; whatever follows it |
| JsonTokens.StringComplete | application/http_server/core_json.c:510-563 | every string derived by the grammar is scanned to its end |
| JsonTokens.StringSound | application/http_server/core_json.c:510-563 | what is scanned as a string has a derivation |
| JsonTokens.NumberComplete | application/http_server/core_json.c:805-849 | every number of section 6 of RFC 8259 is scanned to its end |
| JsonTokens.NumberSound | application/http_server/core_json.c:805-849 | what is scanned as a number has a derivation |
| JsonCollection.SkipSpaceAndComma | application/http_server/core_json.c:901-926 | a comma counts only when no closing bracket follows |
| JsonCollection.SkipArrayScalars | application/http_server/core_json.c:937-961 | where the run of scalars of an array ends |
| JsonCollection.SkipObjectScalars | application/http_server/core_json.c:981-1034 | where the run of pairs with scalar values of an object ends, or failure |
| JsonCollection.SkipScalars | application/http_server/core_json.c:1047-1087 | the same by the kind of the innermost open bracket |
| JsonCollection.SkipCollection | application/http_server/core_json.c:1107-1187 | the loop over the 32-entry stack array is the recursive machine on a list of open brackets, status and index |
| JsonCollection.Validate | application/http_server/core_json.c:1197-1240 | the verdict on the whole buffer, or the null-parameter error |
| JsonComplete.ValueComplete | application/http_server/core_json.c:1107-1187 | wherever a derivable collection stands, the machine runs over it and continues with the stack it had, or reports the depth exceeded, exactly by its height |
| JsonSound.CollectionSound | application/http_server/core_json.c:1107-1187 | where the machine succeeds, the bytes it passed are a derivable collection at most 32 deep |
| JsonText.VerdictComplete | application/http_server/core_json.c:1197-1240 | every text of the grammar is accepted if it nests at most 32 deep and found too deep otherwise |
| JsonText.VerdictSound | application/http_server/core_json.c:1197-1240 | every accepted text has a derivation at most 32 deep |
| JsonText.VerdictExact | application/http_server/core_json.c:937-1240 | accepted if and only if derivable with nesting at most 32 |
| JsonText.TrailingCommaIllegal | application/http_server/core_json.c:901-926 | `[1,` is called illegal, not partial |
| JsonPartial.RunCarries | application/http_server/core_json.c:1107-1187 | closing brackets behind a text change nothing of what the machine does on it, and it goes on with the stack it had at the end |
| JsonPartial.PartialExact | application/http_server/core_json.c:1107-1240 | partial exactly for white space alone and for the texts that some closing brackets make an accepted text |
| JsonDepth.DepthExact | application/http_server/core_json.c:1107-1187 | called too deep exactly when some beginning of the text is completed by closing brackets to a text of the grammar that nests deeper than 32 |
| JsonDepth.VerdictDecided | application/http_server/core_json.c:1197-1240 | the status of every non-empty text by the grammar alone: success, too deep, partial, and illegal for all that is left, so for bytes behind the value, wrong brackets and garbage |
| JsonUnique.DocUnique | application/http_server/core_json.c:937-1240 | the accepted language is unambiguous |
| JsonUnique.AcceptedIsRfc | application/http_server/core_json.c:937-1240 | a derivable text at most 32 deep is accepted, and is one of RFC 8259 if and only if its derivation uses no relaxation |
| JsonUnique.RfcVerdict | application/http_server/core_json.c:1107-1240 | every RFC 8259 text with nonzero, paired `\u` escapes succeeds or is called too deep, and those that succeed are exactly those that nest at most 32 |
| JsonUnique.BeyondRfc | application/http_server/core_json.c:443-498 | three accepted texts that are no RFC texts |
| JsonSearch.NextValue | application/http_server/core_json.c:1260-1296 | the span of the value that stands here, or failure |
| JsonSearch.NextKeyValuePair | application/http_server/core_json.c:1315-1369 | the spans of key and value and the index behind them, or failure with the index left alone |
| JsonSearch.ObjectSearch | application/http_server/core_json.c:1388-1438 | the value of the first pair with the key |
| JsonSearch.ArraySearch | application/http_server/core_json.c:1456-1506 | the element with the index |
| JsonSearch.SkipQueryPart | application/http_server/core_json.c:1526-1554 | the end of a key in the query |
| JsonSearch.MultiSearch | application/http_server/core_json.c:1573-1647 | the loop over the query is following it step by step through nested spans |
| JsonSearch.SearchConst | application/http_server/core_json.c:1700-1745 | status, span with quotes stripped, and type |
| JsonSearch.Iterate | application/http_server/core_json.c:1782-1890 | one call: member, new start and next, or the status |
| JsonLookup.FollowPath | application/http_server/core_json.c:1573-1647 | following a rendered path through the text of a tree lands on the text of what looking it up in the tree gives |
| JsonLookup.SearchExact | application/http_server/core_json.c:1700-1745 | on a valid RFC text and a well-formed query: exactly the span and type of the recursive lookup, first duplicate key winning; not found exactly when that fails; an index above 2147483639 refused |
| JsonLookup.MalformedQuery | application/http_server/core_json.c:1587-1616 | queries refused whatever the text is (and every query on an empty one): an empty one, a separator in front or at the end, a bracket without an index or without its closing one |
| JsonLookup.MemberGiven | application/http_server/core_json.c:1782-1832 | a call from behind member k - 1 gives member k with its key and value spans and moves behind it |
| JsonLookup.CursorAt | application/http_server/core_json.c:1839-1890 | where start and next stand after k calls |
| JsonLookup.IterateExact | application/http_server/core_json.c:1839-1890 | from 0 and 0 the k-th call gives the k-th member with next strictly larger, and the call after the last gives not found |
| JsonLookup.IterateScalar | application/http_server/core_json.c:1799-1823 | on a scalar JSON_Iterate says illegal, wherever next stands |
| Dispatcher.LeastAck | Middlewares/cellular/dispatcher.c:101-124 | the first ACK that is a prefix of the frame |
| Dispatcher.SyncMatch | Middlewares/cellular/dispatcher.c:99-139 | the first matching ACK, or 0 for an empty ACK list |
| Dispatcher.FirstSub | Middlewares/cellular/dispatcher.c:143-155 | the first active subscriber that wants the frame |
| Dispatcher.StrnEqualIs | Middlewares/cellular/dispatcher.c:106-107 | strncmp over the length of a prefix, on a frame ended with a NUL, says whether the frame begins with it |
| Dispatcher.Truncates | Middlewares/cellular/dispatcher.c:289-291 | a subscription gets exactly the frames that agree with the first 31 bytes of its prefix |
| Dispatcher.Table.constructor | Middlewares/cellular/dispatcher.c:72-80 | an inactive slot and no subscribers |
| Dispatcher.Table.Arm | Middlewares/cellular/dispatcher.c:210-223 | the slot holds the caller's arguments and no token |
| Dispatcher.Table.HandleFrame | Middlewares/cellular/dispatcher.c:91-158 | who takes a frame that the driver has ended with a NUL; the buffer gets the first min(length, size) bytes and keeps the rest, and that minimum is the length kept; nothing changes when nobody is waiting for it |
| Dispatcher.Table.Respond | Middlewares/cellular/dispatcher.c:108-122 | copy, matched index, length, slot closed, one token |
| Dispatcher.Table.Subscribe | Middlewares/cellular/dispatcher.c:273-298 | takes the first free entry; fails exactly without a prefix or a free entry |
| Dispatcher.Table.Unsubscribe | Middlewares/cellular/dispatcher.c:304-314 | clears exactly the entry named |
| DispatcherProtocol.NextInv | Middlewares/cellular/dispatcher.c:91-263 | the protocol invariant survives every step of every thread |
| DispatcherProtocol.SlotOwned | Middlewares/cellular/dispatcher.c:204-250 | in every reachable state an active slot belongs to the one call that holds the modem lock, with that call's arguments |
| DispatcherProtocol.NeverAlreadyActive | Middlewares/cellular/dispatcher.c:204-208 | the "already active" branch is unreachable |
| DispatcherProtocol.NoWriteAfterReturn | Middlewares/cellular/dispatcher.c:109-122 | once a call has returned, no step of any thread touches its buffer or index |
| DispatcherProtocol.OneTaker | Middlewares/cellular/dispatcher.c:91-158 | each frame goes to at most one request or subscriber and each request takes at most one frame |
| DispatcherProtocol.NoSemaphoreLeak | Middlewares/cellular/dispatcher.c:218-256 | no call's semaphore outlives the call |
| DispatcherRuns.FramesDispatched | Middlewares/cellular/dispatcher.c:91-158 | in every run each frame handled went to the pending request if and only if one was armed and one of its ACKs matched or it listed none, otherwise to the callback of the first subscriber that wanted it, and to nobody else |
| DispatcherAnswers.SuccessMeansAnswered | Middlewares/cellular/dispatcher.c:186-263 | success: the log names one frame for this call, handled after arming; the smaller of its length and the size is returned, byte k of the buffer is that of the frame for every k below both and the caller's own beyond, and the index is the least matching ACK |
| DispatcherAnswers.HandIsLogged | Middlewares/cellular/dispatcher.c:91-263 | in every reachable state and whatever a call returns: with a response to it in the log its buffer and index are what that frame brings, without one they are the caller's own |
| DispatcherAnswers.FailureMayHaveDelivered | Middlewares/cellular/dispatcher.c:239-261 | a reachable state in which a call has returned -1 with both overwritten |
| DispatcherRuns.Progress | Middlewares/cellular/dispatcher.c:91-263 | no deadlock: in every reachable state with a call or a frame under way one of the threads already at work can take its next step, not counting new calls, new frames, subscribers or failures |
| DispatcherRuns.StuckIff | Middlewares/cellular/dispatcher.c:91-263 | without a timeout nobody can go on exactly when all is quiet or the call holding the modem lock waits for an answer still to come |
| DispatcherRuns.MovesDecrease | Middlewares/cellular/dispatcher.c:91-263 | each such step leaves less work to do |
| DispatcherRuns.Completes | Middlewares/cellular/dispatcher.c:91-263 | from every reachable state such steps lead to one in which every call has returned and the frame is handled, in at most as many steps as there was work |
| DispatcherRuns.PathBounded | Middlewares/cellular/dispatcher.c:91-263 | and no sequence of such steps is longer than that |
| WebSocketFrame.MaskedTwice | application/http_server/websocket.c:143-147 | masking is its own inverse (section 5.3 of RFC 6455) |
| WebSocketFrame.MaskedBits | application/http_server/websocket.c:143-147 | masking flips exactly the bits set in the octet of the key |
| ByteBits.XorByteBits | application/http_server/websocket.c:145 | bit k of the exclusive or is set exactly when it is set in one operand only; a bit is a binary digit of the number |
| WebSocketFrame.MaskedExample | application/http_server/websocket.c:85-153 | the masked frames of section 5.7 of RFC 6455 unmask to "Hello" |
| WebSocketFrame.ParseLength | application/http_server/websocket.c:95-121 | the three length forms, and refusal when the buffer is too short for them |
| WebSocketFrame.Unmask | application/http_server/websocket.c:143-147 | the loop changes the payload to its unmasked form and nothing else |
| WebSocketFrame.ParseHeader | application/http_server/websocket.c:87-135 | accepts exactly buffers with a whole header and reads its fields |
| WebSocketFrame.ParseFrame | application/http_server/websocket.c:85-153 | as long as the 64-bit sum does not wrap: accepts exactly buffers that begin with a whole frame, returns its length, leaves a refused buffer unchanged and in an accepted one unmasks the payload only |
| WebSocketFrame.NoWrap | application/http_server/websocket.c:137 | with the top length bit clear the 64-bit sum compared with the buffer length does not wrap |
| WebSocketFrame.WrapExact | application/http_server/websocket.c:137-141 | the test made on the wrapped sum is right if and only if the sum does not wrap; where it wraps the test passes although no buffer holds the frame |
| WebSocketFrame.WrapHappens | application/http_server/websocket.c:95-141 | a ten-byte buffer that passes the test without being a frame |
| WebSocketFrame.WireParsed | application/http_server/websocket.c:85-153 | a frame followed by anything is parsed to exactly its length, fields and payload |
| WebSocketFrame.PrefixRefused | application/http_server/websocket.c:85-141 | every strict prefix of a frame is refused |
| WebSocketFrame.CompleteIsWire | application/http_server/websocket.c:85-153 | nothing else is accepted: the accepted bytes are a frame of section 5.2 |
| WebSocketFrame.BuildHeader | application/http_server/websocket.c:157-176 | the header written is the frame layout's, byte by byte |
| WebSocketFrame.SendTextFrame | application/http_server/websocket.c:250-275 | sends one unmasked final text frame |
| WebSocketFrame.SendBinaryFrame | application/http_server/websocket.c:155-195 | sends a prefix of one binary frame, all of it when every send makes progress |
| WebSocketFrame.SentParsed | application/http_server/websocket.c:155-275 | either sender's output parses back to its opcode and data |
| WebSocketFrame.SentIsMinimal | application/http_server/websocket.c:257-271 | the length form used is the shortest and the only one of that size |
| WebSocketFrame.SentExamples | application/http_server/websocket.c:157-176 | the headers written for 5, 256 and 65536 bytes, as in section 5.7 of RFC 6455 |
| WebSocketCommands.SendDownload | application/http_server/websocket.c:197-248 | one frame: the error text for the first thing that failed, or the file; a prefix of it where a send makes no progress |
| WebSocketCommands.PongBytes | application/http_server/websocket.c:473-475 | the two bytes written out are a Pong frame |
| WebSocketCommands.PongEchoes | application/http_server/websocket.c:471-478 | the Pong carries what the Ping carried if and only if that was nothing |
| WebSocketCommands.StartUnderstood | application/http_server/websocket.c:368-377 | an upload command written with a plain name and a decimal size is read as exactly that name and size |
| WebSocketCommands.StartNeedsSize | application/http_server/websocket.c:370-408 | without a colon behind the name the command is ignored |
| WebSocketCommands.SignedSizes | application/http_server/websocket.c:374 | white space and a sign may stand before the size |
| WebSocketCommands.CompleteUnderstood | application/http_server/websocket.c:410 | exactly the text upload_complete, alone or with a NUL behind it, completes |
| WebSocketCommands.DownloadUnderstood | application/http_server/websocket.c:364-367 | exactly a text that begins with download: asks for a file, the one named up to a NUL |
| WebSocketCommands.DownloadAnswered | application/http_server/websocket.c:197-248 | the bytes that go out for a download: the file in a binary frame, or one of four texts saying why not |
| WebSocketCommands.ReadyRead | application/http_server/websocket.c:376 | the answer to upload_start holds the name and the size (as the 32-bit number it became) where a peer reads them |
| WebSocketCommands.AnswerIs | application/http_server/websocket.c:354-482 | which frames are answered at all, and with what |
| WebSocketStream.Connection.constructor | application/http_server/websocket.c:285-288 | nothing received, no upload |
| WebSocketStream.Connection.Append | application/http_server/websocket.c:303-329 | the new bytes stand behind the waiting ones |
| WebSocketStream.Connection.Consume | application/http_server/websocket.c:484-503 | exactly the handled frame leaves the buffer |
| WebSocketStream.Connection.HandleText | application/http_server/websocket.c:355-434 | upload start and completion, what is saved, and the frame sent back |
| WebSocketStream.Connection.HandleBinary | application/http_server/websocket.c:436-461 | appends the payload up to the declared size |
| WebSocketStream.Connection.HandleFrame | application/http_server/websocket.c:354-482 | the dispatch on the opcode: the upload, what is saved, and the bytes sent back |
| WebSocketStream.Connection.Receive | application/http_server/websocket.c:293-504 | one pass of the loop is one step of the machine on values, for arrays reallocated and unmasked in place, with the reply it sends |
| WebSocketStream.FrameStable | application/http_server/websocket.c:85-153 | bytes behind a complete frame change nothing about it |
| WebSocketStream.TrackStep | application/http_server/websocket.c:436-461 | truncating payload by payload is truncating their concatenation |
| WebSocketStream.Reassembled | application/http_server/websocket.c:293-504 | for every chunking: stream = raw bytes of the frames handled + buffer; their frames are the stream's frames in order; the upload is the first `total` bytes of the binary payloads since its start |
| WebSocketStream.OnePerPass | application/http_server/websocket.c:331-346 | after each recv the number of frames handled is one more than before or that of all whole frames so far, whichever is less |
| WebSocketStream.FramesOfSending | application/http_server/websocket.c:331-346 | the frames found in a stream of frames are those frames, unmasked |
| WebSocketStream.HandledInOrder | application/http_server/websocket.c:293-504 | the frames handled are an initial part of those the peer sent |
| WebSocketStream.PeerHeard | application/http_server/websocket.c:293-504 | with a peer whose frames each fit 64 KiB and do not close, for every chunking of any beginning of them: nothing is dropped or closed, no length wraps and the frames handled are the first ones sent |
| WebSocketStream.SavedWhole | application/http_server/websocket.c:410-429 | a file is saved exactly at an upload_complete during an upload: the first `total` bytes of all binary payloads since the start, or all of them where fewer came |
| WebSocketStream.UploadSaved | application/http_server/websocket.c:368-461 | upload_start with a plain name, binary frames and upload_complete, after anything before: the first bytes of the payloads up to the size are saved under the first 63 of the name; nothing when the size is 0 or above 10 MiB |
| WebSocketStream.LongDropped | application/http_server/websocket.c:331-346 | part of a frame is dropped exactly when 65536 bytes or more of it wait |
| WebSocketStream.CloseEnds | application/http_server/websocket.c:463-469 | a whole frame ends the connection if and only if its opcode is 8; any other is handled |
| WebSocketStream.AnswersRead | application/http_server/websocket.c:354-482 | a peer that parses what it is sent finds exactly the answers to the frames handled, in their order |
| Crc16.UpdateCRC16 | Middlewares/modem/ymodem.c:398-416 | the 32-bit do/while loop with its marker bit multiplies by x^8 modulo the polynomial and adds the byte |
| Crc16.CalCRC16 | Middlewares/modem/ymodem.c:424-436 | the message and two zero bytes through that update |
| Crc16.Injective | Middlewares/modem/ymodem.c:398-416 | shifting through the feedback loses nothing |
| Crc16.RowIs | utils/util_crc16_ccitt.c:8-41 | each of the 256 constants, row by row, is eight shifts of its index |
| Crc16.EntryIs | utils/util_crc16_ccitt.c:8-41 | entry i of the table is the byte i multiplied by x^8 |
| Crc16.TableStep | utils/util_crc16_ccitt.c:63-64 | one table look-up is eight bit steps |
| Crc16.TableCRC | utils/util_crc16_ccitt.c:44-66 | the loop of both table functions, for either start value |
| Crc16.SerialIsTable | Middlewares/modem/ymodem.c:424-436 | for every message the bit-serial CRC with two zero bytes equals the table-driven one |
| Crc16.Residue | utils/util_crc16_ccitt.c:57-66 | a message followed by its CRC, high byte first, leaves 0 |
| Crc16.BytesAreBits | utils/util_crc16_ccitt.c:57-66 | taking a message by bytes or by bits is the same |
| Crc16.BurstDetected | utils/util_crc16_ccitt.c:57-66 | messages of any length that differ within 16 consecutive bits have different CRCs |
| Crc16.TwoBytesDetected | utils/util_crc16_ccitt.c:57-66 | in particular within two adjacent bytes |
| CrcChecks.CheckValues | utils/util_crc16_ccitt.c:44-66 | over the characters 1 to 9: 0x31C3 from 0, 0x29B1 from 0xFFFF, and 0xCBF43926 for the CRC-32 of littlefs |
| CrcChecks.YmodemCheck | Middlewares/modem/ymodem.c:424-436 | the CRC of a packet over the same bytes as integers is 0x31C3 |
| CrcChecks.ModbusCheck | Middlewares/modbus/modbus_master.c:80-101 | calcCRC returns 0x374B for them |
| ReflectedCrc.CalcCRC | Middlewares/modbus/modbus_master.c:80-101 | the nested loops are the bit-by-bit reflected CRC, returned with its bytes swapped |
| ReflectedCrc.FitsAll | Middlewares/modbus/modbus_master.c:82-93 | the unsigned int register never leaves 16 bits |
| ReflectedCrc.ModbusResidue | Middlewares/modbus/modbus_master.c:80-101 | a message followed by its CRC in transmission order leaves 0 |
| ReflectedCrc.ModbusTwoBytesDetected | Middlewares/modbus/modbus_master.c:80-101 | messages that differ within two adjacent bytes have different CRCs, at any length |
| ReflectedBursts.ModbusBurst | Middlewares/modbus/modbus_master.c:80-101 | messages of any length that differ within 16 consecutive bits have different CRCs |
| ReflectedCrc.TableIs | Middlewares/Third_Party/littlefs/lfs_util.c:18-23 | each of the 16 constants is its index shifted through four bits |
| ReflectedCrc.NibbleStep | Middlewares/Third_Party/littlefs/lfs_util.c:28 | one table step is four bit steps |
| ReflectedCrc.ByteStep | Middlewares/Third_Party/littlefs/lfs_util.c:28-29 | the two table steps are one byte of the bit-by-bit CRC-32 |
| ReflectedCrc.LfsCRC | Middlewares/Third_Party/littlefs/lfs_util.c:17-33 | the nibble-table loop is the bit-by-bit CRC-32 from any start value |
| ReflectedCrc.StepAppend | Middlewares/Third_Party/littlefs/lfs_util.c:17-33 | it chains over concatenation |
| ReflectedBursts.LfsInjective | Middlewares/Third_Party/littlefs/lfs_util.c:17-33 | chained over the same bytes, different start values stay different |
| ReflectedBursts.LfsResidue | Middlewares/Third_Party/littlefs/lfs_util.c:17-33 | a message followed by its CRC-32, lowest byte first, leaves 0 from any start value |
| ReflectedBursts.LfsBurst | Middlewares/Third_Party/littlefs/lfs_util.c:17-33 | messages of any length that differ within 32 consecutive bits have different CRCs, from any start value |
| Cobs.CobsEncode | Middlewares/Third_Party/cobs/cobs.c:34-69 | the loop with its back-patched code byte writes the stuffed form and the delimiter, and nothing behind them; no 16-bit index wraps |
| Cobs.CobsDecode | Middlewares/Third_Party/cobs/cobs.c:6-31 | writes the decoded bytes and returns their number, or 0 on a bad code byte, also in place |
| Cobs.CopyBlock | Middlewares/Third_Party/cobs/cobs.c:20-22 | the inner loop copies one block without overtaking the reader |
| Cobs.RoundTrip | Middlewares/Third_Party/cobs/cobs.c:6-69 | decoding an encoding without its delimiter gives the input |
| Cobs.OnlyDelimiter | Middlewares/Third_Party/cobs/cobs.c:34-69 | a byte of an encoding is zero if and only if it is the last |
| Cobs.LengthBound | Middlewares/Third_Party/cobs/cobs.c:34-69 | n + 2 <= length <= n + n/254 + 2 |
| Cobs.BoundReached | Middlewares/Third_Party/cobs/cobs.c:51-57 | the upper bound is reached by every input without zeros |
| Cobs.DecodeShrinks | Middlewares/Third_Party/cobs/cobs.c:6-31 | the decoder produces less than it reads |
| Calendar.CvtTimestamp64 | utils/util_time.c:197-228 | whatever the fields hold, the seconds of the calendar modulo 2^64; a month above 13 adds what stands in memory behind the table |
| Calendar.CvtTimestamp64ToDate | utils/util_time.c:231-270 | the result is a valid date with exactly this timestamp; the month index never passes December |
| Calendar.DaysBeforeYearClosed | utils/util_time.c:201-205 | the year loop counts 365 days a year and the Gregorian leap days |
| Calendar.StrictlyIncreasing | utils/util_time.c:197-228 | timestamps increase strictly in calendar order |
| Calendar.OrderReflected | utils/util_time.c:197-228 | order on timestamps is order on dates, and equality equality |
| Calendar.EverySecondHasADate | utils/util_time.c:231-270 | every second from 1970 on belongs to a valid date |
| Calendar.SecondsFit | utils/util_time.c:222-225 | no wrap-around for a valid date in the struct |
| Calendar.ThereAndBack | utils/util_time.c:197-270 | converting a valid date to seconds and back gives it back |
| Calendar.DayOfYearIs | utils/util_time.c:112-124 | the tables agree with the day difference from 1 January |
| Calendar.ValidMeansBefore2100 | utils/util_time.c:272-309 | valid exactly for calendar dates whose timestamp lies before the year 2100 |
| Ymodem.Str2Int | Middlewares/modem/ymodem.c:93-160 | the loops compute the number of the field, hexadecimal or decimal with k and m, or leave the result unwritten |
| Ymodem.Modem.ReceivePacket | Middlewares/modem/ymodem.c:216-303 | status, length, packet buffer and input left, for every delivery of the line |
| Ymodem.Modem.ReceiveRest | Middlewares/modem/ymodem.c:262-299 | number complement and CRC are checked on what stands in the buffer |
| Ymodem.FramedAccepted | Middlewares/modem/ymodem.c:216-303 | a packet that arrives as framed is accepted with its number and data |
| CrcChecks.PacketExample | Middlewares/modem/ymodem.c:216-303 | packet 1 with 127 zeros and a 1 goes over the line as 01 FE, the data, 10 21 |
| Ymodem.StalePacket | Middlewares/modem/ymodem.c:262-299 | when the read of the body fails behind a start byte of the same size, the packet accepted last is accepted again |
| Ymodem.Modem.ParseHeader | Middlewares/modem/ymodem.c:760-777 | the declared size behind the name |
| Ymodem.Modem.DownloadFile | Middlewares/modem/ymodem.c:692-864 | the two nested loops are the session machine: return value, length, write calls, replies and position |
| YmodemHeader.HeaderUnderstood | Middlewares/modem/ymodem.c:93-160 | from a header with a name, a NUL, a decimal size and a space exactly that size is read, for every 32-bit size |
| YmodemHeader.FieldsOf | Middlewares/modem/ymodem.c:757-781 | in any header the name goes to a NUL or 63 bytes, the next byte is skipped, the size goes to a space or 15 bytes, and the size kept is its number or the one before |
| YmodemHeader.DecimalForms | Middlewares/modem/ymodem.c:123-157 | a decimal size of up to ten digits is read modulo 2^32, times 1024 or 1048576 before a K or M; anything else behind it, or an eleventh digit, refuses it |
| YmodemHeader.HexForms | Middlewares/modem/ymodem.c:98-122 | behind 0x up to nine hexadecimal digits are read modulo 2^32, and nothing else may follow |
| YmodemHeader.NoDigits | Middlewares/modem/ymodem.c:93-160 | an empty field is 0 and one that begins with no digit is no number |
| YmodemSession.DownloadIsRun | Middlewares/modem/ymodem.c:715-862 | every call is a run of the session machine over the packets it meets |
| YmodemSession.WritesTile | Middlewares/modem/ymodem.c:799-826 | in every run each write call starts where the calls before it ended; position and length are what was written |
| YmodemSession.NumberedWrites | Middlewares/modem/ymodem.c:749-827 | in every run the writes carry, in order of arrival, packets numbered 1 to 255 and again, each the next expected when it came |
| YmodemLine.AcceptedArrived | Middlewares/modem/ymodem.c:216-303 | where the read of the body brings all of it or nothing, a packet is accepted only with the number and data it arrived with as framed |
| YmodemLine.FileIsPrefix | Middlewares/modem/ymodem.c:692-864 | on a line where no body is cut short (it comes whole, times out, or its read fails at the size stored last), whatever packets were lost, repeated, damaged or reordered, for a file below 255 blocks or as long as at most 255 packets were written: the first blocks, each once and in order, so the file is a prefix of the sender's stream |
| YmodemLine.PrefixExact | Middlewares/modem/ymodem.c:749-827 | the bound is exact: what was written is a beginning of the sender's blocks if and only if it is at most 255 packets, unless the 256th block equals the first, the 257th, the 513th ... |
| YmodemLine.AlwaysPrefixIff | Middlewares/modem/ymodem.c:749-827 | what is known beforehand: every such line gives a beginning of the blocks if and only if there are fewer than 255, unless the 256th equals the first |
| YmodemLine.ShortFile | Middlewares/modem/ymodem.c:749-752 | with at most 256 blocks the hypothesis on the sender is that each packet delivered well formed is its own |
| YmodemLine.WaitingSender | Middlewares/modem/ymodem.c:749-752 | and for longer files a sender that waits for each packet to be accepted meets it |
| YmodemLine.WholeFileMeansLength | Middlewares/modem/ymodem.c:692-864 | on such a line a caller that got 0 has the whole file if and only if the length handed back is that of the file, below 4 GiB |
| YmodemLine.LineRuns | Middlewares/modem/ymodem.c:216-303 | packets put on the line as framed make the receiver run through exactly these |
| YmodemLine.CutAccepted | Middlewares/modem/ymodem.c:262-299 | a packet cut after any number of body bytes, behind one of its size: the exact condition under which it is accepted, its number and the mixed data it is accepted with |
| YmodemLine.CutEarly | Middlewares/modem/ymodem.c:272-294 | cut right behind its complement it always passes with the old data; one or two bytes later only if those agree |
| YmodemLine.CutWritten | Middlewares/modem/ymodem.c:262-299 | header, first block and a second block cut so: the first block is written twice, whatever the second was |
| YmodemSession.ZeroReturned | Middlewares/modem/ymodem.c:719-864 | 0 is returned if and only if an end of transmission, an empty header or a header over the limit was met |
| YmodemSession.LimitReturnsZero | Middlewares/modem/ymodem.c:780-791 | a file over the limit: 0, nothing written, length 0 |
| YmodemSession.EarlyEndReturnsZero | Middlewares/modem/ymodem.c:727-732 | an end of transmission as the first byte: 0, nothing written, length 0 |
| YmodemSession.BadPackets | Middlewares/modem/ymodem.c:839-859 | once begun, exactly the sixth bad packet or timeout in a row ends the call with 1; fewer change neither file nor expected number; before, the receiver asks for ever |
| YmodemSession.WholeFileIff | Middlewares/modem/ymodem.c:827 | an undisturbed transfer delivers the whole file if and only if it has at most 255 blocks |
| YmodemSession.RepeatWritten | Middlewares/modem/ymodem.c:749-827 | with 255 blocks a late repetition of the header and the first block is written again |
| YmodemSession.RepeatRefused | Middlewares/modem/ymodem.c:749-752 | a packet met twice in a row changes nothing the second time but for a NAK |
| YmodemBytes.FirstByte | Middlewares/modem/ymodem.c:216-258 | which first bytes end the transmission (04), abort it (41, 61) or begin nothing |
| YmodemBytes.CancelBytes | Middlewares/modem/ymodem.c:239-249 | 18 cancels when another 18 follows, or when the read for it fails |
| YmodemBytes.BodyBytes | Middlewares/modem/ymodem.c:226-294 | 01 begins a packet of 128 bytes and 02 one of 1024, and it is taken exactly when number and complement add up to 255 and the CRC is that of the data |
| YmodemReplies.RepliesExact | Middlewares/modem/ymodem.c:719-864 | in every run what goes out is one answer for each event, in order: 06 for a packet written, 15 for another number, 43 for a bad one, 18 18 for giving up, 06 43 for a header |
| YmodemReplies.UndisturbedReplies | Middlewares/modem/ymodem.c:755-825 | an undisturbed sender reads 06 43 for its header and 06 for each block |
| YmodemSession.DamageRefused | Middlewares/modem/ymodem.c:283-293 | damage within two adjacent data bytes is never accepted |
| Modbus.ReceivePacket | Middlewares/modbus/modbus_master.c:209-333 | the value returned for every delivery, and the frame in the buffer when it is a length |
| Modbus.AcceptedIsSound | Middlewares/modbus/modbus_master.c:315-332 | accepted only whole and with a matching CRC |
| Modbus.ResultsExact | Middlewares/modbus/modbus_master.c:209-333 | what each value returned means: -1 for fewer than 3 bytes, -99 for other function codes, -3 for more than the buffer, -4 for a short body, -5 for a CRC that does not match, the length otherwise |
| CrcChecks.AnswerAccepted | Middlewares/modbus/modbus_master.c:209-333 | the answer 01 03 02 00 0A 38 43 is accepted and sets the register to 10 |
| Modbus.ResponseAccepted | Middlewares/modbus/modbus_master.c:209-333 | every read response that fits is accepted with its exact length |
| Modbus.GetFC1 | Middlewares/modbus/modbus_master.c:103-134 | one register for each coil bit, as far as the array reaches; unchanged when too many |
| Modbus.GetFC3 | Middlewares/modbus/modbus_master.c:136-156 | one register for each big-endian pair; the byte index wraps only after its last use |
| Modbus.ParseRecv | Middlewares/modbus/modbus_master.c:158-201 | 0 exactly for a matching CRC, and then the registers of the response, whatever stands behind it in the buffer |
| Modbus.ParseTail | Middlewares/modbus/modbus_master.c:103-201 | the bytes behind a frame make no difference to the registers |
| Modbus.MasterReq | Middlewares/modbus/modbus_master.c:336-386 | a whole request: the result for every delivery and the registers after it; an accepted frame never fails to parse |
| Modbus.OutcomesExact | Middlewares/modbus/modbus_master.c:336-386 | each outcome stands for one of these values, and all but success leave the registers alone |
| Modbus.RegistersRoundTrip | Middlewares/modbus/modbus_master.c:136-201 | from a buffer that begins with the response exactly the slave's register values arrive and nothing else changes |
| Modbus.CoilsRoundTrip | Middlewares/modbus/modbus_master.c:103-201 | from a buffer that begins with the response exactly the slave's coils arrive, zeros for padding, the rest unchanged |
| Modbus.TooLargeIgnored | Middlewares/modbus/modbus_master.c:113-149 | a response too large for the registers changes none, whatever follows it in the buffer |
| Modbus.RegistersRead | Middlewares/modbus/modbus_master.c:136-386 | from the line into the registers: the values arrive if and only if there are at most 57 and the caller has room; without room the request still succeeds |
| Modbus.CoilsRead | Middlewares/modbus/modbus_master.c:103-386 | the same for coils, at most 920 |
| Modbus.ShortAnswersRefused | Middlewares/modbus/modbus_master.c:234-318 | the 8-byte answers to writes and the 5-byte exceptions of the Modbus protocol are refused as too short when nothing follows them |
| Modbus.DamageNoticed | Middlewares/modbus/modbus_master.c:166-175 | damage within two adjacent bytes before the CRC never passes |
| Modbus.DamagedRefused | Middlewares/modbus/modbus_master.c:315-332 | from the line: a read response damaged within two adjacent bytes, function code and length intact, gives a CRC error and changes no register |
| Shell.Editor.constructor | application/io/shell.c:53-67 | an empty line and empty rows |
| Shell.Editor.InputCommand | application/io/shell.c:559-578 | the rows move down and the line becomes the newest |
| Shell.Editor.CopyRow | application/io/shell.c:564-569 | one row, with its zeros, becomes another |
| Shell.Editor.GetHistoryCommand | application/io/shell.c:355-384 | the line is replaced by the row, unless the newest row is empty |
| Shell.Editor.InsertAt | application/io/shell.c:753-771 | the tail moves up and the character stands at the cursor, zeros behind; with 63 in the line the character replaces the first |
| Shell.Editor.RemoveAt | application/io/shell.c:707-729 | the tail moves down over the erased character, zeros behind |
| Shell.Editor.HandleArrow | application/io/shell.c:636-675 | the four arrow keys on text before and after the cursor |
| Shell.Editor.HandleKey | application/io/shell.c:594-776 | each key that fits is one step of the reference editor, the cursor within the line and zeros behind it; a character at 63 or a NUL leaves the exact line and positions stated, which are those of no state |
| Shell.Editor.Recv | application/io/shell.c:580-778 | a call takes keys up to Enter, Ctrl-C or Ctrl-Q and does what the reference does, as long as they fit |
| ShellHistory.CursorKeys | application/io/shell.c:657-670 | left and right change no text and undo each other |
| ShellHistory.EraseInserted | application/io/shell.c:699-771 | backspace takes back an inserted character anywhere in the line |
| ShellTyping.Typed | application/io/shell.c:753-776 | printable bytes go in at the cursor, in order |
| ShellTyping.LineEntered | application/io/shell.c:742-749 | printable bytes typed into an empty line and Enter (0D or 0A): exactly these are entered |
| ShellTyping.EnterEnters | application/io/shell.c:742-749 | Enter enters what stands before and after the cursor and begins an empty line |
| ShellTyping.Erases | application/io/shell.c:699-733 | 7F and 08 take away the character before the cursor |
| ShellTyping.CursorMoves | application/io/shell.c:657-670 | 1B 5B 43 and 1B 5B 44 move the cursor right and left |
| ShellTyping.OtherEscapes | application/io/shell.c:621-675 | a character behind ESC that is no bracket goes in as it is, ESC lost; ESC, bracket and another letter do nothing |
| ShellTyping.Dropped | application/io/shell.c:605-620 | 03 and 11 drop the line without entering it; 09 changes nothing |
| ShellTyping.LineFits | application/io/shell.c:735-776 | a line fits exactly up to 63 characters |
| ShellHistory.HistoryIsRecent | application/io/shell.c:559-578 | after any keys the rows hold the last min(k, 5) lines entered, newest first |
| ShellHistory.StateStaysWf | application/io/shell.c:594-776 | while no character arrives at 63 and no NUL at all, no text reaches the end of its buffer |
| ShellHistory.CallContinues | application/io/shell.c:580-778 | the calls follow one another on one stream of keys: each takes all that fit or those up to the first Enter, Ctrl-C or Ctrl-Q, and enters at most one line |
| ShellHistory.PressesTyped | application/io/shell.c:621-675 | typing ESC, bracket and letter is pressing the arrow key |
| ShellHistory.EnteredIsReady | application/io/shell.c:742-749 | right after a line with something in it was entered the history keys start from it |
| ShellHistory.UpShows | application/io/shell.c:594-776 | on any keys typed so far: the j-th Up shows the j-th newest line entered and stays at the oldest of five |
| ShellHistory.DownsAfterUps | application/io/shell.c:594-776 | which line the k-th Down shows after j Ups: the first one older still, then back one by one to the newest |
| ShellHistory.EmptyBlocks | application/io/shell.c:355-363 | Up and Down leave the line alone if and only if the newest entry is empty or the line is already what they bring |

## Left out

- Sockets, UARTs, FatFs, the RTOS and logging: what they deliver is a parameter (arbitrary bytes or results), what is sent or saved an output.
- Ymodem_Transmit, the Modbus send_query, shell AutoComplete and ProcessCommand, the WebSocket handshake, the terminal connection, FlashDB.
- Null pointers, except where a function tests for them and the result is modelled.
- JSON sizes near SIZE_MAX, where an index plus a constant would wrap.
- JsonLookup.MalformedQuery: about the first part of a query; a later one is read only when the search gets there, and then in the same way.
- JsonSearch.Iterate: the output pointers are one optional record; a caller's wrong cursors are modelled, null ones are not.
- Dispatcher.SyncMatch: assumes that no ACK prefix is NULL, which the code would pass to strlen.
- Dispatcher.Table.HandleFrame: takes the NUL behind the frame for granted, as the UART driver writes it.
- DispatcherRuns.FramesDispatched: the callback itself, which runs after the lock is released, is not modelled.
- DispatcherRuns.Completes: no fairness between threads is stated; while new calls and frames keep coming a waiting thread may wait on.
- DispatcherRuns.Progress: counts a timeout as always possible, which a call with osWaitForever has not; StuckIff has that case.
- WebSocketFrame.ParseFrame: what the code does after the test has passed wrongly, which reads and writes beyond the buffer, is not modelled; WrapExact says when that is.
- WebSocketStream.Connection.Receive: as for ParseFrame the length sum does not wrap, allocations succeed, and after a Close frame nothing is said about the connection.
- WebSocketCommands.StartUnderstood: the number in a command is read as by atol within the range of a long.
- WebSocketStream.AnswersRead: for replies that the socket takes whole.
- WebSocketStream.Reassembled: about runs in which no incomplete frame reaches 64 KiB (the code then drops the buffer), no Close frame was met and every buffer's length sum fits 64 bits (SumFits), as the step is what the code does only then; PeerHeard has the peers that never leave these.
- Crc16.TableCRC: the flat table is laid out as sixteen rows of sixteen.
- Cobs.CobsDecode: after an error the contents of the output buffer are not described.
- Calendar.CvtTimestamp64ToDate: for timestamps whose year an int holds; beyond, the C overflows.
- YmodemLine.FileIsPrefix: not for bodies cut short, with which it is false (CutWritten), nor for a read that fails at another size than the body stored last had; assumes that a packet delivered well formed is the sender's own, and with more than 256 blocks that the sender does not run ahead of what was accepted.
- Modbus.ParseRecv: assumes that the data a read response announces lies within the buffer, as it does for every frame accepted before (MasterReq needs no such assumption).
- Shell.Editor.Recv: only while every key fits; from the state that HandleKey describes for the first one that does not, the code goes on with positions outside the line.
- The telnet automaton, hex conversion, endian helpers, safe-copy functions and floating-point filters: straightforward or out of scope.
